/** What the sanitiser keeps of a line, said of its output alone: what it passes on as it
    is, what it leaves out, and where it stops. */
module SaneText {
  import opened Bytes
  import opened Sanitize

  // ----- running on -----

  /** The state after some input, and whether the loop still goes on. */
  function RunMore(s: Sane, input: string): (Sane, bool)
    decreases |input|
  {
    if input == "" then (s, true)
    else
      var (t, more) := Step(s, input[0]);
      if more then RunMore(t, input[1..]) else (t, false)
  }

  lemma {:induction false} RunIs(s: Sane, input: string)
    ensures Run(s, input) == RunMore(s, input).0
    decreases |input|
  {
    hide Step;
    if input != "" && Step(s, input[0]).1 {
      RunIs(Step(s, input[0]).0, input[1..]);
    }
  }

  lemma {:induction false} RunAppend(s: Sane, a: string, b: string)
    ensures RunMore(s, a + b) == if RunMore(s, a).1 then RunMore(RunMore(s, a).0, b) else RunMore(s, a)
    decreases |a|
  {
    hide Step;
    if a == "" {
      assert a + b == b;
    } else {
      assert (a + b)[0] == a[0] && (a + b)[1..] == a[1..] + b;
      if Step(s, a[0]).1 {
        RunAppend(Step(s, a[0]).0, a[1..], b);
      }
    }
  }

  lemma RunOne(s: Sane, c: char)
    ensures RunMore(s, [c]) == Step(s, c)
  {
    hide Step;
    assert [c][1..] == "";
  }

  // ----- where no flag is up -----

  predicate NoFlags(s: Sane) {
    !s.backslash && !s.exclamation && !s.dollar && !s.skipWord
  }

  /** Nothing is pending and nothing is open. */
  predicate Bare(s: Sane) {
    NoFlags(s) && s.ql == []
  }

  /** A character that means nothing outside quotes. */
  predicate Ordinary(c: char) {
    c !in {'\'', '\"', '\\', '$', '!', '(', ')', '`', CR, LF} && !IsFinisher(c)
  }

  /** A character that is passed on as it is while `ql` is open. */
  predicate Passes(ql: seq<Quote>, c: char) {
    if ql == [] then Ordinary(c)
    else match ql[0]
      case Single => c !in {'\'', CR, LF}
      case Double => c !in {'\"', '$', '!', '`', CR, LF}
      case Paren => Ordinary(c) || IsFinisher(c)
  }

  predicate AllPass(ql: seq<Quote>, a: string) {
    forall i :: 0 <= i < |a| ==> Passes(ql, a[i])
  }

  lemma StepPasses(s: Sane, c: char)
    requires NoFlags(s) && Passes(s.ql, c)
    ensures Step(s, c) == (Added(s, c), true)
  {
  }

  lemma {:induction false} RunPasses(s: Sane, a: string)
    requires NoFlags(s) && AllPass(s.ql, a)
    ensures RunMore(s, a) == (s.(command := s.command + a), true)
    decreases |a|
  {
    hide Step, Passes;
    if a == "" {
      assert s.command + a == s.command;
    } else {
      StepPasses(s, a[0]);
      RunPasses(Added(s, a[0]), a[1..]);
      assert (s.command + [a[0]]) + a[1..] == s.command + a;
    }
  }

  // ----- prefixes after which anything may follow -----

  /** Told from the output: an ordinary character that follows is simply added. */
  predicate Ready(p: string) {
    Sanitized(p + "x") == Sanitized(p) + "x"
  }

  lemma OneClosed(s: Sane, q: Quote)
    ensures var t := ClosedOne(s, q);
            t.ql == s.ql && t.command != "" && t.command[|t.command| - 1] in {'\'', '\"', ')'}
  {
  }

  lemma {:induction false} ClosedGrows(s: Sane)
    ensures s.ql == [] ==> Closed(s) == s
    ensures s.ql != [] ==> Closed(s).command != "" && Closed(s).command[|Closed(s).command| - 1] in {'\'', '\"', ')'}
    decreases |s.ql|
  {
    hide ClosedOne;
    if s.ql != [] {
      var rest := s.(ql := s.ql[1..]);
      OneClosed(rest, s.ql[0]);
      ClosedGrows(ClosedOne(rest, s.ql[0]));
    }
  }

  /** A pending backslash stands on the output. */
  lemma {:induction false} BackslashThere(s: Sane, input: string)
    requires s.backslash ==> s.command != "" && !s.exclamation && !s.dollar
    ensures var t := RunMore(s, input).0; t.backslash ==> t.command != "" && !t.exclamation && !t.dollar
    decreases |input|
  {
    if input != "" {
      BackslashStep(s, input[0]);
      hide Step;
      if Step(s, input[0]).1 {
        BackslashThere(Step(s, input[0]).0, input[1..]);
      }
    }
  }

  lemma BackslashStep(s: Sane, c: char)
    requires s.backslash ==> s.command != "" && !s.exclamation && !s.dollar
    ensures var t := Step(s, c).0; t.backslash ==> t.command != "" && !t.exclamation && !t.dollar
  {
  }

  lemma FinishBare(s: Sane)
    requires Bare(s)
    ensures Finish(s) == s.command
  {
  }

  lemma ReadyState(s: Sane)
    requires s.backslash ==> s.command != "" && !s.exclamation && !s.dollar
    requires var (t, more) := Step(s, 'x'); Finish(t) == Finish(s) + "x"
    ensures Bare(s)
  {
    var (t, more) := Step(s, 'x');
    var f := if s.backslash then Backspaced(s).(backslash := false) else s;
    var g := if t.backslash then Backspaced(t).(backslash := false) else t;
    ClosedGrows(f);
    ClosedGrows(g);
    assert (Finish(s) + "x")[|Finish(s)|] == 'x';
    assert t.ql == s.ql;
  }

  /** The output tells when the loop goes on with no flag up and nothing open. */
  lemma ReadyIff(p: string)
    ensures Ready(p) <==> RunMore(START, p).1 && Bare(RunMore(START, p).0)
    ensures Ready(p) ==> Sanitized(p) == RunMore(START, p).0.command
  {
    hide Step, Finish, Bare, RunMore, Run;
    var (s, more) := RunMore(START, p);
    RunIs(START, p);
    RunIs(START, p + "x");
    RunAppend(START, p, "x");
    BackslashThere(START, p);
    RunOne(s, 'x');
    if more {
      if Ready(p) {
        ReadyState(s);
      }
      if Bare(s) {
        BareTakes(s, 'x');
        FinishBare(s);
        FinishBare(Added(s, 'x'));
      }
    } else {
      assert |Sanitized(p) + "x"| == |Sanitized(p)| + 1;
    }
  }

  lemma BareTakes(s: Sane, c: char)
    requires Bare(s) && Ordinary(c)
    ensures Step(s, c) == (Added(s, c), true) && Bare(Added(s, c))
  {
  }

  /** Going on from a ready prefix. */
  lemma Onwards(p: string, a: string) returns (s: Sane)
    requires Ready(p)
    ensures Bare(s) && s.command == Sanitized(p)
    ensures RunMore(START, p + a) == RunMore(s, a) && Sanitized(p + a) == Finish(RunMore(s, a).0)
    ensures Ready(p + a) <==> RunMore(s, a).1 && Bare(RunMore(s, a).0)
  {
    hide Step, Finish, Bare, RunMore, Run, Ready;
    s := RunMore(START, p).0;
    ReadyIff(p);
    ReadyIff(p + a);
    RunAppend(START, p, a);
    RunIs(START, p + a);
  }

  lemma NothingReady()
    ensures Ready("") && Sanitized("") == ""
  {
    assert "" + "x" == "x" && "x"[1..] == "";
    RunOne(START, 'x');
    RunIs(START, "x");
  }

  // ----- what is kept -----

  /** Ordinary text is kept. */
  lemma OrdinaryKept(p: string, a: string)
    requires Ready(p) && AllPass([], a)
    ensures Sanitized(p + a) == Sanitized(p) + a && Ready(p + a)
  {
    hide Ready, RunMore, Finish, Sanitized, Passes;
    var s := Onwards(p, a);
    RunPasses(s, a);
    FinishBare(s.(command := s.command + a));
  }

  /** Two stretches in a row. */
  lemma RunTwo(s: Sane, a: string, b: string, t: Sane)
    requires RunMore(s, a) == (t, true)
    ensures RunMore(s, a + b) == RunMore(t, b)
  {
    hide Step, RunMore;
    RunAppend(s, a, b);
  }

  /** What opens a quote or a group and what closes it. */
  function Opener(q: Quote): char {
    match q case Single => '\'' case Double => '\"' case Paren => '('
  }

  lemma Opens(s: Sane, q: Quote)
    requires Bare(s) && (q.Paren? ==> LastIn(s, {'?', '*', '+', '@'}))
    ensures RunMore(s, [Opener(q)]) == (Added(s, Opener(q)).(ql := [q]), true)
  {
    RunOne(s, Opener(q));
    assert [q] + [] == [q];
  }

  lemma Closes(s: Sane, q: Quote)
    requires NoFlags(s) && s.ql == [q]
    ensures RunMore(s, [Closer(q)]) == (Added(s, Closer(q)).(ql := []), true)
  {
    RunOne(s, Closer(q));
    assert [q][1..] == [];
  }

  lemma FinishOpen(s: Sane, q: Quote)
    requires NoFlags(s) && s.ql == [q]
    ensures Finish(s) == s.command + [Closer(q)]
  {
    assert [q][1..] == [];
    ClosedGrows(ClosedOne(s.(ql := []), q));
  }

  /** Quoted text is kept, and text in a group that a pattern character opens; what is left
      open is closed. */
  lemma EnclosedKept(p: string, q: Quote, a: string)
    requires Ready(p) && AllPass([q], a)
    requires q.Paren? ==> Sanitized(p) != "" && Sanitized(p)[|Sanitized(p)| - 1] in {'?', '*', '+', '@'}
    ensures var o := [Opener(q)] + a;
            && Sanitized(p + (o + [Closer(q)])) == Sanitized(p) + (o + [Closer(q)]) && Ready(p + (o + [Closer(q)]))
            && Sanitized(p + o) == Sanitized(p) + (o + [Closer(q)])
  {
    hide Ready, RunMore, Finish, Sanitized, Passes, Step;
    var o := [Opener(q)] + a;
    var s := Onwards(p, o);
    var s' := Onwards(p, o + [Closer(q)]);
    var t := Added(s, Opener(q)).(ql := [q]);
    var u := t.(command := t.command + a);
    Opens(s, q);
    RunTwo(s, [Opener(q)], a, t);
    RunPasses(t, a);
    FinishOpen(u, q);
    SameBare(s, s');
    RunTwo(s, o, [Closer(q)], u);
    Closes(u, q);
    FinishBare(Added(u, Closer(q)).(ql := []));
    assert u.command + [Closer(q)] == s.command + (o + [Closer(q)]);
  }

  lemma SameBare(s: Sane, t: Sane)
    requires Bare(s) && Bare(t) && s.command == t.command
    ensures s == t
  {
  }

  lemma BackslashRaised(s: Sane)
    requires Bare(s)
    ensures RunMore(s, ['\\']) == (Added(s, '\\').(backslash := true), true)
    ensures Finish(Added(s, '\\').(backslash := true)) == s.command
  {
    RunOne(s, '\\');
    assert (s.command + ['\\'])[..|s.command|] == s.command;
  }

  lemma BackslashTaken(s: Sane, c: char)
    requires s.backslash && !s.exclamation && !s.dollar && !s.skipWord && s.ql == [] && c !in {CR, LF}
    ensures RunMore(s, [c]) == (Added(s.(backslash := false), c), true)
  {
    RunOne(s, c);
  }

  /** An escaped character is kept with its backslash, a last backslash is not. */
  lemma EscapedKept(p: string, c: char)
    requires Ready(p) && c !in {CR, LF}
    ensures Sanitized(p + (['\\'] + [c])) == Sanitized(p) + ['\\', c] && Ready(p + (['\\'] + [c]))
    ensures Sanitized(p + ['\\']) == Sanitized(p)
  {
    hide Ready, RunMore, Finish, Sanitized, Step;
    var s := Onwards(p, ['\\'] + [c]);
    var s' := Onwards(p, ['\\']);
    SameBare(s, s');
    var t := Added(s, '\\').(backslash := true);
    BackslashRaised(s);
    RunTwo(s, ['\\'], [c], t);
    BackslashTaken(t, c);
    var u := Added(t.(backslash := false), c);
    FinishBare(u);
    assert u.command == s.command + ['\\', c];
  }

  // ----- where it stops -----

  predicate EndsCommand(c: char) {
    c in {';', '&', '|', '`'}
  }

  lemma StopsStep(s: Sane, c: char)
    requires Bare(s)
    ensures EndsCommand(c) ==> Step(s, c) == (s, false)
    ensures c == '<' || c == '>' ==> Step(s, c) == (s.(command := ""), false)
    ensures c == '(' && !LastIn(s, {'?', '*', '+', '@'}) ==> Step(s, c) == (s, false)
  {
  }

  lemma RunStops(s: Sane, c: char, b: string)
    requires !Step(s, c).1
    ensures RunMore(s, [c] + b) == Step(s, c)
  {
    hide Step;
  }

  /** The command ends at a bare separator or backtick; a bare redirection leaves nothing;
      a parenthesis that no pattern character stands before ends it too. */
  lemma StopsThere(p: string, c: char, b: string)
    requires Ready(p)
    ensures EndsCommand(c) ==> Sanitized(p + ([c] + b)) == Sanitized(p)
    ensures c == '<' || c == '>' ==> Sanitized(p + ([c] + b)) == ""
    ensures c == '(' && (Sanitized(p) == "" || Sanitized(p)[|Sanitized(p)| - 1] !in {'?', '*', '+', '@'}) ==>
              Sanitized(p + ([c] + b)) == Sanitized(p)
  {
    hide Ready, RunMore, Finish, Sanitized, Step;
    var s := Onwards(p, [c] + b);
    StopsStep(s, c);
    FinishBare(s);
    FinishBare(s.(command := ""));
    if !Step(s, c).1 {
      RunStops(s, c, b);
    }
  }

  lemma DollarRaised(s: Sane)
    requires Bare(s)
    ensures RunMore(s, ['$']) == (Added(s, '$').(dollar := true), true)
  {
    RunOne(s, '$');
  }

  lemma DollarStep(s: Sane, c: char)
    requires s.dollar && !s.backslash && !s.exclamation && !s.skipWord && s.ql == [] && s.command != ""
    ensures !IsBlank(c) && c != LF ==> Step(s, c) == (Backspaced(s).(dollar := false), false)
    ensures IsBlank(c) ==> Step(s, c) == (Added(s.(dollar := false), c), true)
  {
  }

  /** A `$` that begins something ends the command; before a blank it is kept. */
  lemma DollarStops(p: string, c: char, b: string)
    requires Ready(p) && c != LF
    ensures !IsBlank(c) ==> Sanitized(p + (['$'] + ([c] + b))) == Sanitized(p)
    ensures IsBlank(c) ==> Sanitized(p + (['$'] + [c])) == Sanitized(p) + ['$', c] && Ready(p + (['$'] + [c]))
  {
    hide Ready, RunMore, Finish, Sanitized, Step;
    var s := Onwards(p, ['$'] + ([c] + b));
    var s' := Onwards(p, ['$'] + [c]);
    SameBare(s, s');
    var t := Added(s, '$').(dollar := true);
    DollarRaised(s);
    RunTwo(s, ['$'], [c] + b, t);
    RunTwo(s, ['$'], [c], t);
    DollarStep(t, c);
    if IsBlank(c) {
      RunOne(t, c);
      var u := Added(t.(dollar := false), c);
      FinishBare(u);
      assert u.command == s.command + ['$', c];
    } else {
      RunStops(t, c, b);
      var u := Backspaced(t).(dollar := false);
      assert u.command == s.command;
      FinishBare(u);
    }
  }

  // ----- what is left out -----

  lemma DroppedStep(s: Sane, c: char)
    requires Bare(s) && (c == ')' || c == CR || c == LF)
    ensures RunMore(s, [c]) == (s, true)
  {
    RunOne(s, c);
  }

  /** A stray closing parenthesis and line ends are left out. */
  lemma StrayDropped(p: string, c: char)
    requires Ready(p) && (c == ')' || c == CR || c == LF)
    ensures Sanitized(p + [c]) == Sanitized(p) && Ready(p + [c])
  {
    hide Ready, RunMore, Finish, Sanitized, Step;
    var s := Onwards(p, [c]);
    DroppedStep(s, c);
    FinishBare(s);
  }

  lemma BangRaised(s: Sane)
    requires Bare(s)
    ensures RunMore(s, ['!']) == (Added(s, '!').(exclamation := true), true)
  {
    RunOne(s, '!');
  }

  lemma BangStep(s: Sane, c: char)
    requires s.exclamation && !s.backslash && !s.dollar && !s.skipWord && s.ql == [] && s.command != ""
    ensures !IsBlank(c) && c != LF && c != '(' ==> Step(s, c) == (Backspaced(s).(skipWord := true, exclamation := false), true)
    ensures IsBlank(c) ==> Step(s, c) == (Added(s.(exclamation := false), c), true)
    ensures c == '(' ==> Step(s, c) == (Added(s.(exclamation := false, ql := [Paren]), c), true)
  {
    assert [Paren] + [] == [Paren];
  }

  predicate Skipping(s: Sane) {
    s.skipWord && !s.backslash && !s.exclamation && !s.dollar && s.ql == []
  }

  lemma {:induction false} RunSkips(s: Sane, w: string)
    requires Skipping(s) && forall i :: 0 <= i < |w| ==> !IsBlank(w[i])
    ensures RunMore(s, w) == (s, true)
    decreases |w|
  {
    if w != "" {
      SkipStep(s, w[0]);
      hide Step;
      RunSkips(s, w[1..]);
    }
  }

  lemma SkipStep(s: Sane, c: char)
    requires Skipping(s)
    ensures !IsBlank(c) ==> Step(s, c) == (s, true)
    ensures IsBlank(c) ==> Step(s, c) == (Added(s.(skipWord := false), c), true)
  {
  }

  /** A word of history expansion is left out up to the blank that ends it. */
  lemma HistoryDropped(p: string, x: char, w: string, k: char)
    requires Ready(p) && x != LF && x != '(' && !IsBlank(x) && (forall i :: 0 <= i < |w| ==> !IsBlank(w[i])) && IsBlank(k)
    ensures var a := ['!'] + ([x] + (w + [k]));
            Sanitized(p + a) == Sanitized(p) + [k] && Ready(p + a)
  {
    hide Ready, RunMore, Finish, Sanitized, Step;
    var s := Onwards(p, ['!'] + ([x] + (w + [k])));
    var t := Added(s, '!').(exclamation := true);
    BangRaised(s);
    RunTwo(s, ['!'], [x] + (w + [k]), t);
    BangStep(t, x);
    RunOne(t, x);
    var u := Backspaced(t).(skipWord := true, exclamation := false);
    assert u.command == s.command;
    RunTwo(t, [x], w + [k], u);
    RunSkips(u, w);
    RunTwo(u, w, [k], u);
    SkipStep(u, k);
    RunOne(u, k);
    FinishBare(Added(u.(skipWord := false), k));
  }

  /** An exclamation mark before a blank is kept, and so is a group it opens. */
  lemma BangKept(p: string, k: char, a: string)
    requires Ready(p) && IsBlank(k) && AllPass([Paren], a)
    ensures Sanitized(p + (['!'] + [k])) == Sanitized(p) + ['!', k] && Ready(p + (['!'] + [k]))
    ensures var g := ['!'] + (['('] + (a + [')'])); Sanitized(p + g) == Sanitized(p) + g && Ready(p + g)
  {
    hide Ready, RunMore, Finish, Sanitized, Step, Passes;
    var g := ['!'] + (['('] + (a + [')']));
    var s := Onwards(p, ['!'] + [k]);
    var s' := Onwards(p, g);
    SameBare(s, s');
    var t := Added(s, '!').(exclamation := true);
    BangRaised(s);
    RunTwo(s, ['!'], [k], t);
    BangStep(t, k);
    RunOne(t, k);
    FinishBare(Added(t.(exclamation := false), k));
    assert Added(t.(exclamation := false), k).command == s.command + ['!', k];
    BangStep(t, '(');
    RunOne(t, '(');
    var u := Added(t.(exclamation := false, ql := [Paren]), '(');
    RunTwo(s, ['!'], ['('] + (a + [')']), t);
    RunTwo(t, ['('], a + [')'], u);
    RunPasses(u, a);
    var v := u.(command := u.command + a);
    RunTwo(u, a, [')'], v);
    Closes(v, Paren);
    FinishBare(Added(v, ')').(ql := []));
    assert Added(v, ')').command == s.command + g;
  }

  /** So a line of ordinary words is kept up to where a command ends, and a redirection
      leaves nothing of it. */
  lemma LineCut(a: string, c: char, b: string)
    requires AllPass([], a)
    ensures Sanitized(a) == a
    ensures EndsCommand(c) ==> Sanitized(a + ([c] + b)) == a
    ensures c == '<' || c == '>' ==> Sanitized(a + ([c] + b)) == ""
  {
    hide Ready, Sanitized, Passes;
    NothingReady();
    OrdinaryKept("", a);
    assert "" + a == a;
    StopsThere(a, c, b);
  }
}
