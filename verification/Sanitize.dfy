/** The sanitiser: a typed command line cut down to something a second shell may expand.
    `SaneCmd` is the source's loop over a struct of flags, a quote stack and an output
    string; `Sane` is that struct as a value. */
module Sanitize {
  import opened Bytes

  datatype Quote = Single | Double | Paren

  /** `ql` is the quote stack, innermost first. */
  datatype Sane = Sane(backslash: bool, exclamation: bool, dollar: bool, skipWord: bool, ql: seq<Quote>, command: string)

  const START := Sane(false, false, false, false, [], "")

  predicate In(ql: seq<Quote>, q: Quote) {
    ql != [] && ql[0] == q
  }

  predicate Quoted(ql: seq<Quote>) {
    In(ql, Single) || In(ql, Double)
  }

  predicate IsBlank(c: char) {
    c == ' ' || c == '\t'
  }

  /** Characters that end a command or redirect it. */
  predicate IsFinisher(c: char) {
    c == ';' || c == '&' || c == '|' || c == '<' || c == '>'
  }

  function Added(s: Sane, c: char): Sane {
    s.(command := s.command + [c])
  }

  function Backspaced(s: Sane): Sane {
    if s.command == "" then s else s.(command := s.command[..|s.command| - 1])
  }

  predicate LastIn(s: Sane, cs: set<char>) {
    s.command != "" && s.command[|s.command| - 1] in cs
  }

  /** Drop a pending escape and take the character as it is. */
  function Escaped(s: Sane, c: char): Sane {
    Added(s.(backslash := false), c)
  }

  /** One character outside skipped words; the flag tells that the loop goes on. */
  function Take(s: Sane, c: char): (Sane, bool) {
    if c == '\'' then
      if In(s.ql, Single) then (Added(s.(ql := s.ql[1..]), c), true)
      else if In(s.ql, Double) then (Added(s, c), true)
      else if s.backslash then (Escaped(s, c), true)
      else (Added(s.(ql := [Single] + s.ql), c), true)
    else if c == '\"' then
      if In(s.ql, Single) then (Added(s, c), true)
      else if In(s.ql, Double) then (Added(s.(ql := s.ql[1..]), c), true)
      else if s.backslash then (Escaped(s, c), true)
      else (Added(s.(ql := [Double] + s.ql), c), true)
    else if c == '\\' then
      if Quoted(s.ql) then (Added(s, c), true)
      else if s.backslash then (Escaped(s, c), true)
      else (Added(s.(backslash := true), c), true)
    else if c == '$' then
      if In(s.ql, Single) then (Added(s, c), true)
      else if s.backslash then (Escaped(s, c), true)
      else (Added(s.(dollar := true), c), true)
    else if c == '!' then
      if In(s.ql, Single) then (Added(s, c), true)
      else if In(s.ql, Paren) then (s, true)
      else if s.backslash then (Escaped(s, c), true)
      else (Added(s.(exclamation := true), c), true)
    else if IsBlank(c) then
      if s.exclamation then (Added(s.(exclamation := false), c), true)
      else if s.backslash then (Escaped(s, c), true)
      else (Added(s.(skipWord := false), c), true)
    else if c == '(' then
      if In(s.ql, Single) then (Added(s, c), true)
      else if s.backslash then (Escaped(s, c), true)
      else if s.exclamation then
        if In(s.ql, Double) then (Backspaced(s).(exclamation := false), false)
        else (Added(s.(exclamation := false, ql := [Paren] + s.ql), c), true)
      else if In(s.ql, Double) then (Added(s, c), true)
      else if LastIn(s, {'?', '*', '+', '@'}) then (Added(s.(ql := [Paren] + s.ql), c), true)
      else (s, false)
    else if c == ')' then
      if Quoted(s.ql) then (Added(s, c), true)
      else if s.backslash then (Escaped(s, c), true)
      else if In(s.ql, Paren) then (Added(s.(ql := s.ql[1..]), c), true)
      else (s, true)
    else if c == '`' then
      if In(s.ql, Single) then (Added(s, c), true)
      else if s.backslash then (Escaped(s, c), true)
      else (s, false)
    else if IsFinisher(c) then
      if s.ql != [] then (Added(s, c), true)
      else if s.backslash then (Escaped(s, c), true)
      else if c == '<' || c == '>' then (s.(command := ""), false)
      else (s, false)
    else if c == CR || c == LF then (s, true)
    else (Escaped(s, c), true)
  }

  /** One turn of the loop: history expansion, `$` constructs and skipped words first. */
  function Step(s: Sane, c: char): (Sane, bool) {
    if s.exclamation && c != '(' && !IsBlank(c) && c != LF then
      (Backspaced(s).(skipWord := true, exclamation := false), true)
    else if !s.exclamation && s.dollar && !IsBlank(c) && c != LF then
      (Backspaced(s).(dollar := false), false)
    else
      var t := if s.exclamation then s else s.(dollar := false);
      if t.skipWord && !IsBlank(c) then (t, true)
      else Take(t.(skipWord := false), c)
  }

  function Run(s: Sane, input: string): Sane
    decreases |input|
  {
    if input == "" then s
    else
      var (t, more) := Step(s, input[0]);
      if more then Run(t, input[1..]) else t
  }

  function Closer(q: Quote): char {
    match q case Single => '\'' case Double => '\"' case Paren => ')'
  }

  function ClosedOne(s: Sane, q: Quote): Sane {
    Added(if s.exclamation then Backspaced(s).(exclamation := false) else s, Closer(q))
  }

  /** Every open quote is closed, innermost first. */
  function Closed(s: Sane): Sane
    decreases |s.ql|
  {
    if s.ql == [] then s else Closed(ClosedOne(s.(ql := s.ql[1..]), s.ql[0]))
  }

  /** No trailing escape, and nothing left open. */
  function Finish(s: Sane): string {
    var t := if s.backslash then Backspaced(s).(backslash := false) else s;
    Closed(t).command
  }

  function Sanitized(input: string): string {
    Finish(Run(START, input))
  }

  class SaneCmd {
    var backslash: bool
    var exclamation: bool
    var dollar: bool
    var skipWord: bool
    var ql: seq<Quote>
    var command: string

    function Value(): Sane
      reads this
    {
      Sane(backslash, exclamation, dollar, skipWord, ql, command)
    }

    constructor ()
      ensures Value() == START
    {
      backslash, exclamation, dollar, skipWord, ql, command := false, false, false, false, [], "";
    }

    method AddChar(c: char)
      modifies this`command
      ensures Value() == Added(old(Value()), c)
    {
      command := command + [c];
    }

    method Backspace()
      modifies this`command
      ensures Value() == Backspaced(old(Value()))
    {
      if command != "" {
        command := command[..|command| - 1];
      }
    }

    /** It looks at the terminator of the string, which is never a blank: the whole
        command goes, not its last word. */
    method DeleteCurrentWord()
      modifies this`command
      ensures Value() == old(Value()).(command := "")
    {
      while command != ""
        decreases |command|
        invariant Value() == old(Value()).(command := command)
      {
        Backspace();
      }
    }

    method Push(q: Quote)
      modifies this`ql
      ensures Value() == old(Value()).(ql := [q] + old(ql))
    {
      ql := [q] + ql;
    }

    method Pop() returns (q: Option<Quote>)
      modifies this`ql
      ensures old(ql) == [] ==> q == None && Value() == old(Value())
      ensures old(ql) != [] ==> q == Some(old(ql)[0]) && Value() == old(Value()).(ql := old(ql)[1..])
    {
      if ql == [] {
        return None;
      }
      q := Some(ql[0]);
      ql := ql[1..];
    }

    method TakeQuote(c: char)
      requires c == '\'' || c == '\"'
      modifies this
      ensures (Value(), true) == Take(old(Value()), c)
    {
      var mine, other := if c == '\'' then Single else Double, if c == '\'' then Double else Single;
      if In(ql, mine) {
        var _ := Pop();
      } else if In(ql, other) {
      } else if backslash {
        backslash := false;
      } else {
        Push(mine);
      }
      AddChar(c);
    }

    method TakeParen(c: char) returns (more: bool)
      requires c == '(' || c == ')'
      modifies this
      ensures (Value(), more) == Take(old(Value()), c)
    {
      more := true;
      if In(ql, Single) {
        AddChar(c);
      } else if c == ')' && In(ql, Double) {
        AddChar(c);
      } else if backslash {
        backslash := false;
        AddChar(c);
      } else if c == ')' {
        if In(ql, Paren) {
          var _ := Pop();
          AddChar(c);
        }
      } else if exclamation {
        exclamation := false;
        if In(ql, Double) {
          Backspace();
          more := false;
        } else {
          Push(Paren);
          AddChar(c);
        }
      } else if In(ql, Double) {
        AddChar(c);
      } else if LastIn(Value(), {'?', '*', '+', '@'}) {
        Push(Paren);
        AddChar(c);
      } else {
        more := false;
      }
    }

    /** The switch of the source's loop. */
    method TakeChar(c: char) returns (more: bool)
      modifies this
      ensures (Value(), more) == Take(old(Value()), c)
    {
      more := true;
      if c == '\'' || c == '\"' {
        TakeQuote(c);
      } else if c == '(' || c == ')' {
        more := TakeParen(c);
      } else if c == '\\' {
        if !Quoted(ql) {
          backslash := !backslash;
        }
        AddChar(c);
      } else if c == '$' || c == '!' {
        if c == '!' && In(ql, Paren) {
          return;
        }
        if In(ql, Single) {
        } else if backslash {
          backslash := false;
        } else if c == '$' {
          dollar := true;
        } else {
          exclamation := true;
        }
        AddChar(c);
      } else if IsBlank(c) {
        if exclamation {
          exclamation := false;
        } else if backslash {
          backslash := false;
        } else {
          skipWord := false;
        }
        AddChar(c);
      } else if c == '`' || IsFinisher(c) {
        if In(ql, Single) || (c != '`' && ql != []) {
          AddChar(c);
        } else if backslash {
          backslash := false;
          AddChar(c);
        } else {
          if c == '<' || c == '>' {
            DeleteCurrentWord();
          }
          more := false;
        }
      } else if c != CR && c != LF {
        backslash := false;
        AddChar(c);
      }
    }

    method StepChar(c: char) returns (more: bool)
      modifies this
      ensures (Value(), more) == Step(old(Value()), c)
    {
      if exclamation {
        if c != '(' && !IsBlank(c) && c != LF {
          skipWord := true;
          exclamation := false;
          Backspace();
          return true;
        }
      } else if dollar {
        dollar := false;
        if !IsBlank(c) && c != LF {
          Backspace();
          return false;
        }
      }
      if skipWord {
        if !IsBlank(c) {
          return true;
        }
        skipWord := false;
      }
      more := TakeChar(c);
    }

    /** One closing quote, a `!` before it dropped. */
    method CloseOne(q: Quote)
      modifies this`command, this`exclamation
      ensures Value() == ClosedOne(old(Value()), q)
    {
      if exclamation {
        Backspace();
        exclamation := false;
      }
      AddChar(Closer(q));
    }

    method Close()
      modifies this
      ensures command == Finish(old(Value()))
    {
      hide ClosedOne, Backspaced;
      if backslash {
        Backspace();
        backslash := false;
      }
      ghost var was := Value();
      while ql != []
        invariant Closed(was) == Closed(Value())
        decreases |ql|
      {
        ghost var s := Value();
        var q := Pop();
        CloseOne(q.value);
        assert Closed(s) == Closed(Value());
      }
    }
  }

  method SanitizeLine(input: string) returns (r: string)
    ensures r == Sanitized(input)
  {
    var s := new SaneCmd();
    var i, more := 0, true;
    while i < |input| && more
      invariant 0 <= i <= |input|
      invariant Run(START, input) == if more then Run(s.Value(), input[i..]) else s.Value()
    {
      more := s.StepChar(input[i]);
      i := i + 1;
    }
    s.Close();
    r := s.command;
  }

  // ----- reading the output back -----

  /** The sanitiser's own quoting, read off its output: the open quotes and groups, a
      pending escape, and whether something ever stood bare that should not have. */
  datatype Lex = Lex(stack: seq<Quote>, esc: bool, bad: bool)

  function LexStep(l: Lex, c: char): Lex {
    if l.esc then l.(esc := false)
    else if In(l.stack, Single) then if c == '\'' then l.(stack := l.stack[1..]) else l
    else if c == '`' then l.(bad := true)
    else if In(l.stack, Double) then if c == '\"' then l.(stack := l.stack[1..]) else l
    else if c == '\\' then l.(esc := true)
    else if c == '\'' then l.(stack := [Single] + l.stack)
    else if c == '\"' then l.(stack := [Double] + l.stack)
    else if c == '(' then l.(stack := [Paren] + l.stack)
    else if c == ')' then if In(l.stack, Paren) then l.(stack := l.stack[1..]) else l
    else if IsFinisher(c) && l.stack == [] then l.(bad := true)
    else l
  }

  function LexOf(w: string): Lex {
    if w == "" then Lex([], false, false) else LexStep(LexOf(w[..|w| - 1]), w[|w| - 1])
  }

  lemma LexAppend(w: string, c: char)
    ensures LexOf(w + [c]) == LexStep(LexOf(w), c)
  {
    assert (w + [c])[..|w|] == w;
  }

  /** Closed text: every quote and group closed, no escape pending, no bare finisher
      outside groups, no bare backtick outside single quotes. */
  predicate Balanced(w: string) {
    LexOf(w) == Lex([], false, false)
  }

  /** A backslash is pending inside a group and a command finisher comes: it is added, but
      the backslash stays pending. */
  predicate Slip(s: Sane, c: char) {
    s.backslash && In(s.ql, Paren) && IsFinisher(c)
  }

  predicate Slips(s: Sane, input: string)
    decreases |input|
  {
    input != "" &&
    (Slip(s, input[0]) || (Step(s, input[0]).1 && Slips(Step(s, input[0]).0, input[1..])))
  }

  /** A flag is up because of the last character, which means nothing to the lexer. */
  ghost predicate LastIs(s: Sane, c: char, before: Lex) {
    s.command != "" && s.command[|s.command| - 1] == c && LexOf(s.command[..|s.command| - 1]) == before
  }

  ghost predicate Inv(s: Sane) {
    && LexOf(s.command) == Lex(s.ql, s.backslash, false)
    && (forall i :: 1 <= i < |s.ql| ==> s.ql[i] == Paren)
    && (s.backslash ==> !Quoted(s.ql) && !s.exclamation && !s.dollar && !s.skipWord
                        && LastIs(s, '\\', Lex(s.ql, false, false)))
    && (s.exclamation ==> !In(s.ql, Single) && !In(s.ql, Paren) && !s.dollar && !s.skipWord
                          && LastIs(s, '!', Lex(s.ql, false, false)))
    && (s.dollar ==> !In(s.ql, Single) && !s.skipWord && LastIs(s, '$', Lex(s.ql, false, false)))
  }

  /** Adding a character keeps the invariant when the lexer moves as the stack does, and a
      flag goes up only for the character that raises it. */
  lemma AddKeeps(s: Sane, t: Sane, c: char)
    requires Inv(s) && t.command == s.command + [c] && !t.skipWord
    requires LexStep(Lex(s.ql, s.backslash, false), c) == Lex(t.ql, t.backslash, false)
    requires forall i :: 1 <= i < |t.ql| ==> t.ql[i] == Paren
    requires t.backslash ==> c == '\\' && t.ql == s.ql && !Quoted(s.ql) && !s.backslash && !t.exclamation && !t.dollar
    requires t.exclamation ==> c == '!' && t.ql == s.ql && !In(s.ql, Single) && !In(s.ql, Paren) && !s.backslash && !t.dollar
    requires t.dollar ==> c == '$' && t.ql == s.ql && !In(s.ql, Single) && !s.backslash
    ensures Inv(t)
  {
    LexAppend(s.command, c);
    assert t.command[..|t.command| - 1] == s.command;
    hide LexOf;
  }

  lemma TakeQuoteKeeps(s: Sane, c: char)
    requires Inv(s) && !s.skipWord && !s.dollar && !s.exclamation && (c == '\'' || c == '\"')
    ensures Inv(Take(s, c).0)
  {
    hide LexOf;
    AddKeeps(s, Take(s, c).0, c);
  }

  lemma TakeParenKeeps(s: Sane, c: char)
    requires Inv(s) && !s.skipWord && !s.dollar && (s.exclamation ==> c == '(') && (c == '(' || c == ')')
    ensures Inv(Take(s, c).0)
  {
    hide LexOf;
    var t := Take(s, c).0;
    if t.command == s.command + [c] {
      AddKeeps(s, t, c);
    }
  }

  lemma TakeMarkKeeps(s: Sane, c: char)
    requires Inv(s) && !s.skipWord && !s.dollar && !s.exclamation && c in {'\\', '$', '!'}
    ensures Inv(Take(s, c).0)
  {
    hide LexOf;
    if c != '!' || !In(s.ql, Paren) {
      AddKeeps(s, Take(s, c).0, c);
    }
  }

  lemma TakeFinisherKeeps(s: Sane, c: char)
    requires Inv(s) && !s.skipWord && !s.dollar && !s.exclamation && !Slip(s, c) && (IsFinisher(c) || c == '`')
    ensures Inv(Take(s, c).0)
  {
    var t := Take(s, c).0;
    assert LexOf("") == Lex([], false, false);
    hide LexOf;
    if t.command == s.command + [c] {
      AddKeeps(s, t, c);
    }
  }

  lemma TakeOtherKeeps(s: Sane, c: char)
    requires Inv(s) && !s.skipWord && !s.dollar && (s.exclamation ==> IsBlank(c) || c == LF)
    requires c !in {'\'', '\"', '(', ')', '\\', '$', '!', '`'} && !IsFinisher(c)
    ensures Inv(Take(s, c).0)
  {
    hide LexOf;
    if c != CR && c != LF {
      AddKeeps(s, Take(s, c).0, c);
    }
  }

  lemma TakeKeeps(s: Sane, c: char)
    requires Inv(s) && !Slip(s, c) && !s.skipWord && !s.dollar
    requires s.exclamation ==> c == '(' || IsBlank(c) || c == LF
    ensures Inv(Take(s, c).0)
  {
    hide Inv, Take;
    if c == '\'' || c == '\"' { TakeQuoteKeeps(s, c); }
    else if c == '(' || c == ')' { TakeParenKeeps(s, c); }
    else if c in {'\\', '$', '!'} { TakeMarkKeeps(s, c); }
    else if IsFinisher(c) || c == '`' { TakeFinisherKeeps(s, c); }
    else { TakeOtherKeeps(s, c); }
  }

  lemma StepKeeps(s: Sane, c: char)
    requires Inv(s) && !Slip(s, c)
    ensures Inv(Step(s, c).0)
  {
    hide Take, LexOf;
    var t := if s.exclamation then s else s.(dollar := false);
    if !(t.skipWord && !IsBlank(c)) && !(s.exclamation && c != '(' && !IsBlank(c) && c != LF) {
      TakeKeeps(t.(skipWord := false), c);
    }
  }

  lemma {:induction false} RunKeeps(s: Sane, input: string)
    requires Inv(s) && !Slips(s, input)
    ensures Inv(Run(s, input))
    decreases |input|
  {
    hide Inv, Step, Slip;
    if input != "" {
      StepKeeps(s, input[0]);
      if Step(s, input[0]).1 {
        RunKeeps(Step(s, input[0]).0, input[1..]);
      }
    }
  }

  // ----- the output is closed -----

  lemma CloseOneKeeps(s: Sane)
    requires Inv(s) && !s.backslash && s.ql != []
    ensures var t := ClosedOne(s.(ql := s.ql[1..]), s.ql[0]);
            && t.ql == s.ql[1..] && !t.backslash && !t.exclamation
            && LexOf(t.command) == Lex(t.ql, false, false)
  {
    var u := if s.exclamation then Backspaced(s).(exclamation := false) else s;
    assert LexOf(u.command) == Lex(s.ql, false, false);
    hide LexOf;
    LexAppend(u.command, Closer(s.ql[0]));
  }

  lemma {:induction false} ClosersBalance(s: Sane)
    requires LexOf(s.command) == Lex(s.ql, false, false) && !s.exclamation
    ensures Balanced(Closed(s).command)
    decreases |s.ql|
  {
    hide LexOf;
    if s.ql != [] {
      var t := ClosedOne(s.(ql := s.ql[1..]), s.ql[0]);
      LexAppend(s.command, Closer(s.ql[0]));
      ClosersBalance(t);
    }
  }

  lemma FinishBalances(s: Sane)
    requires Inv(s)
    ensures Balanced(Finish(s))
  {
    hide LexOf;
    var t := if s.backslash then Backspaced(s).(backslash := false) else s;
    if t.ql != [] {
      if s.backslash {
        ClosersBalance(t);
      } else {
        CloseOneKeeps(t);
        ClosersBalance(ClosedOne(t.(ql := t.ql[1..]), t.ql[0]));
      }
    }
  }

  lemma StartKeeps()
    ensures Inv(START)
  {
  }

  /** Without a slip the output is closed text. */
  lemma OutputBalanced(input: string)
    requires !Slips(START, input)
    ensures Balanced(Sanitized(input))
  {
    hide Inv, Slips, Balanced, Finish, Run;
    StartKeeps();
    RunKeeps(START, input);
    FinishBalances(Run(START, input));
  }

  // ----- a slip shows at once -----

  function Parens(n: nat): seq<Quote> {
    seq(n, _ => Paren)
  }

  lemma {:induction false} ClosersFallShort(s: Sane, depth: nat)
    requires s.ql == Parens(|s.ql|) && !s.exclamation
    requires LexOf(s.command) == Lex(Parens(depth), false, false) && depth > |s.ql|
    ensures LexOf(Closed(s).command).stack == Parens(depth - |s.ql|)
    decreases |s.ql|
  {
    hide LexOf;
    if s.ql != [] {
      var t := ClosedOne(s.(ql := s.ql[1..]), s.ql[0]);
      LexAppend(s.command, ')');
      assert Parens(depth)[1..] == Parens(depth - 1) && s.ql[1..] == Parens(|s.ql| - 1);
      ClosersFallShort(t, depth - 1);
    }
  }

  /** A command line ending in a slip comes out with a group left open: the finisher goes
      in place of the backslash, which then escapes the closing parenthesis. */
  lemma SlipUnbalances(s: Sane, c: char)
    requires Inv(s) && Slip(s, c)
    ensures !Balanced(Finish(Step(s, c).0))
  {
    var n := |s.ql|;
    assert s.ql == Parens(n);
    var t := s.(backslash := false);
    assert (s.command + [c])[..|s.command|] == s.command;
    assert Step(s, c).0 == Added(s, c);
    assert Finish(Step(s, c).0) == Closed(t).command;
    var u := ClosedOne(t.(ql := t.ql[1..]), Paren);
    hide LexOf;
    LexAppend(s.command, ')');
    assert s.ql[1..] == Parens(n - 1);
    ClosersFallShort(u, n);
    assert LexOf(Closed(u).command).stack == Parens(1);
  }

  /** The state after a prefix that neither slips nor stops the loop. */
  lemma {:induction false} SlipsAt(s: Sane, input: string) returns (k: nat)
    requires Inv(s) && Slips(s, input)
    ensures k < |input| && !Balanced(Finish(Run(s, input[..k + 1])))
    decreases |input|
  {
    hide Inv, Balanced, Finish, Slip, Step;
    var c := input[0];
    if Slip(s, c) {
      k := 0;
      SlipUnbalances(s, c);
      assert input[..1][1..] == "" && input[..1][0] == c;
    } else {
      StepKeeps(s, c);
      k := SlipsAt(Step(s, c).0, input[1..]);
      assert input[..k + 2][1..] == input[1..][..k + 1] && input[..k + 2][0] == c;
      k := k + 1;
    }
  }

  lemma {:induction false} PrefixSlips(s: Sane, input: string, k: nat)
    requires k <= |input| && Slips(s, input[..k])
    ensures Slips(s, input)
    decreases |input|
  {
    hide Slip, Step;
    if !Slip(s, input[0]) {
      assert input[..k][1..] == input[1..][..k - 1];
      PrefixSlips(Step(s, input[0]).0, input[1..], k - 1);
    }
  }

  /** The sanitiser keeps its promise at every moment while a line is typed exactly when
      the line never slips: no `; & | < >` comes right after a live backslash inside a
      pattern group. */
  lemma BalancedIffNoSlip(input: string)
    ensures (forall k :: 0 <= k <= |input| ==> Balanced(Sanitized(input[..k]))) <==> !Slips(START, input)
  {
    hide Inv, Balanced, Finish, Slips, Run, Sanitized;
    StartKeeps();
    if Slips(START, input) {
      var k := SlipsAt(START, input);
      SanitizedIs(input[..k + 1]);
    } else {
      forall k | 0 <= k <= |input| ensures Balanced(Sanitized(input[..k])) {
        if Slips(START, input[..k]) { PrefixSlips(START, input, k); }
        OutputBalanced(input[..k]);
      }
    }
  }

  lemma SanitizedIs(input: string)
    ensures Sanitized(input) == Finish(Run(START, input))
  {
  }

  /** One character of what it is for a line to slip. */
  lemma SlipsCons(s: Sane, c: char, rest: string)
    ensures Slips(s, [c] + rest) <==> Slip(s, c) || (Step(s, c).1 && Slips(Step(s, c).0, rest))
  {
    assert ([c] + rest)[1..] == rest;
  }

  /** Where the example line leads, one character after the other. */
  function ExampleState(k: nat): Sane
    requires k <= 5
  {
    if k == 0 then START
    else if k == 1 then START.(command := ['?'])
    else if k == 2 then START.(command := ['?', '('], ql := [Paren])
    else if k == 3 then START.(command := ['?', '(', '\\'], ql := [Paren], backslash := true)
    else if k == 4 then START.(command := ['?', '(', '\\', ';'], ql := [Paren], backslash := true)
    else START.(command := ['?', '(', '\\', ';', 'x'], ql := [Paren])
  }

  lemma ExampleSteps()
    ensures Step(ExampleState(0), '?') == (ExampleState(1), true)
    ensures Step(ExampleState(1), '(') == (ExampleState(2), true)
    ensures Step(ExampleState(2), '\\') == (ExampleState(3), true)
    ensures Slip(ExampleState(3), ';')
  {
    assert [] + ['?'] == ['?'] && ['?'] + ['('] == ['?', '('] && ['?', '('] + ['\\'] == ['?', '(', '\\'];
    assert [Paren] + [] == [Paren];
  }

  lemma SlipSteps()
    ensures Slips(START, ['?', '(', '\\', ';'])
  {
    hide Slips, Step, Slip;
    ExampleSteps();
    SlipsCons(ExampleState(3), ';', []);
    SlipsCons(ExampleState(2), '\\', [';']);
    SlipsCons(ExampleState(1), '(', ['\\', ';']);
    SlipsCons(START, '?', ['(', '\\', ';']);
    assert ['?'] + ['(', '\\', ';'] == ['?', '(', '\\', ';'] && ['('] + ['\\', ';'] == ['(', '\\', ';'];
    assert ['\\'] + [';'] == ['\\', ';'] && [';'] + [] == [';'];
  }

  /** A line with a slip: a group, a backslash in it, a semicolon. */
  lemma SlipExample()
    ensures Slips(START, ['?', '(', '\\', ';'])
    ensures exists k :: 0 <= k <= 4 && !Balanced(Sanitized(['?', '(', '\\', ';'][..k]))
  {
    hide LexOf, Run, Finish, Balanced, Sanitized, Slips;
    SlipSteps();
    BalancedIffNoSlip(['?', '(', '\\', ';']);
  }

  lemma HealSteps()
    ensures Step(ExampleState(3), ';') == (ExampleState(4), true)
    ensures Step(ExampleState(4), 'x') == (ExampleState(5), true)
  {
    assert ['?', '(', '\\'] + [';'] == ['?', '(', '\\', ';'] && ['?', '(', '\\', ';'] + ['x'] == ['?', '(', '\\', ';', 'x'];
  }

  lemma RunCons(s: Sane, c: char, rest: string)
    ensures Run(s, [c] + rest) == if Step(s, c).1 then Run(Step(s, c).0, rest) else Step(s, c).0
  {
    hide Step;
    assert ([c] + rest)[1..] == rest;
  }

  lemma HealedRun()
    ensures Run(START, ['?', '(', '\\', ';', 'x']) == ExampleState(5)
    ensures Slips(START, ['?', '(', '\\', ';', 'x'])
  {
    hide Run, Step, Slips, Slip;
    ExampleSteps();
    HealSteps();
    RunCons(ExampleState(4), 'x', []);
    RunCons(ExampleState(3), ';', ['x']);
    RunCons(ExampleState(2), '\\', [';', 'x']);
    RunCons(ExampleState(1), '(', ['\\', ';', 'x']);
    RunCons(START, '?', ['(', '\\', ';', 'x']);
    SlipsCons(ExampleState(3), ';', ['x']);
    SlipsCons(ExampleState(2), '\\', [';', 'x']);
    SlipsCons(ExampleState(1), '(', ['\\', ';', 'x']);
    SlipsCons(START, '?', ['(', '\\', ';', 'x']);
    RunEnds(ExampleState(5));
    assert ['?'] + ['(', '\\', ';', 'x'] == ['?', '(', '\\', ';', 'x'] && ['('] + ['\\', ';', 'x'] == ['(', '\\', ';', 'x'];
    assert ['\\'] + [';', 'x'] == ['\\', ';', 'x'] && [';'] + ['x'] == [';', 'x'] && ['x'] + [] == ['x'];
  }

  lemma RunEnds(s: Sane)
    ensures Run(s, []) == s
  {
  }

  lemma HealedFinish()
    ensures Finish(ExampleState(5)) == ['?', '(', '\\', ';', 'x', ')']
  {
    var s := ExampleState(5);
    assert s.ql[1..] == [];
    assert ['?', '(', '\\', ';', 'x'] + [')'] == ['?', '(', '\\', ';', 'x', ')'];
    assert Closed(s) == Closed(ClosedOne(s.(ql := []), Paren)) == ClosedOne(s.(ql := []), Paren);
  }

  lemma HealedLex()
    ensures Balanced(['?', '(', '\\', ';', 'x', ')'])
  {
    hide LexOf;
    var w := ['?', '(', '\\', ';', 'x', ')'];
    LexAppend([], '?');
    LexAppend(['?'], '(');
    LexAppend(['?', '('], '\\');
    LexAppend(['?', '(', '\\'], ';');
    LexAppend(['?', '(', '\\', ';'], 'x');
    LexAppend(['?', '(', '\\', ';', 'x'], ')');
    LexNothing();
    assert [] + ['?'] == ['?'] && ['?'] + ['('] == ['?', '('] && ['?', '('] + ['\\'] == ['?', '(', '\\'];
    assert ['?', '(', '\\'] + [';'] == ['?', '(', '\\', ';'] && ['?', '(', '\\', ';'] + ['x'] == ['?', '(', '\\', ';', 'x'];
    assert ['?', '(', '\\', ';', 'x'] + [')'] == w && [Paren][1..] == [];
  }

  lemma LexNothing()
    ensures LexOf([]) == Lex([], false, false)
  {
  }

  /** A line may slip and still come out balanced, when what follows makes up for it: only
      over all beginnings of a line does balance tell that it never slips. */
  lemma SlipHealed()
    ensures var line := ['?', '(', '\\', ';', 'x'];
            Slips(START, line) && Sanitized(line) == ['?', '(', '\\', ';', 'x', ')'] && Balanced(Sanitized(line))
  {
    hide LexOf, Run, Finish, Balanced, Slips, Step;
    HealedRun();
    HealedFinish();
    HealedLex();
  }
}
