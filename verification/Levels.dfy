/** What a scan makes of whole stretches of a shell's output: text typed at a prompt, a
    command run, a prompt begun, a right prompt passed over.  All is said of the bytes
    scanned and of the state they leave. */
module Levels {
  import opened Bytes
  import opened Patterns
  import opened CmdLines
  import opened Connections
  import opened Sequences
  import opened Scanning
  import opened ShellMachine
  import opened PromptWords
  import opened ShellRuns
  import opened Announcements

  // ----- away from the prompt -----

  predicate AwayFromPrompt(id: SeqId) {
    id in {Ps1Separator, NewPwd, RpromptEnd, ZshCompletionDone}
  }

  lemma AwayGroup(sh: Shell, pl: Level)
    requires pl != AtPrompt
    ensures forall id :: id in Group(sh, pl) ==> AwayFromPrompt(id)
  {
  }

  lemma AwayFront(id: SeqId)
    requires AwayFromPrompt(id)
    ensures Pattern(id) != "" && Pattern(id)[0] == ESC
  {
  }

  /** Away from the prompt every sequence starts with an escape. */
  lemma AwayEscapes(id: SeqId, w: string)
    requires AwayFromPrompt(id) && w != "" && w[0] != ESC
    ensures !Word(Pattern(id), w) && !Opens(Pattern(id), w)
  {
    hide Pattern, Word;
    AwayFront(id);
    var p := Pattern(id);
    assert p == [ESC] + p[1..];
    WordCons(ESC, p[1..], w);
    forall v: string ensures !Word(p, w + v) {
      WordCons(ESC, p[1..], w + v);
    }
  }

  lemma AwayDrops(sh: Shell, s: Live, c: char)
    requires s.pl != AtPrompt && c != ESC
    ensures React(sh, s, [c]) == Drop(Trim(s))
  {
    hide Group, Pattern, Fires, Word, Opens, React, Trimmed;
    AwayGroup(sh, s.pl);
    var g := Group(sh, s.pl);
    forall id | id in g ensures !Word(Pattern(id), [c]) && !Opens(Pattern(id), [c]) {
      AwayEscapes(id, [c]);
    }
    ReactCases(sh, s, [c]);
  }

  /** Output without an escape passes by: only the line is trimmed. */
  lemma {:induction false} PassesBy(sh: Shell, s: Live, u: string, rest: string) returns (ps: seq<Piece>)
    requires s.pl != AtPrompt && ESC !in u
    ensures KeptOf(ps) == u
    ensures Scan<Live>(Shellwise(sh), s, "", u + rest)
            == Before(ps, Scan<Live>(Shellwise(sh), if u == "" then s else Trim(s), "", rest))
    decreases |u|
  {
    hide React, KeptOf, Before, Then, Scan, Shellwise, Trimmed;
    var m := Shellwise(sh);
    if u == "" {
      assert u + rest == rest;
      BeforeNothing(Scan<Live>(m, s, "", rest));
      ps := [];
    } else {
      var c := u[0];
      assert (u + rest)[1..] == u[1..] + rest && (u + rest)[0] == c && "" + [c] == [c];
      AwayDrops(sh, s, c);
      ScanOne<Live>(m, s, "", u + rest, Drop(Trim(s)));
      assert [c][1..] + (u + rest)[1..] == u[1..] + rest;
      ps := PassesBy(sh, Trim(s), u[1..], rest);
      TrimTwice(s);
      BeforeOne(c, ps, Scan<Live>(m, Trim(s), "", rest));
      assert u == [c] + u[1..];
      ps := [Kept([c])] + ps;
    }
  }

  // ----- a command is run -----

  lemma NewlineWord(id: SeqId)
    requires AtThePrompt(id)
    ensures Word(Pattern(id), "\r\n") <==> id == Newline
    ensures !Word(Pattern(id), "\r")
  {
    WordIs(id, "\r\n");
    WordIs(id, "\r");
    Ps1Parts();
    RpromptParts();
  }

  lemma HasNewline(sh: Shell)
    ensures Newline in Group(sh, AtPrompt)
  {
  }

  lemma NewlineFires(sh: Shell)
    ensures var g := Group(sh, AtPrompt);
            Fires(g, "\r\n") == Some(Newline) && Fires(g, "\r") == None && Alive(g, "\r")
  {
    hide Group, Pattern, Word;
    HasNewline(sh);
    PromptGroup(sh);
    var g := Group(sh, AtPrompt);
    forall id | id in g ensures (Word(Pattern(id), "\r\n") <==> id == Newline) && !Word(Pattern(id), "\r") {
      NewlineWord(id);
    }
    assert "\r" + "\n" == "\r\n";
    assert Opens(Pattern(Newline), "\r");
  }

  lemma TrimmedAtEnd(c: Cmd)
    requires Ok(c) && CR !in c.data[c.pos..]
    ensures Trimmed(c) == c && CrRight(c) == -1
  {
    assert forall i :: c.pos <= i < |c.data| ==> c.data[i] == c.data[c.pos..][i - c.pos];
  }

  /** Enter runs the command: a newline that leaves the line while one is awaited, and then
      whatever the command prints, changes nothing on the line. */
  lemma EnterRuns(sh: Shell, s: Live, u: string)
    requires s.pl == AtPrompt && s.cmd.expectNewline && CR !in s.cmd.data[s.cmd.pos..] && ESC !in u
    ensures var r := Scan<Live>(Shellwise(sh), s, "", "\r\n" + u);
            r.state == Core(Executing, SsExecuting, s.cmd) && r.open == "" && KeptOf(r.pieces) == "\r\n" + u
  {
    hide Group, Fires, Alive, Scan, Shellwise, Trimmed, KeptOf, Word, Pattern, CrRight;
    var inp, t := "\r\n" + u, Core(Executing, SsExecuting, s.cmd);
    assert inp[..2] == "\r\n" && inp[..1] == "\r" && inp[2..] == u;
    NewlineFires(sh);
    TrimmedAtEnd(s.cmd);
    SegmentNext(sh, s, inp, 2);
    assert Completed(sh, Newline, Trim(s), "\r\n") == t;
    var ps := PassesBy(sh, t, u, "");
    assert u + "" == u;
    ScanNothing(sh, t);
    var q := Scan<Live>(Shellwise(sh), t, "", u);
    FirstKept("\r\n", q);
    assert ps + [] == ps;
  }

  lemma FirstKept(w: string, q: Scanned<Live>)
    ensures KeptOf(Then(Kept(w), q).pieces) == w + KeptOf(q.pieces)
  {
    assert ([Kept(w)] + q.pieces)[1..] == q.pieces;
  }

  // ----- only a separator starts a prompt -----

  /** The text holds a whole prompt separator. */
  ghost predicate HoldsSeparator(text: string) {
    exists i, j :: 0 <= i <= j <= |text| && (Word(Pattern(Ps1Separator), text[i..j]) || Word(Pattern(RpromptEnd), text[i..j]))
  }

  lemma HoldsLater(text: string, k: nat)
    requires k <= |text| && HoldsSeparator(text[k..])
    ensures HoldsSeparator(text)
  {
    hide Pattern, Word;
    var rest := text[k..];
    var i, j :| 0 <= i <= j <= |rest| && (Word(Pattern(Ps1Separator), rest[i..j]) || Word(Pattern(RpromptEnd), rest[i..j]));
    assert rest[i..j] == text[k + i..k + j];
  }

  lemma HoldsFirst(text: string, n: nat)
    requires n <= |text| && (Word(Pattern(Ps1Separator), text[..n]) || Word(Pattern(RpromptEnd), text[..n]))
    ensures HoldsSeparator(text)
  {
    hide Pattern, Word;
    assert text[0..n] == text[..n];
  }

  lemma AwayStays(sh: Shell, s: Live, id: SeqId, w: string)
    requires s.pl != AtPrompt && AwayFromPrompt(id) && w != "" && (id == NewPwd ==> |w| >= 2)
    ensures id == NewPwd || id == ZshCompletionDone ==> Completed(sh, id, s, w).pl == s.pl
  {
  }

  lemma AwayReacts(sh: Shell, s: Live, w: string)
    requires s.pl != AtPrompt && w != ""
    ensures var k := React(sh, s, w);
            k.next.pl != s.pl ==> k.Done? && (Word(Pattern(Ps1Separator), w) || Word(Pattern(RpromptEnd), w))
  {
    hide Group, Pattern, Fires, Alive, Word, Opens, React, Trimmed, Handle, Completed;
    AwayGroup(sh, s.pl);
    ReactCases(sh, s, w);
    if Fires(Group(sh, s.pl), w).Some? {
      AwayStays(sh, Trim(s), Fires(Group(sh, s.pl), w).value, w);
    }
  }

  /** A scan that comes to the prompt from another level has read a prompt separator. */
  lemma {:induction false} PromptNeedsSeparator(sh: Shell, s: Live, seg: string, inp: string)
    requires s.pl != AtPrompt
    ensures Scan<Live>(Shellwise(sh), s, seg, inp).state.pl == AtPrompt ==> HoldsSeparator(seg + inp)
    decreases |seg| + |inp|, |inp|
  {
    hide React, HoldsSeparator, Pattern, Word;
    if inp != "" {
      var m, w, text := Shellwise(sh), seg + [inp[0]], seg + inp;
      assert text == w + inp[1..] && text[..|w|] == w && m(s, w) == React(sh, s, w);
      AwayReacts(sh, s, w);
      if m(s, w).next.pl != s.pl {
        HoldsFirst(text, |w|);
      } else {
        match m(s, w)
        case Done(t, k, eaten) =>
          assert "" + (w[k..] + inp[1..]) == text[k..];
          PromptNeedsSeparator(sh, t, "", w[k..] + inp[1..]);
          SeparatorLater(text, k);
        case Grow(t) =>
          PromptNeedsSeparator(sh, t, w, inp[1..]);
        case Drop(t) =>
          assert "" + (w[1..] + inp[1..]) == text[1..];
          PromptNeedsSeparator(sh, t, "", w[1..] + inp[1..]);
          SeparatorLater(text, 1);
      }
    }
  }

  lemma SeparatorLater(text: string, k: nat)
    requires k <= |text|
    ensures HoldsSeparator(text[k..]) ==> HoldsSeparator(text)
  {
    hide HoldsSeparator;
    if HoldsSeparator(text[k..]) {
      HoldsLater(text, k);
    }
  }

  // ----- a prompt begins -----

  lemma SeparatorUndecided(sh: Shell)
    ensures var p := Pattern(Ps1Separator); |p| == 22 && Undecided(Group(sh, Executing), p, 22)
    ensures Fires(Group(sh, Executing), Pattern(Ps1Separator)) == Some(Ps1Separator)
  {
    SeparatorBytes();
    ExecutingGroup(sh);
    hide Pattern, Group, Word, Fires, Alive;
    var g, p := Group(sh, Executing), Pattern(Ps1Separator);
    LiteralIs(p, p);
    FirstOfGroup(g, p);
    forall j | 0 < j < 22 && j <= |p| ensures Fires(g, p[..j]) == None && Alive(g, p[..j]) {
      forall id | id in g ensures !Word(Pattern(id), p[..j]) {
        PartOfSeparator(id, j);
      }
      assert p[..j] + p[j..] == p;
      SeparatorAlive(g, p[..j], p[j..]);
    }
  }

  /** A separator begins a prompt with an empty line, unless the line is being rebuilt: then
      it stays, and is rebuilt no longer. */
  lemma PromptBegins(sh: Shell, s: Live)
    requires s.pl == Executing
    ensures var p := Pattern(Ps1Separator); var r := Scan<Live>(Shellwise(sh), s, "", p);
            && r.state.pl == AtPrompt && r.state.ss == SsPrompt && r.open == "" && KeptOf(r.pieces) == p
            && r.state.cmd == if s.cmd.rebuilding then Trimmed(s.cmd).(rebuilding := false)
                              else s.cmd.(data := "", pos := 0)
  {
    SeparatorUndecided(sh);
    hide Pattern, Group, Word, Fires, Alive, Scan, Shellwise, Trimmed, KeptOf;
    var p := Pattern(Ps1Separator);
    assert p[..22] == p && p[22..] == "";
    SegmentNext(sh, s, p, 22);
    var t := Completed(sh, Ps1Separator, Trim(s), p);
    ScanNothing(sh, t);
    FirstKept(p, Scanned(t, "", []));
    BeforeNothing(Scanned(t, "", []));
    TrimKeeps(s.cmd);
  }

  lemma {:induction false} TrimKeeps(c: Cmd)
    requires Ok(c)
    ensures Trimmed(c) == c.(data := Trimmed(c).data) && Trimmed(c).data <= c.data
    decreases |c.data|
  {
    if Trimmed(c) != c {
      TrimKeeps(c.(data := c.data[..|c.data| - 1]));
    }
  }

  // ----- zsh's list of completions -----

  /** The first four bytes tell the end of a list from everything else zsh may send while a
      command runs. */
  lemma FourBytes(id: SeqId)
    requires id in Group(Zsh, Executing)
    ensures var p := Pattern(id); |p| >= 4 && Literal(p[..2]) && p[1] == (if id == NewPwd then 'P' else '[')
    ensures id != NewPwd ==> var p := Pattern(id); Literal(p[..4]) && (p[3] == 'm' <==> id == ZshCompletionDone)
  {
    assert id in {Ps1Separator, RpromptEnd, NewPwd, ZshCompletionDone};
    match id
    case Ps1Separator => Heads("\U{1B}[0;", Pattern(id));
    case RpromptEnd => Heads("\U{1B}[0;", Pattern(id));
    case ZshCompletionDone => Heads("\U{1B}[0m", Pattern(id));
    case NewPwd =>
  }

  lemma Heads(h: string, p: string)
    requires |h| == 4 && Literal(h) && |p| >= 4 && forall i :: 0 <= i < 4 ==> p[i] == h[i]
    ensures Literal(p[..2]) && Literal(p[..4])
  {
    assert p[..4] == h && p[..2] == h[..2];
  }

  lemma HeadsDiffer(p: string, q: string, m: nat, w: string, j: nat)
    requires 0 < m <= |p| && m <= |q| && Literal(p[..m]) && Literal(q[..m]) && p[m - 1] != q[m - 1]
    requires Word(p, w) && j <= |w|
    ensures !Word(q, w[..j])
  {
    hide Word, Literal;
    WordFront(p, w, m);
    WordFront(q, w[..j], m);
  }

  lemma OnlyListEnd(id: SeqId, w: string, j: nat)
    requires id in Group(Zsh, Executing) && id != ZshCompletionDone && Word(Pattern(ZshCompletionDone), w) && j <= |w|
    ensures !Word(Pattern(id), w[..j])
  {
    ListEndListed();
    FourBytes(id);
    FourBytes(ZshCompletionDone);
    hide Group, Pattern, Word, Literal;
    HeadsDiffer(Pattern(ZshCompletionDone), Pattern(id), if id == NewPwd then 2 else 4, w, j);
  }

  lemma ListEndListed()
    ensures ZshCompletionDone in Group(Zsh, Executing)
  {
  }

  lemma ListEndDecided(w: string, rest: string)
    requires Word(Pattern(ZshCompletionDone), w)
    ensures w != "" && var g := Group(Zsh, Executing);
            Fires(g, w) == Some(ZshCompletionDone) && Undecided(g, w + rest, |w|)
  {
    ListEndListed();
    hide Group, Pattern, Word, Fires;
    var g, p, inp := Group(Zsh, Executing), Pattern(ZshCompletionDone), w + rest;
    LongEnough(ZshCompletionDone, w);
    PatternsWellFormed(ZshCompletionDone);
    forall id, j | id in g && id != ZshCompletionDone && 0 < j <= |w| ensures !Word(Pattern(id), w[..j]) {
      OnlyListEnd(id, w, j);
    }
    assert w[..|w|] == w;
    forall j | 0 < j < |w| && j <= |inp| ensures Fires(g, inp[..j]) == None && Alive(g, inp[..j]) {
      assert inp[..j] == w[..j] && w[..j] + w[j..] == w;
      assert Opens(p, w[..j]);
      PrefixFree(p, w[..j]);
      assert !Word(p, w[..j]);
    }
  }

  lemma ListEndHandled(s: Live, w: string)
    requires w != ""
    ensures Completed(Zsh, ZshCompletionDone, s, w) == s.(cmd := s.cmd.(rebuilding := true))
    ensures var o := Handle(Zsh, ZshCompletionDone, s.cmd, w); o.taken == |w| && !o.eaten
  {
  }

  /** When zsh has ended a list of completions, the line is kept for the prompt to come. */
  lemma CompletionRebuilds(s: Live, w: string, rest: string)
    requires s.pl == Executing && Word(Pattern(ZshCompletionDone), w)
    ensures Scan<Live>(Shellwise(Zsh), s, "", w + rest)
            == Then(Kept(w), Scan<Live>(Shellwise(Zsh), s.(cmd := Trimmed(s.cmd).(rebuilding := true)), "", rest))
  {
    ListEndDecided(w, rest);
    hide Pattern, Group, Word, Fires, Alive, Scan, Shellwise, Trimmed, Undecided, Completed, Handle;
    var inp := w + rest;
    assert inp[..|w|] == w && inp[|w|..] == rest;
    SegmentNext(Zsh, s, inp, |w|);
    ListEndHandled(Trim(s), w);
  }

  // ----- text typed at a prompt -----

  /** Text with nothing in it that could be a sequence's first byte, but for spaces. */
  predicate Typeable(u: string) {
    ESC !in u && CR !in u && BS !in u && BEL !in u
  }

  /** The text put over what stands at the cursor. */
  function Covered(c: Cmd, u: string): Cmd
    requires Ok(c)
  {
    var n := c.pos + |u|;
    c.(data := c.data[..c.pos] + u + (if n < |c.data| then c.data[n..] else ""), pos := n)
  }

  lemma CoveredMore(c: Cmd, x: char, u: string)
    requires Ok(c)
    ensures Ok(Overwritten(c, x)) && Covered(Overwritten(c, x), u) == Covered(c, [x] + u)
    ensures CR !in c.data && x != CR ==> CR !in Overwritten(c, x).data
  {
    var d := Overwritten(c, x);
    assert d.data[..d.pos] == c.data[..c.pos] + [x];
    assert Covered(d, u).data == Covered(c, [x] + u).data;
  }

  lemma CoveredNothing(c: Cmd)
    requires Ok(c)
    ensures Covered(c, "") == c
  {
    assert c.data[..c.pos] + "" + c.data[c.pos..] == c.data;
  }

  lemma PromptFront(id: SeqId, w: string)
    requires AtThePrompt(id) && w != "" && Word(Pattern(id), w)
    ensures w[0] in {ESC, CR, BS, BEL, ' '} && (w[0] == ' ' ==> |w| >= 2 && w[1] == CR)
  {
    WordIs(id, w);
    if id == CmdWrapped {
      WrapBytes(w);
    }
  }

  /** At a prompt such text is no sequence and begins none, save that a space may begin a
      wrap. */
  lemma TypeableReacts(sh: Shell, s: Live, w: string)
    requires s.pl == AtPrompt && Typeable(w) && (|w| == 1 || (|w| == 2 && w[0] == ' '))
    ensures React(sh, s, w) == if w == " " then Grow(Trim(s)) else Drop(Typed(Trim(s), w[0]))
  {
    hide Group, Pattern, Word, React, Trimmed, Typed, Fires, Alive;
    PromptGroup(sh);
    var g := Group(sh, AtPrompt);
    NoneTypeable(g, w);
    if w == " " {
      SpaceOpens(sh);
    } else {
      assert |w| == 2 ==> w[1] in w;
      assert w[0] in w;
      DeadTypeable(g, w);
    }
    ReactCases(sh, s, w);
  }

  lemma NoneTypeable(g: seq<SeqId>, w: string)
    requires (forall id :: id in g ==> AtThePrompt(id)) && Typeable(w) && w != ""
    ensures Fires(g, w) == None
  {
    hide Pattern, Word;
    assert w[0] in w && (|w| >= 2 ==> w[1] in w);
    forall id | id in g ensures !Word(Pattern(id), w) {
      if Word(Pattern(id), w) {
        PromptFront(id, w);
      }
    }
  }

  lemma DeadTypeable(g: seq<SeqId>, w: string)
    requires (forall id :: id in g ==> AtThePrompt(id)) && Typeable(w) && w != "" && w != " "
    requires w[0] == ' ' ==> |w| == 2
    ensures !Alive(g, w)
  {
    hide Pattern, Word;
    forall id, v | id in g ensures !Word(Pattern(id), w + v) {
      NotBegun(id, w, v);
    }
  }

  lemma NotBegun(id: SeqId, w: string, v: string)
    requires AtThePrompt(id) && Typeable(w) && w != "" && w != " " && (w[0] == ' ' ==> |w| == 2)
    ensures !Word(Pattern(id), w + v)
  {
    hide Pattern, Word;
    assert w[0] in w && (|w| >= 2 ==> w[1] in w) && (w + v)[0] == w[0] && (|w| >= 2 ==> (w + v)[1] == w[1]);
    assert w[0] == ' ' && |w| == 1 ==> w == " ";
    if Word(Pattern(id), w + v) {
      PromptFront(id, w + v);
    }
  }

  lemma SpaceOpens(sh: Shell)
    ensures Alive(Group(sh, AtPrompt), " ")
  {
    var g := Group(sh, AtPrompt);
    assert g[2] == CmdWrapped;
    hide Group, Pattern, Word;
    assert " " + "\rx" == " \rx" && " \rx"[..2] == " \r";
    WordIs(CmdWrapped, " \rx");
    assert Opens(Pattern(CmdWrapped), " ");
  }

  lemma TrimmedPlain(c: Cmd)
    requires Ok(c) && CR !in c.data
    ensures Trimmed(c) == c
  {
    if c.data != "" {
      assert c.data[|c.data| - 1] in c.data;
    }
  }

  lemma {:induction false} TypedScan(sh: Shell, s: Live, seg: string, u: string)
    requires s.pl == AtPrompt && CR !in s.cmd.data && Typeable(u) && (seg == "" || seg == " ")
    ensures var r := Settled(Scan<Live>(Shellwise(sh), s, seg, u));
            r.open == "" && r.state == s.(cmd := Covered(s.cmd, seg + u))
    decreases |seg| + |u|, |u|
  {
    hide React, Trimmed, Covered, Typeable;
    TrimmedPlain(s.cmd);
    if u == "" {
      assert seg + u == seg;
      EndTyped(sh, s, seg);
    } else {
      var m, w, rest := Shellwise(sh), seg + [u[0]], u[1..];
      TypeableParts(seg, u);
      TypeableReacts(sh, s, w);
      assert m(s, w) == React(sh, s, w) && w + rest == seg + u;
      if w == " " {
        TypedScan(sh, s, w, rest);
      } else {
        CoveredMore(s.cmd, w[0], w[1..] + rest);
        assert [w[0]] + (w[1..] + rest) == seg + u && "" + (w[1..] + rest) == w[1..] + rest;
        TypedScan(sh, Typed(s, w[0]), "", w[1..] + rest);
        SettledThen(Kept([w[0]]), Scan<Live>(m, Typed(s, w[0]), "", w[1..] + rest));
      }
    }
  }

  lemma TypeableParts(seg: string, u: string)
    requires Typeable(u) && u != "" && (seg == "" || seg == " ")
    ensures var w := seg + [u[0]];
            Typeable(w) && Typeable(u[1..]) && Typeable(w[1..] + u[1..]) && w[0] != CR && (|w| == 1 || (|w| == 2 && w[0] == ' '))
  {
    assert u[0] in u;
  }

  lemma EndTyped(sh: Shell, s: Live, seg: string)
    requires s.pl == AtPrompt && (seg == "" || seg == " ")
    ensures var r := Settled(Scan<Live>(Shellwise(sh), s, seg, ""));
            r.open == "" && r.state == s.(cmd := Covered(s.cmd, seg))
  {
    if seg == "" {
      CoveredNothing(s.cmd);
    } else {
      CoveredMore(s.cmd, ' ', "");
      CoveredNothing(Overwritten(s.cmd, ' '));
      assert [' '] + "" == " ";
    }
  }

  lemma SettledThen(p: Piece, q: Scanned<Live>)
    ensures Settled(Then(p, q)).state == Settled(q).state && Settled(Then(p, q)).open == Settled(q).open
  {
  }

  /** What is typed at a prompt appears on the line, over what stood at the cursor, trailing
      space and all. */
  lemma TypingShows(sh: Shell, s: Session, u: string)
    requires s.core.pl == AtPrompt && s.open == "" && CR !in s.core.cmd.data && Typeable(u)
    ensures var t := Turn(sh, s, u);
            t.open == "" && t.core == s.core.(cmd := Covered(s.core.cmd, u))
  {
    TypedScan(sh, s.core, "", u);
    assert "" + u == u;
    hide Scan, Settled;
  }

  // ----- giving a line up -----

  lemma PromptWord(sh: Shell, id: SeqId, w: string)
    requires id in Group(sh, AtPrompt) && Word(Pattern(id), w) && w != ""
    requires forall q :: q in Group(sh, AtPrompt) && q != id ==> !Word(Pattern(q), w)
    ensures Fires(Group(sh, AtPrompt), w) == Some(id) && Undecided(Group(sh, AtPrompt), w, |w|)
  {
    hide Group, Pattern, Word, Fires;
    PatternsWellFormed(id);
    var g := Group(sh, AtPrompt);
    forall j | 0 < j < |w| && j <= |w| ensures Fires(g, w[..j]) == None && Alive(g, w[..j]) {
      assert w[..j] + w[j..] == w;
      assert Opens(Pattern(id), w[..j]) && Alive(g, w[..j]);
      NothingInside(sh, w[..j], 0, j);
      assert w[..j][0..j] == w[..j];
    }
  }

  lemma UndecidedMore(g: seq<SeqId>, w: string, rest: string)
    requires Undecided(g, w, |w|)
    ensures Undecided(g, w + rest, |w|)
  {
    hide Fires, Alive;
    assert forall j :: 0 < j < |w| ==> (w + rest)[..j] == w[..j];
  }

  /** Nothing else has the same word. */
  lemma OneOwner(id: SeqId, q: SeqId, w: string)
    requires AtThePrompt(id) && AtThePrompt(q) && Word(Pattern(id), w) && Word(Pattern(q), w)
    requires id in {Backspace, CarriageReturn, Ps1Separator, RpromptStart}
    ensures q == id
  {
    WordIs(id, w);
    WordIs(q, w);
    Ps1Parts();
    RpromptParts();
    hide Word;
    if id == Ps1Separator || id == RpromptStart {
      Settled22(id);
      if |w| == 22 && q != id && q != Ps1Separator && q != RpromptStart {
        NotSettings(q, w);
      }
    }
  }

  lemma Settled22(id: SeqId)
    requires id == Ps1Separator || id == RpromptStart
    ensures var p := Pattern(id); |p| == 22 && p[0] == ESC && p[1] == '[' && p[3] == ';' && p[5] == (if id == Ps1Separator then '0' else '4')
  {
  }

  lemma NotSettings(q: SeqId, w: string)
    requires AtThePrompt(q) && q != Ps1Separator && q != RpromptStart && |w| == 22 && w[0] == ESC && w[1] == '[' && w[3] == ';'
    ensures !IsWord(q, w)
  {
    assert w[2..|w| - 1][1] == w[3];
  }

  lemma PromptMembers(sh: Shell)
    ensures Backspace in Group(sh, AtPrompt) && CarriageReturn in Group(sh, AtPrompt)
    ensures sh == Zsh ==> RpromptStart in Group(sh, AtPrompt)
  {
  }

  /** Going back from the first column loses the line: it is emptied, and scanning goes on
      away from the prompt. */
  lemma BackTooFar(sh: Shell, s: Live, u: string)
    requires s.pl == AtPrompt && s.cmd.pos == 0
    ensures Scan<Live>(Shellwise(sh), s, "", [BS] + u)
            == Then(Kept([BS]), Scan<Live>(Shellwise(sh), Core(Executing, SsLost, s.cmd.(data := "", pos := 0)), "", u))
  {
    PromptGroup(sh);
    PromptMembers(sh);
    WordIs(Backspace, [BS]);
    hide Group, Pattern, Word, Fires, Alive, Scan, Shellwise, Trimmed;
    forall q | q in Group(sh, AtPrompt) && q != Backspace ensures !Word(Pattern(q), [BS]) {
      if Word(Pattern(q), [BS]) { OneOwner(Backspace, q, [BS]); }
    }
    PromptWord(sh, Backspace, [BS]);
    UndecidedMore(Group(sh, AtPrompt), [BS], u);
    var inp := [BS] + u;
    assert inp[..1] == [BS] && inp[1..] == u;
    SegmentNext(sh, s, inp, 1);
    TrimKeepsCursor(s.cmd);
  }

  lemma {:induction false} TrimKeepsCursor(c: Cmd)
    requires Ok(c)
    ensures Trimmed(c) == c.(data := Trimmed(c).data)
    decreases |c.data|
  {
    TrimKeeps(c);
  }

  /** A carriage return on the first row, when no newline is awaited, sends the cursor to the
      start; the line is kept, and rebuilt once a prompt comes.  The byte behind it is
      looked at again. */
  lemma ReturnRebuilds(sh: Shell, s: Live, x: char, u: string)
    requires s.pl == AtPrompt && !s.cmd.expectNewline && CR !in s.cmd.data && x != LF
    ensures Scan<Live>(Shellwise(sh), s, "", [CR, x] + u)
            == Then(Kept([CR]), Scan<Live>(Shellwise(sh), Core(Executing, SsExecuting, s.cmd.(pos := 0, rebuilding := true)), "", [x] + u))
  {
    PromptGroup(sh);
    PromptMembers(sh);
    WordIs(CarriageReturn, [CR, x]);
    hide Group, Pattern, Word, Fires, Alive, Scan, Shellwise, Trimmed, CrLeft;
    forall q | q in Group(sh, AtPrompt) && q != CarriageReturn ensures !Word(Pattern(q), [CR, x]) {
      if Word(Pattern(q), [CR, x]) { OneOwner(CarriageReturn, q, [CR, x]); }
    }
    PromptWord(sh, CarriageReturn, [CR, x]);
    UndecidedMore(Group(sh, AtPrompt), [CR, x], u);
    var inp := [CR, x] + u;
    assert inp[..2] == [CR, x] && inp[..1] == [CR] && inp[1..] == [x] + u;
    SegmentNext(sh, s, inp, 2);
    TrimmedPlain(s.cmd);
    NoCrLeft(s.cmd);
  }

  lemma NoCrLeft(c: Cmd)
    requires Ok(c) && CR !in c.data
    ensures CrLeft(c.data, c.pos) == -1
  {
    assert forall i :: 0 <= i < |c.data| ==> c.data[i] in c.data;
  }

  // ----- zsh's right prompt -----

  lemma AtRpromptGroup(sh: Shell)
    ensures Group(sh, AtRprompt) == if sh == Zsh then [RpromptEnd] else []
  {
  }

  lemma EndDecided(w: string)
    requires Word(Pattern(RpromptEnd), w) && w != ""
    ensures Fires([RpromptEnd], w) == Some(RpromptEnd) && Undecided([RpromptEnd], w, |w|)
  {
    hide Pattern, Word;
    PatternsWellFormed(RpromptEnd);
    var g, p := [RpromptEnd], Pattern(RpromptEnd);
    FirstOfGroup(g, w);
    forall j | 0 < j < |w| && j <= |w| ensures Fires(g, w[..j]) == None && Alive(g, w[..j]) {
      assert w[..j] + w[j..] == w;
      assert Opens(p, w[..j]) && g[0] == RpromptEnd;
      PrefixFree(p, w[..j]);
    }
  }

  lemma StartFires()
    ensures var a, g := Pattern(RpromptStart), Group(Zsh, AtPrompt);
            a != "" && Fires(g, a) == Some(RpromptStart) && Undecided(g, a, |a|)
  {
    Settled22(RpromptStart);
    hide Group, Pattern, Word, Fires, Alive;
    PromptGroup(Zsh);
    PromptMembers(Zsh);
    var a := Pattern(RpromptStart);
    StartWord(a);
    forall q | q in Group(Zsh, AtPrompt) && q != RpromptStart ensures !Word(Pattern(q), a) {
      if Word(Pattern(q), a) { OneOwner(RpromptStart, q, a); }
    }
    PromptWord(Zsh, RpromptStart, a);
  }

  lemma StartHandled(s: Live, a: string)
    requires a != ""
    ensures Completed(Zsh, RpromptStart, s, a) == s.(pl := AtRprompt, cmd := s.cmd.(rebuilding := true))
    ensures var o := Handle(Zsh, RpromptStart, s.cmd, a); o.taken == |a| && !o.eaten
  {
  }

  lemma RightPromptStarts(s: Live, rest: string)
    requires s.pl == AtPrompt
    ensures var a := Pattern(RpromptStart);
            Scan<Live>(Shellwise(Zsh), s, "", a + rest)
            == Then(Kept(a), Scan<Live>(Shellwise(Zsh), s.(pl := AtRprompt, cmd := Trimmed(s.cmd).(rebuilding := true)), "", rest))
  {
    hide Group, Pattern, Word, Fires, Alive, Scan, Shellwise, Trimmed, Completed, Handle, Undecided;
    var a := Pattern(RpromptStart);
    StartFires();
    UndecidedMore(Group(Zsh, AtPrompt), a, rest);
    var inp := a + rest;
    assert inp[..|a|] == a && inp[|a|..] == rest;
    SegmentNext(Zsh, s, inp, |a|);
    StartHandled(Trim(s), a);
  }

  lemma RightPromptEnds(t: Live, w: string)
    requires t.pl == AtRprompt && t.cmd.rebuilding && Trimmed(t.cmd) == t.cmd && Word(Pattern(RpromptEnd), w)
    ensures Scan<Live>(Shellwise(Zsh), t, "", w)
            == Scanned(Core(AtPrompt, SsPrompt, t.cmd.(rebuilding := false)), "", [Kept(w)])
  {
    AtRpromptGroup(Zsh);
    hide Group, Pattern, Word, Fires, Alive, Scan, Shellwise, Trimmed;
    LongEnough(RpromptEnd, w);
    EndDecided(w);
    assert w[..|w|] == w && w[|w|..] == "";
    SegmentNext(Zsh, t, w, |w|);
    ScanNothing(Zsh, Core(AtPrompt, SsPrompt, t.cmd.(rebuilding := false)));
    assert [Kept(w)] + [] == [Kept(w)];
  }

  /** A right prompt is passed over: from its start to its end the line stays as it is. */
  lemma RightPromptUnseen(s: Live, u: string, w: string)
    requires s.pl == AtPrompt && ESC !in u && Word(Pattern(RpromptEnd), w)
    ensures var a := Pattern(RpromptStart); var r := Scan<Live>(Shellwise(Zsh), s, "", a + (u + w));
            r.state == Core(AtPrompt, SsPrompt, Trimmed(s.cmd).(rebuilding := false)) && r.open == "" && KeptOf(r.pieces) == a + (u + w)
  {
    hide Pattern, Word, Scan, Shellwise, Trimmed, KeptOf;
    var a, t := Pattern(RpromptStart), s.(pl := AtRprompt, cmd := Trimmed(s.cmd).(rebuilding := true));
    RightPromptStarts(s, u + w);
    var ps := PassesBy(Zsh, t, u, w);
    TrimsAlike(s.cmd);
    RightPromptEnds(t, w);
    var q := Scan<Live>(Shellwise(Zsh), t, "", w);
    KeptOfAppend(ps, q.pieces);
    BeforeNothing(Scanned(q.state, "", []));
    FirstKept(w, Scanned(q.state, "", []));
    FirstKept(a, Before(ps, q));
    assert w + "" == w && [Kept(w)] + [] == [Kept(w)];
  }

  lemma StartWord(a: string)
    requires a == Pattern(RpromptStart)
    ensures Word(Pattern(RpromptStart), a)
  {
    hide Pattern, Word;
    WordIs(RpromptStart, a);
  }

  lemma TrimsAlike(c: Cmd)
    requires Ok(c)
    ensures Trimmed(Trimmed(c).(rebuilding := true)) == Trimmed(c).(rebuilding := true)
  {
    TrimmedDone(c);
  }

  lemma {:induction false} TrimmedDone(c: Cmd)
    requires Ok(c)
    ensures var d := Trimmed(c); Ok(d) && !(d.data != "" && d.data[|d.data| - 1] == CR && d.pos < |d.data| - 1)
    decreases |c.data|
  {
    if Trimmed(c) != c {
      TrimmedDone(c.(data := c.data[..|c.data| - 1]));
    }
  }
}
