/** Directory announcements that arrive in pieces: where conservation fails, and exactly
    when it can. */
module Announcements {
  import opened Bytes
  import opened Patterns
  import opened CmdLines
  import opened Connections
  import opened Sequences
  import opened Scanning
  import opened ShellMachine
  import opened PromptWords
  import opened ShellRuns

  /** A read conserves when the bytes already written still head the buffer after it. */
  lemma ConservesHead(sh: Shell, s: Session, chunk: string)
    ensures Conserves(sh, s, chunk) ==> Ahead(s) <= Buffered(TurnScan(sh, s, chunk))
  {
    hide TurnScan;
    var r, h := TurnScan(sh, s, chunk), Ahead(s);
    var text, pending := Buffered(r), Pending(Turn(sh, s, chunk));
    assert text + pending == KeptOf(r.pieces) + r.open;
    assert Output(sh, s, chunk) == Shown(text, |h|);
    if Conserves(sh, s, chunk) {
      PrefixCancels(h, Shown(text, |h|).value, pending, text);
    }
  }

  lemma PrefixCancels(h: string, o: string, pending: string, text: string)
    requires h + o + pending == text + pending
    ensures h <= text
  {
    assert |h + o| == |text|;
    assert h + o == (h + o + pending)[..|text|] == text;
  }

  lemma PwdOnly(q: SeqId, w: string)
    requires IsPwd(w) && AtThePrompt(q) && IsWord(q, w)
    ensures q == NewPwd
  {
    Ps1Colours();
    RpromptColours();
    hide Pattern;
    assert w[1] == 'P';
  }

  lemma PwdAlone(sh: Shell, w: string)
    requires IsPwd(w)
    ensures Fires(Group(sh, AtPrompt), w) == Some(NewPwd)
  {
    var g := Group(sh, AtPrompt);
    assert g[if sh == Bash then 1 else 13] == NewPwd;
    assert forall id :: id in g ==> AtThePrompt(id);
    hide Group, Word, Pattern, Fires, IsWord;
    PwdIsWord(w);
    var q := Fires(g, w).value;
    WordIs(q, w);
    PwdOnly(q, w);
  }

  lemma PwdGrows(sh: Shell, w: string, v: string)
    requires IsPwd(w + v) && w != "" && v != ""
    ensures Fires(Group(sh, AtPrompt), w) == None && Alive(Group(sh, AtPrompt), w)
  {
    var g := Group(sh, AtPrompt);
    assert g[if sh == Bash then 1 else 13] == NewPwd;
    hide Group, Fires;
    PwdIsWord(w + v);
    assert Opens(Pattern(NewPwd), w);
    NothingInside(sh, w, 0, |w|);
    assert w[0..|w|] == w;
  }

  /** The state once an announcement has been taken in. */
  function Announced(s: Live, w: string): Live
    requires |w| >= 2
  {
    Trim(s).(cmd := Trimmed(s.cmd).(pwd := Some(ParsePwd(w))))
  }

  lemma PwdHandled(sh: Shell, s: Live, w: string)
    requires |w| >= 2
    ensures Completed(sh, NewPwd, Trim(s), w) == Announced(s, w)
    ensures var o := Handle(sh, NewPwd, Trim(s).cmd, w); o.taken == |w| && o.eaten
  {
  }

  lemma AnnouncementDone(sh: Shell, s: Live, w: string)
    requires s.pl == AtPrompt && IsPwd(w)
    ensures React(sh, s, w) == Done(Announced(s, w), |w|, true)
  {
    hide React, Group, Fires, Alive, Handle, Completed, Announced, Trim;
    PwdAlone(sh, w);
    ReactCases(sh, s, w);
    PwdHandled(sh, s, w);
  }

  lemma AnnouncementOpen(sh: Shell, s: Live, w: string, v: string)
    requires s.pl == AtPrompt && IsPwd(w + v) && w != "" && v != ""
    ensures React(sh, s, w) == Grow(Trim(s))
  {
    hide React, Group, Fires, Alive, Handle, Completed, Trim;
    PwdGrows(sh, w, v);
    ReactCases(sh, s, w);
  }

  /** An announcement met at the prompt is cut out whole, however it arrives. */
  lemma {:induction false} AnnouncementCut(sh: Shell, s: Live, h: string, u: string, t: string)
    requires s.pl == AtPrompt && u != "" && IsPwd(h + u)
    ensures Scan<Live>(Shellwise(sh), s, h, u + t)
            == Then(Eaten(h + u), Scan<Live>(Shellwise(sh), Announced(s, h + u), "", t))
    decreases |u|
  {
    hide React, IsPwd;
    var m, w := Shellwise(sh), h + [u[0]];
    assert (u + t)[1..] == u[1..] + t && (u + t)[0] == u[0];
    assert w + u[1..] == h + u;
    if |u| == 1 {
      assert w == h + u && u[1..] + t == t;
      AnnouncementDone(sh, s, w);
      assert w[|w|..] + (u + t)[1..] == t;
    } else {
      AnnouncementOpen(sh, s, w, u[1..]);
      TrimmedTwice(s.cmd);
      hide Trimmed;
      AnnouncementCut(sh, Trim(s), w, u[1..], t);
    }
  }

  lemma EatenUnseen(w: string, q: Scanned<Live>)
    ensures Settled(Then(Eaten(w), q)) == Then(Eaten(w), Settled(q))
    ensures Buffered(Then(Eaten(w), q)) == Buffered(q)
  {
    assert [Eaten(w)] + (q.pieces + [Kept(" ")]) == ([Eaten(w)] + q.pieces) + [Kept(" ")];
    assert ([Eaten(w)] + q.pieces)[1..] == q.pieces;
  }

  /** The known fault: an announcement split across two reads at the prompt.  The part
      already written is still skipped although it is gone, so as many bytes of the
      output that follows are not written -- or the write runs past the buffer. */
  lemma SplitAnnouncementLoses(sh: Shell, s: Session, u: string, t: string)
    requires s.core.pl == AtPrompt && s.shown && s.open != "" && u != "" && IsPwd(s.open + u)
    ensures var after := Session(Announced(s.core, s.open + u), "", true);
            var text := Buffered(TurnScan(sh, after, t));
            && Output(sh, after, t) == Some(text)
            && Output(sh, s, u + t) == (if text == "" then Some("") else if |text| < |s.open| then None else Some(text[|s.open|..]))
  {
    AnnouncementCut(sh, s.core, s.open, u, t);
    hide Scan, Shellwise, Settled, Buffered, Announced, IsPwd;
    var q := Scan<Live>(Shellwise(sh), Announced(s.core, s.open + u), "", t);
    EatenUnseen(s.open + u, q);
    EatenUnseen(s.open + u, Settled(q));
  }

  // ----- when a read can fail to conserve -----

  /** A sequence that has not fired lets the bytes in front of an announcement go. */
  ghost predicate Passed(sh: Shell, text: string, n: nat)
    requires n + 2 <= |text|
  {
    && (forall i, j :: 0 <= i < n && i < j <= n + 2 ==> Fires(Group(sh, AtPrompt), text[i..j]) == None)
    && (forall i, j :: 0 <= i < n && j == n + 2 ==> !Alive(Group(sh, AtPrompt), text[i..j]))
  }

  lemma PassedTail(sh: Shell, text: string, n: nat)
    requires 0 < n && n + 2 <= |text| && Passed(sh, text, n)
    ensures Passed(sh, text[1..], n - 1)
  {
    hide Group, Fires, Alive;
    assert forall i, j :: 0 <= i <= j <= n + 1 ==> text[1..][i..j] == text[i + 1..j + 1];
  }

  lemma PassedReacts(sh: Shell, s: Live, w: string, text: string, n: nat)
    requires s.pl == AtPrompt && w != "" && w <= text && 0 < n && |w| <= n + 2 <= |text| && Passed(sh, text, n)
    ensures var k := React(sh, s, w); !k.Done? && k.next.pl == AtPrompt && (|w| == n + 2 ==> k.Drop?)
  {
    hide Group, Fires, Alive, Completed, Handle;
    assert text[0..|w|] == w;
  }

  lemma DropRest(seg: string, inp: string, n: nat)
    requires inp != "" && 0 < n <= |seg + inp|
    ensures var text, w := seg + inp, seg + [inp[0]];
            && text == w + inp[1..] && w[1..] + inp[1..] == text[1..] == "" + text[1..]
            && text[1..][n - 1..] == text[n..] && [w[0]] + text[1..][..n - 1] == text[..n]
  {
  }

  /** So the scan comes to stand right in front of it. */
  lemma {:induction false} ScanPasses(sh: Shell, s: Live, seg: string, inp: string, n: nat) returns (t: Live, ps: seq<Piece>)
    requires s.pl == AtPrompt && n + 2 <= |seg + inp| && Passed(sh, seg + inp, n)
    requires if n == 0 then seg == "" else |seg| < n + 2
    ensures t.pl == AtPrompt && KeptOf(ps) == (seg + inp)[..n]
    ensures Scan<Live>(Shellwise(sh), s, seg, inp) == Before(ps, Scan<Live>(Shellwise(sh), t, "", (seg + inp)[n..]))
    decreases |seg| + |inp|, |inp|
  {
    hide Passed, React, KeptOf, Before, Then, Scan, Shellwise;
    var m, text := Shellwise(sh), seg + inp;
    if n == 0 {
      assert text == inp == text[0..];
      BeforeNothing(Scan<Live>(m, s, "", text));
      return s, [];
    }
    var w := seg + [inp[0]];
    var k := React(sh, s, w);
    DropRest(seg, inp, n);
    PassedReacts(sh, s, w, text, n);
    if k.Grow? {
      ScanGrows(m, s, seg, inp, k);
      t, ps := ScanPasses(sh, k.next, w, inp[1..], n);
    } else {
      PassedTail(sh, text, n);
      ScanOne(m, s, seg, inp, k);
      t, ps := ScanPasses(sh, k.next, "", text[1..], n - 1);
      BeforeOne(w[0], ps, Scan<Live>(m, t, "", text[n..]));
      ps := [Kept([w[0]])] + ps;
    }
  }

  lemma BeforeOne(c: char, ps: seq<Piece>, r: Scanned<Live>)
    ensures Then(Kept([c]), Before(ps, r)) == Before([Kept([c])] + ps, r)
    ensures KeptOf([Kept([c])] + ps) == [c] + KeptOf(ps)
  {
    assert [Kept([c])] + (ps + r.pieces) == ([Kept([c])] + ps) + r.pieces;
    assert ([Kept([c])] + ps)[1..] == ps;
  }

  lemma FiresNotYet(sh: Shell, h: string, text: string, i: nat, j: nat)
    requires h != "" && Alive(Group(sh, AtPrompt), h) && h[|h| - 1] == ESC && h + ['P'] <= text
    requires i < |h| - 1 && i < j <= |h| + 1
    ensures Fires(Group(sh, AtPrompt), text[i..j]) == None
  {
    hide Group, Fires, Alive;
    if j <= |h| {
      NothingInside(sh, h, i, j);
      assert text[i..j] == h[i..j];
    } else {
      assert text[..j] == h + ['P'];
      FiresNoneEscapeP(sh, text[i..j], |h| - 1 - i);
    }
  }

  /** An announcement that begins at the end of a longer open segment. */
  lemma EscapeEndsPassed(sh: Shell, h: string, text: string)
    requires |h| >= 2 && Alive(Group(sh, AtPrompt), h) && h[|h| - 1] == ESC && h + ['P'] <= text
    ensures Passed(sh, text, |h| - 1)
  {
    hide Group, Fires, Alive;
    var g, n := Group(sh, AtPrompt), |h| - 1;
    forall i, j | 0 <= i < n && i < j <= n + 2 ensures Fires(g, text[i..j]) == None {
      FiresNotYet(sh, h, text, i, j);
    }
    assert text[..n + 2] == h + ['P'];
    forall i, j | 0 <= i < n && j == n + 2 ensures !Alive(g, text[i..j]) {
      DeadEscapeP(sh, text[i..j], n - i);
    }
  }

  lemma FiresNoneEscapeP(sh: Shell, w: string, i: nat)
    requires 0 < i < |w| - 1 && w[i] == ESC && w[i + 1] == 'P'
    ensures Fires(Group(sh, AtPrompt), w) == None
  {
    hide Group, Pattern, Word, IsWord;
    PromptGroup(sh);
    if Fires(Group(sh, AtPrompt), w).Some? {
      var id := Fires(Group(sh, AtPrompt), w).value;
      WordIs(id, w);
      EscapeP(id, w, i);
    }
  }

  lemma DeadEscapeP(sh: Shell, w: string, i: nat)
    requires 0 < i < |w| - 1 && w[i] == ESC && w[i + 1] == 'P'
    ensures !Alive(Group(sh, AtPrompt), w)
  {
    hide Group, Pattern, Opens;
    PromptGroup(sh);
    if Alive(Group(sh, AtPrompt), w) {
      var id :| id in Group(sh, AtPrompt) && Opens(Pattern(id), w);
      EscapePOpen(id, w, i);
    }
  }

  const EMPTY_PWD: string := [ESC, 'P', ESC, '\\']

  lemma LosesAtOnce(sh: Shell, s: Session) returns (chunk: string)
    requires s.core.pl == AtPrompt && s.shown && s.open != "" && Opens(Pattern(NewPwd), s.open)
    ensures !Conserves(sh, s, chunk)
  {
    hide Pattern, Word, Conserves, Scan, Shellwise, IsPwd, Announced, Before, Settled, Buffered, KeptOf;
    chunk :| chunk != "" && Word(Pattern(NewPwd), s.open + chunk);
    PwdIsWord(s.open + chunk);
    AnnouncementCut(sh, s.core, s.open, chunk, "");
    assert chunk + "" == chunk;
    ScanNothing(sh, Announced(s.core, s.open + chunk));
    ConservesHead(sh, s, chunk);
    assert [Eaten(s.open + chunk)] + [] == [Eaten(s.open + chunk)];
    BeforeNothing(Scan<Live>(Shellwise(sh), s.core, s.open, chunk));
    AfterPassing([], s.open + chunk, Announced(s.core, s.open + chunk), Scan<Live>(Shellwise(sh), s.core, s.open, chunk));
  }

  lemma ScanNothing(sh: Shell, s: Live)
    ensures Scan<Live>(Shellwise(sh), s, "", "") == Scanned(s, "", [])
  {
  }

  lemma AfterPassing(ps: seq<Piece>, w: string, t: Live, r: Scanned<Live>)
    requires r == Before(ps, Scanned(t, "", [Eaten(w)]))
    ensures Buffered(Settled(r)) == KeptOf(ps)
  {
    KeptOfAppend(ps, [Eaten(w)]);
    assert KeptOf([Eaten(w)]) == "";
  }

  lemma LosesLater(sh: Shell, s: Session)
    requires s.core.pl == AtPrompt && s.shown && |s.open| >= 2
    requires Alive(Group(sh, AtPrompt), s.open) && s.open[|s.open| - 1] == ESC
    ensures !Conserves(sh, s, ['P', ESC, '\\'])
  {
    hide Group, Alive, Conserves, Scan, Shellwise, Announced, Passed, Settled, Buffered, KeptOf, Before;
    var h, chunk := s.open, ['P', ESC, '\\'];
    var n, text := |h| - 1, h + chunk;
    assert h + ['P'] <= text;
    EscapeEndsPassed(sh, h, text);
    var t, ps := ScanPasses(sh, s.core, h, chunk, n);
    assert text[n..] == EMPTY_PWD + "" && IsPwd(EMPTY_PWD);
    AnnouncementCut(sh, t, "", EMPTY_PWD, "");
    assert "" + EMPTY_PWD == EMPTY_PWD;
    ScanNothing(sh, Announced(t, EMPTY_PWD));
    assert [Eaten(EMPTY_PWD)] + [] == [Eaten(EMPTY_PWD)];
    AfterPassing(ps, EMPTY_PWD, Announced(t, EMPTY_PWD), Scan<Live>(Shellwise(sh), s.core, h, chunk));
    ConservesHead(sh, s, chunk);
  }

  /** Every read conserves exactly when the bytes already written are quiet: when the
      segment held over at the prompt neither is the beginning of an announcement nor ends
      in an escape.  `QuietIff` reads it off the table: no announcement has begun in it. */
  lemma ConservesIff(sh: Shell, s: Session)
    requires Steady(sh, s)
    ensures (forall chunk :: Conserves(sh, s, chunk)) <==> Quiet(Ahead(s))
  {
    hide Conserves, Group, Alive, Pattern, Opens;
    if Quiet(Ahead(s)) {
      forall chunk ensures Conserves(sh, s, chunk) {
        TurnConserves(sh, s, chunk);
      }
    } else {
      SomethingLost(sh, s);
    }
  }

  lemma SomethingLost(sh: Shell, s: Session)
    requires Steady(sh, s) && !Quiet(Ahead(s))
    ensures exists chunk :: !Conserves(sh, s, chunk)
  {
    hide Conserves, Group, Pattern, Opens;
    if |s.open| >= 2 && s.open[|s.open| - 1] == ESC {
      LosesLater(sh, s);
    } else {
      LoudOpens(sh, s.open);
      var chunk := LosesAtOnce(sh, s);
    }
  }

  lemma LoudOpens(sh: Shell, h: string)
    requires Alive(Group(sh, AtPrompt), h) && !Quiet(h) && (|h| >= 2 ==> h[|h| - 1] != ESC)
    ensures Opens(Pattern(NewPwd), h)
  {
    QuietIff(sh, h);
    hide Group, Pattern, Opens, Alive;
    var i :| 0 <= i < |h| && Opens(Pattern(NewPwd), h[i..]);
    assert |h| >= 2 ==> h[0] == ESC && h[1] == 'P';
    if |h| >= 2 {
      AliveEscapeP(sh, h);
    } else {
      assert h[i..] == h;
    }
  }

  lemma AliveEscapeP(sh: Shell, h: string)
    requires Alive(Group(sh, AtPrompt), h) && |h| >= 2 && h[0] == ESC && h[1] == 'P'
    ensures Opens(Pattern(NewPwd), h)
  {
    hide Group, Pattern, Opens;
    PromptGroup(sh);
    var id :| id in Group(sh, AtPrompt) && Opens(Pattern(id), h);
    EscapePOpen(id, h, 0);
  }

  // ----- a session that loses bytes, from the start -----

  const FIRST_SESSION: Session := Session(Core(Executing, SsExecuting, BLANK), "", false)

  lemma {:induction false} LiteralFront(p: string, w: string, m: nat)
    requires m <= |p| && Literal(p[..m]) && Word(p, w)
    ensures |w| >= m && w[..m] == p[..m]
    decreases m
  {
    if m > 0 {
      assert !IsRun(p[0]) && p[0] !in {ANY, NOT_LF, NOT_LF_CR} by {
        assert p[0] == p[..m][0];
      }
      assert p[1..][..m - 1] == p[..m][1..] && Literal(p[..m][1..]);
      LiteralFront(p[1..], w[1..], m - 1);
      assert w[..m] == [w[0]] + w[1..][..m - 1] && p[..m] == [p[0]] + p[1..][..m - 1];
    }
  }

  lemma SeparatorBytes()
    ensures var p := Pattern(Ps1Separator);
            Literal(p) && |p| == 22 && p[1] == '[' && p[3] == ';' && p[5] == '0'
    ensures var p := Pattern(RpromptEnd); |p| >= 6 && Literal(p[..6]) && p[5] == '4'
    ensures var p := Pattern(ZshCompletionDone); |p| >= 4 && Literal(p[..4]) && p[3] == 'm'
  {
  }

  lemma ExecutingGroup(sh: Shell)
    ensures var g := Group(sh, Executing);
            g != [] && g[0] == Ps1Separator && forall id :: id in g ==> id in {Ps1Separator, NewPwd, RpromptEnd, ZshCompletionDone}
  {
  }

  lemma WordFront(p: string, w: string, m: nat)
    requires 0 < m <= |p| && Literal(p[..m])
    ensures Word(p, w) ==> |w| >= m && w[m - 1] == p[m - 1]
  {
    if Word(p, w) {
      LiteralFront(p, w, m);
      assert w[..m][m - 1] == w[m - 1];
    }
  }

  lemma PartOfSeparator(id: SeqId, k: nat)
    requires 0 < k < |Pattern(Ps1Separator)| && id in {Ps1Separator, NewPwd, RpromptEnd, ZshCompletionDone}
    ensures !Word(Pattern(id), Pattern(Ps1Separator)[..k])
  {
    SeparatorBytes();
    hide Pattern, Word;
    var p, w := Pattern(Ps1Separator), Pattern(Ps1Separator)[..k];
    LiteralIs(p, w);
    PwdIsWord(w);
    WordFront(Pattern(RpromptEnd), w, 6);
    WordFront(Pattern(ZshCompletionDone), w, 4);
    assert forall i :: 0 <= i < k ==> w[i] == p[i];
  }

  lemma SeparatorReacts(sh: Shell, s: Live, k: nat)
    requires s.pl == Executing && 0 < k <= |Pattern(Ps1Separator)|
    ensures var r := React(sh, s, Pattern(Ps1Separator)[..k]);
            if k < |Pattern(Ps1Separator)| then r == Grow(Trim(s))
            else r.Done? && r.next.pl == AtPrompt && r.taken == k && !r.eaten
  {
    SeparatorBytes();
    ExecutingGroup(sh);
    hide Pattern, Group, Word, Fires, Alive, React;
    var g, p := Group(sh, Executing), Pattern(Ps1Separator);
    var w := p[..k];
    ReactCases(sh, s, w);
    if k < |p| {
      forall id | id in g ensures !Word(Pattern(id), w) {
        PartOfSeparator(id, k);
      }
      assert w + p[k..] == p;
      LiteralIs(p, p);
      SeparatorAlive(g, w, p[k..]);
    } else {
      assert w == p;
      LiteralIs(p, p);
      FirstOfGroup(g, p);
    }
  }

  lemma FirstOfGroup(g: seq<SeqId>, w: string)
    requires g != [] && Word(Pattern(g[0]), w)
    ensures Fires(g, w) == Some(g[0])
  {
    hide Pattern, Word;
  }

  lemma SeparatorAlive(g: seq<SeqId>, w: string, v: string)
    requires g != [] && v != "" && Word(Pattern(g[0]), w + v)
    ensures Alive(g, w)
  {
    hide Pattern, Word;
    assert Opens(Pattern(g[0]), w);
  }

  /** A prompt begins: the separator is passed on, and nothing stays open. */
  lemma {:induction false} SeparatorRead(sh: Shell, s: Live, k: nat)
    requires s.pl == Executing && k < |Pattern(Ps1Separator)|
    ensures var p := Pattern(Ps1Separator);
            var r := Scan<Live>(Shellwise(sh), s, p[..k], p[k..]);
            r.state.pl == AtPrompt && r == Scanned(r.state, "", [Kept(p)])
    decreases |Pattern(Ps1Separator)| - k
  {
    hide Pattern, React, Shellwise, Scan;
    var p, m := Pattern(Ps1Separator), Shellwise(sh);
    var w := p[..k] + [p[k..][0]];
    assert w == p[..k + 1] && p[k..][1..] == p[k + 1..];
    SeparatorReacts(sh, s, k + 1);
    if k + 1 < |p| {
      ScanGrows(m, s, p[..k], p[k..], Grow(Trim(s)));
      SeparatorRead(sh, Trim(s), k + 1);
    } else {
      var r := React(sh, s, w);
      ScanOne(m, s, p[..k], p[k..], r);
      assert w == p && w[|w|..] + p[k..][1..] == "";
      ScanNothing(sh, r.next);
    }
  }

  lemma EscapeGrows(sh: Shell, s: Live)
    requires s.pl == AtPrompt
    ensures Scan<Live>(Shellwise(sh), s, "", [ESC]) == Scanned(Trim(s), [ESC], [])
  {
    hide React, Trim;
    assert IsPwd([ESC] + ['P', ESC, '\\']);
    AnnouncementOpen(sh, s, [ESC], ['P', ESC, '\\']);
    assert "" + [ESC] == [ESC] && [ESC][1..] == "";
  }

  lemma LetterTyped(sh: Shell, s: Live)
    requires s.pl == AtPrompt
    ensures Scan<Live>(Shellwise(sh), s, "", "x") == Scanned(Typed(Trim(s), 'x'), "", [Kept("x")])
  {
    LetterUnknown(sh);
    hide Group, Fires, Alive, Trim, Typed, React;
    ReactCases(sh, s, "x");
    assert "" + [("x")[0]] == "x";
    ScanOne(Shellwise(sh), s, "", "x", React(sh, s, "x"));
    assert "" + ['x'] == "x" && "x"[1..] + "x"[1..] == "" && ['x'] == "x";
    ScanNothing(sh, Typed(Trim(s), 'x'));
  }

  lemma LetterUnknown(sh: Shell)
    ensures Fires(Group(sh, AtPrompt), "x") == None && !Alive(Group(sh, AtPrompt), "x")
  {
    hide Group, Pattern, Word;
    PromptGroup(sh);
    assert "x" + "" == "x";
    forall id | id in Group(sh, AtPrompt) ensures !Word(Pattern(id), "x") {
      LetterFirst(id, "");
    }
    if Alive(Group(sh, AtPrompt), "x") {
      var id :| id in Group(sh, AtPrompt) && Opens(Pattern(id), "x");
      var v :| v != "" && Word(Pattern(id), "x" + v);
      LetterFirst(id, v);
    }
  }

  lemma LetterFirst(id: SeqId, v: string)
    requires AtThePrompt(id)
    ensures !Word(Pattern(id), "x" + v)
  {
    var w := "x" + v;
    WordIs(id, w);
    hide Word;
    assert w[0] == 'x' && (|w| >= 2 ==> w[..2][0] == 'x');
  }

  lemma ReadSeparator(sh: Shell, s: Session)
    requires s.core.pl == Executing && s.open == ""
    ensures var p, t := Pattern(Ps1Separator), Turn(sh, s, Pattern(Ps1Separator));
            && t.core.pl == AtPrompt && t.open == "" && t.shown
            && TurnScan(sh, s, p).pieces == [Kept(p)] && Output(sh, s, p) == Some(p)
  {
    SeparatorBytes();
    hide Pattern, Scan, Shellwise;
    var p := Pattern(Ps1Separator);
    assert p[..0] == "" && p[0..] == p;
    SeparatorRead(sh, s.core, 0);
    assert KeptOf([Kept(p)]) == p + "" == p && p + "" == p && p[0..] == p;
  }

  lemma ReadEscape(sh: Shell, s: Session)
    requires s.core.pl == AtPrompt && s.open == ""
    ensures var t := Turn(sh, s, [ESC]);
            && t.core.pl == AtPrompt && t.open == [ESC] && t.shown
            && TurnScan(sh, s, [ESC]).pieces == [] && Output(sh, s, [ESC]) == Some([ESC])
  {
    EscapeGrows(sh, s.core);
    hide Scan, Shellwise;
    assert "" + [ESC] == [ESC] && [ESC][0..] == [ESC];
  }

  lemma ReadRest(sh: Shell, s: Session)
    requires s.core.pl == AtPrompt && s.open == [ESC] && s.shown
    ensures var c := ['P', ESC, '\\', 'x'];
            && Turn(sh, s, c).core.pl == AtPrompt && Turn(sh, s, c).open == ""
            && TurnScan(sh, s, c).pieces == [Eaten(EMPTY_PWD), Kept("x")] && Output(sh, s, c) == Some("")
  {
    var u := ['P', ESC, '\\'];
    assert [ESC] + u == EMPTY_PWD && u + "x" == ['P', ESC, '\\', 'x'] && IsPwd(EMPTY_PWD);
    AnnouncementCut(sh, s.core, [ESC], u, "x");
    LetterTyped(sh, Announced(s.core, EMPTY_PWD));
    hide Scan, Shellwise, Announced;
    assert [Eaten(EMPTY_PWD)] + [Kept("x")] == [Eaten(EMPTY_PWD), Kept("x")];
    assert [Eaten(EMPTY_PWD), Kept("x")][1..] == [Kept("x")] && "x"[1..] == "";
    assert KeptOf([Kept("x")]) == "x" + "" == "x" && "x" + "" == "x";
  }

  /** The fault reached from the start of a session: a prompt begins, a read ends right
      after an announcement's escape, and the letter typed behind the announcement is
      never written. */
  lemma LosingSession(sh: Shell)
    ensures Steady(sh, FIRST_SESSION)
    ensures var run := RunOf(sh, FIRST_SESSION, [Read(Pattern(Ps1Separator), false), Read([ESC], false), Read(['P', ESC, '\\', 'x'], false)]);
            && run.whole && run.end.open == ""
            && KeptOf(run.pieces) == Pattern(Ps1Separator) + "x"
            && run.out == Pattern(Ps1Separator) + [ESC]
  {
    hide Pattern, Turn, TurnScan, Output, IsPwd;
    var p, c := Pattern(Ps1Separator), ['P', ESC, '\\', 'x'];
    var s1 := Turn(sh, FIRST_SESSION, p);
    var s2 := Turn(sh, s1, [ESC]);
    ReadSeparator(sh, FIRST_SESSION);
    ReadEscape(sh, s1);
    ReadRest(sh, s2);
    ThreeReads(sh, FIRST_SESSION, p, [ESC], c);
    var ps := [Eaten(EMPTY_PWD), Kept("x")];
    assert ps[1..] == [Kept("x")] && [Kept("x")][1..] == [];
    assert KeptOf([Kept("x")]) == "x" + "" == "x" && KeptOf(ps) == "" + "x" == "x";
    assert [] + ps == ps && ([Kept(p)] + ps)[1..] == ps;
    assert KeptOf([Kept(p)] + ps) == p + "x";
    assert [ESC] + "" == [ESC];
  }

  lemma RunStep(sh: Shell, s: Session, chunk: string, rest: seq<Read>)
    requires Output(sh, s, chunk).Some? && !s.core.cmd.expectNewline
    ensures var run := RunOf(sh, Turn(sh, s, chunk), rest);
            RunOf(sh, s, [Read(chunk, false)] + rest)
            == Run(run.end, TurnScan(sh, s, chunk).pieces + run.pieces, Output(sh, s, chunk).value + run.out, run.whole)
  {
    hide Turn, TurnScan, Output, Expecting;
    ExpectingSame(s, Read(chunk, false));
    assert ([Read(chunk, false)] + rest)[1..] == rest;
  }

  lemma ThreeReads(sh: Shell, s: Session, a: string, b: string, c: string)
    requires var t, u := Turn(sh, s, a), Turn(sh, Turn(sh, s, a), b);
             Output(sh, s, a).Some? && Output(sh, t, b).Some? && Output(sh, u, c).Some? && !s.core.cmd.expectNewline
    ensures var t, u := Turn(sh, s, a), Turn(sh, Turn(sh, s, a), b);
            RunOf(sh, s, [Read(a, false), Read(b, false), Read(c, false)])
            == Run(Turn(sh, u, c), TurnScan(sh, s, a).pieces + (TurnScan(sh, t, b).pieces + TurnScan(sh, u, c).pieces),
                   Output(sh, s, a).value + (Output(sh, t, b).value + Output(sh, u, c).value), true)
  {
    hide Turn, TurnScan, Output;
    var t, u := Turn(sh, s, a), Turn(sh, Turn(sh, s, a), b);
    var x, y, z := Read(a, false), Read(b, false), Read(c, false);
    TurnExpects(sh, s, a);
    TurnExpects(sh, t, b);
    RunStep(sh, s, a, [y, z]);
    RunStep(sh, t, b, [z]);
    RunStep(sh, u, c, []);
    assert [x] + [y, z] == [x, y, z] && [y] + [z] == [y, z] && [z] + [] == [z];
    assert TurnScan(sh, u, c).pieces + [] == TurnScan(sh, u, c).pieces && Output(sh, u, c).value + "" == Output(sh, u, c).value;
  }
}
