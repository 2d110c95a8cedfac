/** Whole runs of the shell connection: reads of any size, the holdover between them, and
    what reaches the terminal. */
module ShellRuns {
  import opened Bytes
  import opened Patterns
  import opened CmdLines
  import opened Connections
  import opened Sequences
  import opened Scanning
  import opened ShellMachine
  import opened PromptWords

  /** What is carried from one read to the next.  `shown`: an open segment has been
      written already. */
  datatype Session = Session(core: Live, open: string, shown: bool)

  ghost predicate Steady(sh: Shell, s: Session) {
    s.open != "" ==> Alive(Group(sh, s.core.pl), s.open) && (s.shown <==> s.core.pl == AtPrompt)
  }

  ghost function TurnScan(sh: Shell, s: Session, chunk: string): Scanned<Live> {
    Settled(Scan<Live>(Shellwise(sh), s.core, s.open, chunk))
  }

  ghost function Turn(sh: Shell, s: Session, chunk: string): Session {
    var r := TurnScan(sh, s, chunk);
    Session(r.state, r.open, r.state.pl == AtPrompt)
  }

  ghost function Output(sh: Shell, s: Session, chunk: string): Option<string> {
    Shown(Buffered(TurnScan(sh, s, chunk)), if s.shown then |s.open| else 0)
  }

  lemma TurnSteady(sh: Shell, s: Session, chunk: string)
    requires Steady(sh, s)
    ensures Steady(sh, Turn(sh, s, chunk))
  {
    hide Group, Alive, Scan, Shellwise;
    OpenIsAlive(sh, s.core, s.open, chunk);
  }

  // ----- where a read may end -----

  /** The bytes so far end in a space that might still turn into a row wrap. */
  ghost predicate LoneSpace(sh: Shell, s: Session, a: string) {
    var r := Scan<Live>(Shellwise(sh), s.core, s.open, a);
    r.state.pl == AtPrompt && r.open == " "
  }

  lemma CutSafe(sh: Shell, s: Session, a: string, b: string)
    requires !LoneSpace(sh, s, a)
    ensures Turn(sh, Turn(sh, s, a), b) == Turn(sh, s, a + b)
    ensures TurnScan(sh, s, a + b).pieces == TurnScan(sh, s, a).pieces + TurnScan(sh, Turn(sh, s, a), b).pieces
  {
    hide Scan, Shellwise;
    ScanSplits<Live>(Shellwise(sh), s.core, s.open, a, b);
  }

  lemma WrapOpens(sh: Shell)
    ensures var g := Group(sh, AtPrompt); Fires(g, " \r") == None && Alive(g, " \r")
  {
    var g := Group(sh, AtPrompt);
    assert g[2] == CmdWrapped;
    assert forall id :: id in g ==> AtThePrompt(id);
    hide Group;
    assert " \r" + "x" == " \rx" && " \rx"[..2] == " \r";
    WordIs(CmdWrapped, " \rx");
    assert Opens(Pattern(CmdWrapped), " \r");
    assert Alive(g, " \r");
    NothingInsideWrap(g);
  }

  lemma NothingInsideWrap(g: seq<SeqId>)
    requires forall id :: id in g ==> AtThePrompt(id)
    ensures Fires(g, " \r") == None
  {
    hide Pattern;
    if Fires(g, " \r").Some? {
      var id := Fires(g, " \r").value;
      WordIs(id, " \r");
      WordsMarked(id, " \r");
    }
  }

  /** After a lone space, a carriage return tells the two readings apart. */
  lemma CutUnsafe(sh: Shell, s: Session, a: string)
    requires LoneSpace(sh, s, a)
    ensures Turn(sh, Turn(sh, s, a), "\r") != Turn(sh, s, a + "\r")
  {
    hide React, Group, Fires, Alive, Word, Pattern, Typed, KeptOf;
    var m := Shellwise(sh);
    var r := Scan<Live>(m, s.core, s.open, a);
    ScanSplits<Live>(m, s.core, s.open, a, "\r");
    WrapOpens(sh);
    assert " " + ['\r'] == " \r";
    assert m(r.state, " \r") == React(sh, r.state, " \r");
    WrapGrows(sh, r.state);
    var one := Scan<Live>(m, r.state, " ", "\r");
    assert "\r"[1..] == "";
    assert one == Scan<Live>(m, m(r.state, " \r").next, " \r", "");
    assert one.open == " \r";
    assert Turn(sh, s, a + "\r").open == " \r";
    var t := Turn(sh, s, a);
    ScanCovers<Live>(m, t.core, t.open, "\r");
    assert |Turn(sh, t, "\r").open| <= 1;
  }

  lemma WrapGrows(sh: Shell, s: Live)
    requires s.pl == AtPrompt
    ensures React(sh, s, " \r").Grow?
  {
    WrapOpens(sh);
    hide Group, Fires, Alive;
  }

  /** A read may end after `a` exactly when `a` does not leave a lone space open at the
      prompt: then, and only then, every continuation is scanned as if it had come in
      the same read. */
  lemma CutSafeIff(sh: Shell, s: Session, a: string)
    ensures (forall b :: Turn(sh, Turn(sh, s, a), b) == Turn(sh, s, a + b)) <==> !LoneSpace(sh, s, a)
  {
    hide Turn, LoneSpace;
    if !LoneSpace(sh, s, a) {
      forall b: string ensures Turn(sh, Turn(sh, s, a), b) == Turn(sh, s, a + b) {
        CutSafe(sh, s, a, b);
      }
    } else {
      CutUnsafe(sh, s, a);
    }
  }

  // ----- many rs -----

  /** One read from the shell; by then the terminal's side may have made the line expect a
      newline, or not to. */
  datatype Read = Read(bytes: string, expectNewline: bool)

  function Concat(rs: seq<Read>): string {
    if rs == [] then "" else rs[0].bytes + Concat(rs[1..])
  }

  /** The session as a read finds it. */
  function Expecting(s: Session, r: Read): Session {
    s.(core := s.core.(cmd := s.core.cmd.(expectNewline := r.expectNewline)))
  }

  datatype Run = Run(end: Session, pieces: seq<Piece>, out: string, whole: bool)

  /** A run of reads; `whole` tells that no write ran past the buffer. */
  ghost function RunOf(sh: Shell, s: Session, rs: seq<Read>): Run
    decreases |rs|
  {
    if rs == [] then Run(s, [], "", true)
    else
      var t, c := Expecting(s, rs[0]), rs[0].bytes;
      var o := Output(sh, t, c);
      var rest := RunOf(sh, Turn(sh, t, c), rs[1..]);
      Run(rest.end, TurnScan(sh, t, c).pieces + rest.pieces, (if o.Some? then o.value else "") + rest.out, o.Some? && rest.whole)
  }

  /** No read but perhaps the last ends in a lone space. */
  ghost predicate CleanCuts(sh: Shell, s: Session, rs: seq<Read>)
    decreases |rs|
  {
    |rs| > 1 ==> !LoneSpace(sh, s, rs[0].bytes) && CleanCuts(sh, Turn(sh, s, rs[0].bytes), rs[1..])
  }

  /** The terminal's side leaves the line as it is. */
  predicate Undisturbed(s: Session, rs: seq<Read>) {
    forall i :: 0 <= i < |rs| ==> rs[i].expectNewline == s.core.cmd.expectNewline
  }

  lemma HandleExpects(sh: Shell, id: SeqId, c: Cmd, w: string)
    requires Ok(c) && w != "" && (PeeksOne(id) || id == NewPwd ==> |w| >= 2)
    ensures Handle(sh, id, c, w).cmd.expectNewline == c.expectNewline
  {
    hide Pattern, CrRight, CrLeft, ParseDigits, ParsePwd, RowUp;
  }

  lemma CompletedExpects(sh: Shell, id: SeqId, s: Live, w: string)
    requires w != "" && (PeeksOne(id) || id == NewPwd ==> |w| >= 2)
    ensures Completed(sh, id, s, w).cmd.expectNewline == s.cmd.expectNewline
  {
    hide Handle;
    HandleExpects(sh, id, s.cmd, w);
  }

  lemma TypedExpects(s: Live, c: char)
    ensures Typed(s, c).cmd.expectNewline == s.cmd.expectNewline
  {
  }

  lemma ReactExpects(sh: Shell, s: Live, w: string)
    requires w != ""
    ensures React(sh, s, w).next.cmd.expectNewline == s.cmd.expectNewline
  {
    hide Group, Fires, Alive, Handle, Trimmed, React, Completed, Typed, Word, Pattern;
    TrimExpects(s.cmd);
    ReactCases(sh, s, w);
    TypedExpects(Trim(s), w[0]);
    if Fires(Group(sh, s.pl), w).Some? {
      CompletedExpects(sh, Fires(Group(sh, s.pl), w).value, Trim(s), w);
    }
  }

  lemma {:induction false} TrimExpects(c: Cmd)
    requires Ok(c)
    ensures Trimmed(c).expectNewline == c.expectNewline
    decreases |c.data|
  {
    if Trimmed(c) != c {
      TrimExpects(c.(data := c.data[..|c.data| - 1]));
    }
  }

  /** Scanning changes nothing about it. */
  lemma {:induction false} ScanExpects(sh: Shell, s: Live, seg: string, inp: string)
    ensures Scan<Live>(Shellwise(sh), s, seg, inp).state.cmd.expectNewline == s.cmd.expectNewline
    decreases |seg| + |inp|, |inp|
  {
    hide React;
    if inp != "" {
      var m, w := Shellwise(sh), seg + [inp[0]];
      assert m(s, w) == React(sh, s, w);
      ReactExpects(sh, s, w);
      match m(s, w)
      case Done(t, k, eaten) => ScanExpects(sh, t, "", w[k..] + inp[1..]);
      case Grow(t) => ScanExpects(sh, t, w, inp[1..]);
      case Drop(t) => ScanExpects(sh, t, "", w[1..] + inp[1..]);
    }
  }

  lemma TurnExpects(sh: Shell, s: Session, chunk: string)
    ensures Turn(sh, s, chunk).core.cmd.expectNewline == s.core.cmd.expectNewline
  {
    hide Scan, Shellwise;
    ScanExpects(sh, s.core, s.open, chunk);
  }

  lemma ExpectingSame(s: Session, r: Read)
    requires r.expectNewline == s.core.cmd.expectNewline
    ensures Expecting(s, r) == s
  {
  }

  lemma ExpectingSteady(sh: Shell, s: Session, r: Read)
    ensures Steady(sh, Expecting(s, r)) <==> Steady(sh, s)
    ensures Ahead(Expecting(s, r)) == Ahead(s) && Pending(Expecting(s, r)) == Pending(s) && Expecting(s, r).open == s.open
  {
    hide Group, Alive;
  }

  /** Chunk invariance over a run the terminal's side leaves alone: cut cleanly, the bytes
      leave the state, and the pieces kept and cut, that they would have left in a single
      read. */
  lemma {:induction false} ChunksDoNotMatter(sh: Shell, s: Session, rs: seq<Read>)
    requires rs != [] && CleanCuts(sh, s, rs) && Undisturbed(s, rs)
    ensures RunOf(sh, s, rs).end == Turn(sh, s, Concat(rs))
    ensures RunOf(sh, s, rs).pieces == TurnScan(sh, s, Concat(rs)).pieces
    decreases |rs|
  {
    hide Turn, TurnScan, Output, LoneSpace, Expecting;
    var c := rs[0].bytes;
    ExpectingSame(s, rs[0]);
    if |rs| == 1 {
      assert rs[1..] == [] && Concat(rs) == c + "" == c;
      assert TurnScan(sh, s, c).pieces + [] == TurnScan(sh, s, c).pieces;
    } else {
      CutSafe(sh, s, c, Concat(rs[1..]));
      TurnExpects(sh, s, c);
      ChunksDoNotMatter(sh, Turn(sh, s, c), rs[1..]);
    }
  }

  // ----- what reaches the terminal -----

  /** Bytes of the open segment that have not been written yet. */
  function Pending(s: Session): string {
    if s.shown then "" else s.open
  }

  /** Bytes of the open segment that have. */
  function Ahead(s: Session): string {
    if s.shown then s.open else ""
  }

  /** Nothing is cut out of the first n bytes. */
  predicate LateEats(ps: seq<Piece>, n: int) {
    ps != [] ==> (ps[0].Eaten? ==> n <= 0) && LateEats(ps[1..], n - |ps[0].bytes|)
  }

  /** No announcement is cut out that starts in bytes already written. */
  ghost predicate LateTurn(sh: Shell, s: Session, chunk: string) {
    LateEats(Scan<Live>(Shellwise(sh), s.core, s.open, chunk).pieces, |Ahead(s)|)
  }

  lemma {:induction false} LateKeeps(ps: seq<Piece>, tail: string, n: nat)
    requires LateEats(ps, n) && n <= |AllOf(ps) + tail|
    ensures n <= |KeptOf(ps) + tail| && (KeptOf(ps) + tail)[..n] == (AllOf(ps) + tail)[..n]
    ensures n <= |AllOf(ps)| ==> n <= |KeptOf(ps)|
    decreases |ps|
  {
    if ps != [] && n > 0 {
      var p := ps[0];
      assert KeptOf(ps) + tail == p.bytes + (KeptOf(ps[1..]) + tail);
      assert AllOf(ps) + tail == p.bytes + (AllOf(ps[1..]) + tail);
      if n > |p.bytes| {
        LateKeeps(ps[1..], tail, n - |p.bytes|);
      }
    }
  }

  lemma {:induction false} LateNone(ps: seq<Piece>, n: int)
    requires n <= 0
    ensures LateEats(ps, n)
    decreases |ps|
  {
    if ps != [] {
      LateNone(ps[1..], n - |ps[0].bytes|);
    }
  }

  lemma LateFirst(p: Piece, ps: seq<Piece>, n: int)
    requires LateEats(ps, n - |p.bytes|) && (p.Eaten? ==> n <= 0)
    ensures LateEats([p] + ps, n)
  {
    assert ([p] + ps)[1..] == ps;
  }

  lemma OpensBefore(w: string, n: nat)
    requires IsPwd(w) && n < |w|
    ensures Opens(Pattern(NewPwd), w[..n])
  {
    hide Pattern, Word;
    PwdIsWord(w);
    assert w[..n] + w[n..] == w;
  }

  lemma EatenIsPwd(sh: Shell, s: Live, w: string)
    requires w != "" && React(sh, s, w).Done? && React(sh, s, w).eaten
    ensures IsPwd(w)
  {
    hide Group, Handle, Alive, Completed;
    PwdIsWord(w);
  }

  /** In the first n bytes no sequence completes and no announcement has begun. */
  ghost predicate Clear(sh: Shell, text: string, n: nat)
    requires n <= |text|
  {
    && (forall i, j :: 0 <= i < j <= n ==> Fires(Group(sh, AtPrompt), text[i..j]) == None)
    && (forall i, j :: 0 <= i < n == j ==> !Opens(Pattern(NewPwd), text[i..j]))
  }

  lemma ClearTail(sh: Shell, text: string, n: nat)
    requires 0 < n <= |text| && Clear(sh, text, n)
    ensures Clear(sh, text[1..], n - 1)
  {
    hide Group, Fires, Pattern, Opens;
    assert forall i, j :: 0 <= i <= j <= n - 1 ==> text[1..][i..j] == text[i + 1..j + 1];
  }

  lemma DoneClear(sh: Shell, s: Live, w: string, text: string, n: nat)
    requires s.pl == AtPrompt && w != "" && w <= text && n <= |text| && Clear(sh, text, n)
    requires React(sh, s, w).Done?
    ensures |w| > n && (React(sh, s, w).eaten ==> n == 0)
  {
    hide Group, Fires, Pattern, Opens, Word, Alive, Completed, Handle, IsPwd;
    assert |w| > n by {
      assert text[0..|w|] == w;
    }
    if React(sh, s, w).eaten {
      EatenIsPwd(sh, s, w);
      OpensBefore(w, n);
      assert w[..n] == text[0..n];
    }
  }

  /** Nothing that starts in the clear is cut out. */
  lemma {:induction false} CutsLate(sh: Shell, s: Live, seg: string, inp: string, n: nat)
    requires s.pl == AtPrompt && n <= |seg + inp| && Clear(sh, seg + inp, n)
    ensures LateEats(Scan<Live>(Shellwise(sh), s, seg, inp).pieces, n)
    decreases |seg| + |inp|, |inp|
  {
    hide Clear, LateEats, React;
    var m, text := Shellwise(sh), seg + inp;
    if inp == "" {
      LateNothing(n);
    } else if n == 0 {
      LateNone(Scan<Live>(m, s, seg, inp).pieces, n);
    } else {
      var w := seg + [inp[0]];
      assert text == w + inp[1..] && m(s, w) == React(sh, s, w);
      ReactKeepsLevel(sh, s, w);
      match m(s, w)
      case Done(t, k, eaten) =>
        DoneClear(sh, s, w, text, n);
        var rest := Scan<Live>(m, t, "", w[k..] + inp[1..]).pieces;
        LateNone(rest, n - k);
        LateFirst(PieceOf(m(s, w), w), rest, n);
      case Grow(t) =>
        CutsLate(sh, t, w, inp[1..], n);
      case Drop(t) =>
        ClearTail(sh, text, n);
        assert "" + (w[1..] + inp[1..]) == text[1..];
        CutsLate(sh, t, "", w[1..] + inp[1..], n - 1);
        LateFirst(PieceOf(m(s, w), w), Scan<Live>(m, t, "", w[1..] + inp[1..]).pieces, n);
    }
  }

  /** Only a completed sequence changes the process level. */
  lemma ReactKeepsLevel(sh: Shell, s: Live, w: string)
    requires w != ""
    ensures !React(sh, s, w).Done? ==> React(sh, s, w).next.pl == s.pl
  {
    hide Group, Fires, Alive, Completed, Handle;
  }

  lemma LateNothing(n: int)
    ensures LateEats([], n)
  {
  }

  lemma QuietClear(sh: Shell, h: string, text: string)
    requires Alive(Group(sh, AtPrompt), h) && h <= text && Quiet(h)
    ensures Clear(sh, text, |h|)
  {
    hide Group, Fires, Alive, Pattern, Opens, Quiet;
    QuietIff(sh, h);
    forall i, j | 0 <= i < j <= |h| ensures Fires(Group(sh, AtPrompt), text[i..j]) == None {
      NothingInside(sh, h, i, j);
      assert text[i..j] == h[i..j];
    }
    forall i, j | 0 <= i < |h| == j ensures !Opens(Pattern(NewPwd), text[i..j]) {
      assert text[i..j] == h[i..];
    }
  }

  /** While the bytes already written are quiet, nothing is cut out of them, whatever
      comes next. */
  lemma QuietIsLate(sh: Shell, s: Session, chunk: string)
    requires Steady(sh, s) && Quiet(Ahead(s))
    ensures LateTurn(sh, s, chunk)
  {
    hide Group, Fires, Alive, Scan, Pattern, Word, Opens, LateEats, Quiet;
    var h, text := Ahead(s), s.open + chunk;
    if h == "" {
      LateNone(Scan<Live>(Shellwise(sh), s.core, s.open, chunk).pieces, 0);
    } else {
      QuietClear(sh, h, text);
      CutsLate(sh, s.core, s.open, chunk, |h|);
    }
  }

  /** Leaving the prompt takes the scan past whatever was already written. */
  lemma {:induction false} PastTheWritten(sh: Shell, s: Live, seg: string, inp: string, n: nat)
    requires s.pl == AtPrompt && n <= |seg + inp| && Clear(sh, seg + inp, n)
    ensures var r := Scan<Live>(Shellwise(sh), s, seg, inp);
            r.state.pl == AtPrompt || n <= |AllOf(r.pieces)|
    decreases |seg| + |inp|, |inp|
  {
    hide Clear, React, AllOf;
    if inp != "" {
      var m, w, text := Shellwise(sh), seg + [inp[0]], seg + inp;
      assert text == w + inp[1..] && m(s, w) == React(sh, s, w);
      ReactKeepsLevel(sh, s, w);
      match m(s, w)
      case Done(t, k, eaten) =>
        DoneClear(sh, s, w, text, n);
        AllOfFirst(PieceOf(m(s, w), w), Scan<Live>(m, t, "", w[k..] + inp[1..]).pieces);
      case Grow(t) =>
        PastTheWritten(sh, t, w, inp[1..], n);
      case Drop(t) =>
        assert "" + (w[1..] + inp[1..]) == text[1..];
        if n > 0 {
          ClearTail(sh, text, n);
          PastTheWritten(sh, t, "", w[1..] + inp[1..], n - 1);
        }
        AllOfFirst(PieceOf(m(s, w), w), Scan<Live>(m, t, "", w[1..] + inp[1..]).pieces);
    }
  }

  lemma AllOfFirst(p: Piece, ps: seq<Piece>)
    ensures AllOf([p] + ps) == p.bytes + AllOf(ps)
  {
    assert ([p] + ps)[1..] == ps;
  }

  /** Settling moves a lone space from the open segment to the pieces. */
  lemma SettledSame(q: Scanned<Live>)
    ensures KeptOf(Settled(q).pieces) + Settled(q).open == KeptOf(q.pieces) + q.open
    ensures AllOf(Settled(q).pieces) + Settled(q).open == AllOf(q.pieces) + q.open
  {
    KeptOfAppend(q.pieces, [Kept(" ")]);
    AllOfAppend(q.pieces, [Kept(" ")]);
  }

  /** What was already written is still at the front of the buffer... */
  lemma HeadSurvives(sh: Shell, s: Session, chunk: string)
    requires LateTurn(sh, s, chunk)
    ensures Ahead(s) <= KeptOf(TurnScan(sh, s, chunk).pieces) + TurnScan(sh, s, chunk).open
  {
    var q := Scan<Live>(Shellwise(sh), s.core, s.open, chunk);
    ScanCovers<Live>(Shellwise(sh), s.core, s.open, chunk);
    hide Scan, Settled;
    LateKeeps(q.pieces, q.open, |Ahead(s)|);
    assert (s.open + chunk)[..|Ahead(s)|] == Ahead(s);
    SettledSame(q);
  }

  /** ...and stays there when the rest of it is held back. */
  lemma HeadKept(sh: Shell, s: Session, chunk: string)
    requires Steady(sh, s) && Quiet(Ahead(s)) && TurnScan(sh, s, chunk).state.pl != AtPrompt
    ensures |Ahead(s)| <= |KeptOf(TurnScan(sh, s, chunk).pieces)|
  {
    hide Group, Fires, Alive, Scan, Pattern, Word, Opens, LateEats, Quiet;
    QuietIsLate(sh, s, chunk);
    var h, text := Ahead(s), s.open + chunk;
    var q := Scan<Live>(Shellwise(sh), s.core, s.open, chunk);
    ScanCovers<Live>(Shellwise(sh), s.core, s.open, chunk);
    if h != "" {
      QuietClear(sh, h, text);
      PastTheWritten(sh, s.core, s.open, chunk, |h|);
      LateKeeps(q.pieces, q.open, |h|);
    }
  }

  /** Every write fits the buffer, and what the terminal has seen and will see is the
      bytes read without the announcements. */
  ghost predicate Conserves(sh: Shell, s: Session, chunk: string) {
    var r, o := TurnScan(sh, s, chunk), Output(sh, s, chunk);
    o.Some? && Ahead(s) + o.value + Pending(Turn(sh, s, chunk)) == KeptOf(r.pieces) + r.open
  }

  /** While what was already written is quiet, any read conserves. */
  lemma TurnConserves(sh: Shell, s: Session, chunk: string)
    requires Steady(sh, s) && Quiet(Ahead(s))
    ensures Conserves(sh, s, chunk)
  {
    hide TurnScan, Steady, LateTurn, Quiet;
    QuietIsLate(sh, s, chunk);
    var r := TurnScan(sh, s, chunk);
    HeadSurvives(sh, s, chunk);
    if r.state.pl != AtPrompt {
      HeadKept(sh, s, chunk);
    }
    SkipHead(Ahead(s), Buffered(r), KeptOf(r.pieces) + r.open, Pending(Turn(sh, s, chunk)));
  }

  lemma SkipHead(h: string, text: string, all: string, pending: string)
    requires h <= all && text + pending == all && |h| <= |text|
    ensures Shown(text, |h|).Some? && h + Shown(text, |h|).value + pending == all
  {
    assert text == h + text[|h|..];
  }

  /** What is held over and already written is quiet before every read. */
  ghost predicate QuietRun(sh: Shell, s: Session, rs: seq<Read>)
    decreases |rs|
  {
    rs != [] ==> Quiet(Ahead(s)) && QuietRun(sh, Turn(sh, Expecting(s, rs[0]), rs[0].bytes), rs[1..])
  }

  lemma TurnOpen(sh: Shell, s: Session, chunk: string)
    ensures TurnScan(sh, s, chunk).open == Turn(sh, s, chunk).open
  {
  }

  lemma TurnCovers(sh: Shell, s: Session, chunk: string)
    ensures AllOf(TurnScan(sh, s, chunk).pieces) + TurnScan(sh, s, chunk).open == s.open + chunk
  {
    ScanCovers<Live>(Shellwise(sh), s.core, s.open, chunk);
    SettledSame(Scan<Live>(Shellwise(sh), s.core, s.open, chunk));
  }

  /** Two reads' accounts joined: what is open between them, `ahead` or `pending`, cancels. */
  lemma Joined(a: string, o: string, k: string, ahead: string, pending: string, o': string, p': string, k': string, e: string)
    requires ahead == "" || pending == ""
    requires a + o + pending == k + (ahead + pending)
    requires ahead + o' + p' == k' + e
    ensures a + (o + o') + p' == (k + k') + e
  {
    var x := a + o;
    if ahead == "" {
      assert k + (ahead + pending) == k + pending;
      assert x == (x + pending)[..|k|] && k == (k + pending)[..|k|];
      assert ahead + o' + p' == o' + p';
    } else {
      assert x + pending == x && k + (ahead + pending) == k + ahead;
    }
    assert x == k + ahead;
    assert a + (o + o') + p' == x + (o' + p');
    assert (k + ahead) + (o' + p') == k + (ahead + o' + p');
    assert k + (k' + e) == (k + k') + e;
  }

  lemma OneSided(s: Session)
    ensures Ahead(s) + Pending(s) == s.open == Ahead(s) + "" + Pending(s) && (Ahead(s) == "" || Pending(s) == "")
  {
  }

  /** Conservation over a run: the terminal is written every byte read, in order, except
      exactly the pieces cut out. */
  lemma {:induction false} RunConserves(sh: Shell, s: Session, rs: seq<Read>)
    requires Steady(sh, s) && QuietRun(sh, s, rs)
    ensures var run := RunOf(sh, s, rs);
            && run.whole && Steady(sh, run.end)
            && Ahead(s) + run.out + Pending(run.end) == KeptOf(run.pieces) + run.end.open
    decreases |rs|
  {
    hide Turn, TurnScan, Output, Steady, Quiet, Ahead, Pending, KeptOf, Expecting;
    BeforeNothing(Scanned(s.core, s.open, []));
    OneSided(s);
    if rs != [] {
      var now, c := Expecting(s, rs[0]), rs[0].bytes;
      ExpectingSteady(sh, s, rs[0]);
      var r, t, o := TurnScan(sh, now, c), Turn(sh, now, c), Output(sh, now, c);
      TurnConserves(sh, now, c);
      TurnSteady(sh, now, c);
      TurnOpen(sh, now, c);
      RunConserves(sh, t, rs[1..]);
      var rest := RunOf(sh, t, rs[1..]);
      KeptOfAppend(r.pieces, rest.pieces);
      OneSided(t);
      Joined(Ahead(s), o.value, KeptOf(r.pieces), Ahead(t), Pending(t),
             rest.out, Pending(rest.end), KeptOf(rest.pieces), rest.end.open);
    }
  }

  lemma SameEnds(a: string, o: string, o': string, p: string)
    requires a + o + p == a + o' + p
    ensures o == o'
  {
    assert |o| == |o'|;
    assert (a + o + p)[|a|..|a| + |o|] == o && (a + o' + p)[|a|..|a| + |o|] == o';
  }

  /** Nor do the cuts change what is written: a run writes what a single read would. */
  lemma WritesDoNotMatter(sh: Shell, s: Session, rs: seq<Read>)
    requires rs != [] && CleanCuts(sh, s, rs) && Undisturbed(s, rs)
    requires Steady(sh, s) && QuietRun(sh, s, rs)
    ensures RunOf(sh, s, rs).whole && Output(sh, s, Concat(rs)) == Some(RunOf(sh, s, rs).out)
  {
    hide RunOf, Turn, TurnScan, Output, Steady, Quiet, CleanCuts, Concat, Expecting;
    var all, run := Concat(rs), RunOf(sh, s, rs);
    RunConserves(sh, s, rs);
    ChunksDoNotMatter(sh, s, rs);
    TurnConserves(sh, s, all);
    TurnOpen(sh, s, all);
    SameEnds(Ahead(s), run.out, Output(sh, s, all).value, Pending(run.end));
  }

  lemma Reassociated(o: string, c: string, cs: string, a: string, t: string, a': string, e: string)
    requires a + t == o + c && t + cs == a' + e
    ensures o + (c + cs) == (a + a') + e
  {
    assert o + (c + cs) == (a + t) + cs == a + (t + cs);
  }

  /** The pieces of a run, and the segment still open, are the bytes read. */
  lemma {:induction false} RunCovers(sh: Shell, s: Session, rs: seq<Read>)
    ensures var run := RunOf(sh, s, rs);
            s.open + Concat(rs) == AllOf(run.pieces) + run.end.open
    decreases |rs|
  {
    hide Turn, TurnScan, Output, Expecting;
    if rs == [] {
      assert s.open + "" == s.open;
    } else {
      var now, c := Expecting(s, rs[0]), rs[0].bytes;
      ExpectingSteady(sh, s, rs[0]);
      TurnCovers(sh, now, c);
      TurnOpen(sh, now, c);
      var r, t := TurnScan(sh, now, c), Turn(sh, now, c);
      RunCovers(sh, t, rs[1..]);
      var rest := RunOf(sh, t, rs[1..]);
      AllOfAppend(r.pieces, rest.pieces);
      Reassociated(s.open, c, Concat(rs[1..]), AllOf(r.pieces), t.open, AllOf(rest.pieces), rest.end.open);
    }
  }

  /** Every piece cut out of a run is one complete directory announcement. */
  lemma {:induction false} OnlyAnnouncementsCut(sh: Shell, s: Session, rs: seq<Read>)
    ensures forall p :: p in RunOf(sh, s, rs).pieces && p.Eaten? ==> IsPwd(p.bytes)
    decreases |rs|
  {
    hide Turn, Output, Expecting, IsPwd;
    if rs != [] {
      var now := Expecting(s, rs[0]);
      TurnCuts(sh, now, rs[0].bytes);
      hide TurnScan;
      OnlyAnnouncementsCut(sh, Turn(sh, now, rs[0].bytes), rs[1..]);
    }
  }

  lemma TurnCuts(sh: Shell, s: Session, chunk: string)
    ensures forall p :: p in TurnScan(sh, s, chunk).pieces && p.Eaten? ==> IsPwd(p.bytes)
  {
    hide Group, Handle, Alive, Completed, Scan;
    forall t: Live, w: string | w != "" && React(sh, t, w).Done? && React(sh, t, w).eaten ensures IsPwd(w) {
      EatenIsPwd(sh, t, w);
    }
    EatenAre<Live>(Shellwise(sh), w => IsPwd(w), s.core, s.open, chunk);
  }
}
