/** What scanning a shell's output means, with no sequence positions and no buffer: at
    each level the open segment grows until some sequence's language contains it, or
    until none can any more. */
module ShellMachine {
  import opened Bytes
  import opened Patterns
  import opened CmdLines
  import opened Connections
  import opened Sequences
  import opened Scanning

  /** The first sequence of the group of which `w` is a word. */
  ghost function Fires(g: seq<SeqId>, w: string): (r: Option<SeqId>)
    ensures r.Some? ==> r.value in g && Word(Pattern(r.value), w)
    ensures r.None? ==> forall id :: id in g ==> !Word(Pattern(id), w)
  {
    if g == [] then None
    else if Word(Pattern(g[0]), w) then Some(g[0])
    else Fires(g[1..], w)
  }

  /** Some sequence of the group could still complete. */
  ghost predicate Alive(g: seq<SeqId>, w: string) {
    exists id :: id in g && Opens(Pattern(id), w)
  }

  type Live = s: Core | Ok(s.cmd) witness Core(Executing, SsExecuting, BLANK)

  /** The reaction to a completed segment. */
  function Completed(sh: Shell, id: SeqId, s: Live, w: string): Live
    requires w != "" && (PeeksOne(id) || id == NewPwd ==> |w| >= 2)
  {
    var o := Handle(sh, id, s.cmd, w);
    Reacted(o.effect, s.(cmd := o.cmd))
  }

  /** A byte no sequence wants is typed into the line, at the prompt. */
  function Typed(s: Live, c: char): Live {
    if s.pl == AtPrompt then s.(cmd := Overwritten(s.cmd, c)) else s
  }

  function Trim(s: Live): Live {
    s.(cmd := Trimmed(s.cmd))
  }

  lemma WordLength(p: string, w: string)
    requires Word(p, w) && p != ""
    ensures w != ""
    ensures |p| >= 2 && !IsRun(p[0]) ==> |w| >= 2
  {
  }

  lemma LongEnough(id: SeqId, w: string)
    requires Word(Pattern(id), w)
    ensures w != "" && (PeeksOne(id) || id == NewPwd ==> |w| >= 2)
  {
    WordLength(Pattern(id), w);
  }

  ghost function React(sh: Shell, s: Live, w: string): (r: Reaction<Live>)
    ensures r.Done? && w != "" ==> 1 <= r.taken && |w| - 1 <= r.taken <= |w| && (r.eaten ==> r.taken == |w|)
  {
    var g := Group(sh, s.pl);
    if Fires(g, w).Some? then
      var id := Fires(g, w).value;
      LongEnough(id, w);
      var o := Handle(sh, id, Trim(s).cmd, w);
      Done(Completed(sh, id, Trim(s), w), o.taken, o.eaten)
    else if Alive(g, w) || w == "" then Grow(Trim(s))
    else Drop(Typed(Trim(s), w[0]))
  }

  /** The reaction, by what the group makes of the segment. */
  lemma ReactCases(sh: Shell, s: Live, w: string)
    requires w != ""
    ensures var g, k := Group(sh, s.pl), React(sh, s, w);
            match Fires(g, w)
            case Some(id) =>
              && (PeeksOne(id) || id == NewPwd ==> |w| >= 2)
              && k == Done(Completed(sh, id, Trim(s), w), Handle(sh, id, Trim(s).cmd, w).taken,
                           Handle(sh, id, Trim(s).cmd, w).eaten)
            case None => k == if Alive(g, w) then Grow(Trim(s)) else Drop(Typed(Trim(s), w[0]))
  {
    hide Group, Pattern, Handle, Reacted, Alive;
    if Fires(Group(sh, s.pl), w).Some? {
      LongEnough(Fires(Group(sh, s.pl), w).value, w);
    }
  }

  ghost function Shellwise(sh: Shell): (m: Machine<Live>)
    ensures Progressive(m)
    ensures forall s, w :: m(s, w) == React(sh, s, w)
  {
    (s: Live, w: string) => React(sh, s, w)
  }

  /** An open segment is always one that some sequence of its level could complete. */
  lemma OpenIsAlive(sh: Shell, s: Live, seg: string, inp: string)
    requires seg == "" || Alive(Group(sh, s.pl), seg)
    ensures var r := Scan<Live>(Shellwise(sh), s, seg, inp);
            r.open == "" || Alive(Group(sh, r.state.pl), r.open)
  {
    hide Group, Alive, Fires, Completed, Trimmed, Typed, Handle;
    var live := (t: Live, w: string) => Alive(Group(sh, t.pl), w);
    forall t: Live, w: string | w != "" && React(sh, t, w).Grow? ensures live(React(sh, t, w).next, w) {
    }
    OpenGrows<Live>(Shellwise(sh), live, s, seg, inp);
  }

  // ----- the scan, segment by segment -----

  /** No beginning of `inp` shorter than n bytes is a word of the level, but each may yet
      become one. */
  ghost predicate Undecided(g: seq<SeqId>, inp: string, n: nat) {
    forall j :: 0 < j < n && j <= |inp| ==> Fires(g, inp[..j]) == None && Alive(g, inp[..j])
  }

  /** The least length at which a segment is decided, or the length of what there is. */
  lemma {:induction false} Decided(g: seq<SeqId>, inp: string, k: nat) returns (n: nat)
    requires 1 <= k <= |inp| && Undecided(g, inp, k)
    ensures 1 <= n <= |inp| && Undecided(g, inp, n)
    ensures n == |inp| || Fires(g, inp[..n]).Some? || !Alive(g, inp[..n])
    decreases |inp| - k
  {
    hide Fires, Alive;
    if k == |inp| || Fires(g, inp[..k]).Some? || !Alive(g, inp[..k]) {
      n := k;
    } else {
      n := Decided(g, inp, k + 1);
    }
  }

  lemma TrimTwice(s: Live)
    ensures Trim(Trim(s)) == Trim(s)
  {
    TrimmedTwice(s.cmd);
  }

  /** Until then nothing happens but that the segment grows and the line is trimmed. */
  lemma {:induction false} ScanGrown(sh: Shell, s: Live, inp: string, n: nat)
    requires n <= |inp| && Undecided(Group(sh, s.pl), inp, n + 1)
    ensures Scan<Live>(Shellwise(sh), s, "", inp)
            == Scan<Live>(Shellwise(sh), if n == 0 then s else Trim(s), inp[..n], inp[n..])
    decreases n
  {
    hide Group, Fires, Alive, Scan, Shellwise, React, Trimmed;
    if n == 0 {
      assert inp[..0] == "" && inp[0..] == inp;
    } else {
      var t := if n == 1 then s else Trim(s);
      ScanGrown(sh, s, inp, n - 1);
      TrimTwice(s);
      ReactCases(sh, t, inp[..n]);
      assert inp[..n - 1] + [inp[n - 1..][0]] == inp[..n] && inp[n - 1..][1..] == inp[n..];
      ScanGrows<Live>(Shellwise(sh), t, inp[..n - 1], inp[n - 1..], React(sh, t, inp[..n]));
    }
  }

  /** A whole scan, one segment at a time: the segment is the shortest beginning of the
      input that is decided.  If it is a word, the first sequence listed of which it is one
      is completed, and what it leaves is scanned next; if nothing can come of it, its first
      byte goes; and an input that is never decided stays open. */
  lemma EarliestFirst(sh: Shell, s: Live, inp: string) returns (n: nat)
    requires inp != ""
    ensures 1 <= n <= |inp| && Undecided(Group(sh, s.pl), inp, n)
    ensures n == |inp| || Fires(Group(sh, s.pl), inp[..n]).Some? || !Alive(Group(sh, s.pl), inp[..n])
    ensures var g, m, w := Group(sh, s.pl), Shellwise(sh), inp[..n];
            match Fires(g, w)
            case Some(id) =>
              && Word(Pattern(id), w) && (PeeksOne(id) || id == NewPwd ==> n >= 2)
              && var o := Handle(sh, id, Trim(s).cmd, w);
              && n - 1 <= o.taken <= n
              && Scan<Live>(m, s, "", inp)
                 == Then(if o.eaten then Eaten(w) else Kept(inp[..o.taken]),
                         Scan<Live>(m, Completed(sh, id, Trim(s), w), "", inp[o.taken..]))
            case None =>
              Scan<Live>(m, s, "", inp)
              == if !Alive(g, w) then Then(Kept([inp[0]]), Scan<Live>(m, Typed(Trim(s), inp[0]), "", inp[1..]))
                 else Scanned(Trim(s), inp, [])
  {
    hide Group, Fires, Alive, Scan, Shellwise, React, Trimmed, Handle, Completed, Typed, Word, Pattern;
    n := Decided(Group(sh, s.pl), inp, 1);
    SegmentNext(sh, s, inp, n);
    AllScanned(sh, Trim(s), inp[..n]);
    assert n == |inp| ==> inp[..n] == inp && inp[n..] == "";
  }

  lemma AllScanned(sh: Shell, s: Live, seg: string)
    ensures Scan<Live>(Shellwise(sh), s, seg, "") == Scanned(s, seg, [])
  {
  }

  lemma SegmentNext(sh: Shell, s: Live, inp: string, n: nat)
    requires 1 <= n <= |inp| && Undecided(Group(sh, s.pl), inp, n)
    ensures var g, m, w := Group(sh, s.pl), Shellwise(sh), inp[..n];
            match Fires(g, w)
            case Some(id) =>
              && Word(Pattern(id), w) && (PeeksOne(id) || id == NewPwd ==> n >= 2)
              && var o := Handle(sh, id, Trim(s).cmd, w);
              && n - 1 <= o.taken <= n
              && Scan<Live>(m, s, "", inp)
                 == Then(if o.eaten then Eaten(w) else Kept(inp[..o.taken]),
                         Scan<Live>(m, Completed(sh, id, Trim(s), w), "", inp[o.taken..]))
            case None =>
              Scan<Live>(m, s, "", inp)
              == if !Alive(g, w) then Then(Kept([inp[0]]), Scan<Live>(m, Typed(Trim(s), inp[0]), "", inp[1..]))
                 else Scan<Live>(m, Trim(s), w, inp[n..])
  {
    hide Group, Fires, Alive, Scan, Shellwise, React, Trimmed, Handle, Completed, Typed, Word, Pattern;
    var m, w, t := Shellwise(sh), inp[..n], if n == 1 then s else Trim(s);
    ScanGrown(sh, s, inp, n - 1);
    TrimTwice(s);
    ReactCases(sh, t, w);
    assert inp[..n - 1] + [inp[n - 1..][0]] == w && inp[n - 1..][1..] == inp[n..];
    var k := React(sh, t, w);
    if k.Grow? {
      ScanGrows<Live>(m, t, inp[..n - 1], inp[n - 1..], k);
    } else {
      ScanOne<Live>(m, t, inp[..n - 1], inp[n - 1..], k);
      RestOf(inp, n, if k.Done? then k.taken else 1);
    }
  }

  lemma RestOf(inp: string, n: nat, k: nat)
    requires k <= n <= |inp|
    ensures inp[..n][k..] + inp[n..] == inp[k..] && inp[..n][..k] == inp[..k]
  {
  }

  /** At the prompt, a space alone is taken to be typed, not the start of a wrap. */
  ghost function Settled(r: Scanned<Live>): Scanned<Live> {
    if r.state.pl == AtPrompt && r.open == " "
    then Scanned(Typed(r.state, ' '), "", r.pieces + [Kept(" ")])
    else r
  }

  /** What of a settled scan is in the buffer: an open segment stays only at the prompt. */
  ghost function Buffered(r: Scanned<Live>): string {
    KeptOf(r.pieces) + if r.state.pl == AtPrompt then r.open else ""
  }

  /** What a connection writes: `text` but for its first `skip` bytes. */
  ghost function Shown(text: string, skip: nat): Option<string> {
    if text == "" then Some("") else if skip > |text| then None else Some(text[skip..])
  }
}
