/** The scanner itself: a table of sequence positions shared by every level, run over
    the connection's buffer in place.  Its meaning is the machine of `ShellMachine`. */
module Scanner {
  import opened Bytes
  import opened Patterns
  import opened CmdLines
  import opened Connections
  import opened Sequences
  import opened Scanning
  import opened ShellMachine

  /** Every sequence of the group holds what feeding it `w` from the start leaves, and
      `w` has completed none of them. */
  ghost predicate Tracks(st: map<SeqId, SeqState>, g: seq<SeqId>, w: string) {
    forall id :: id in g ==> id in st && TracksOne(st[id], id, w)
  }

  ghost predicate TracksOne(s: SeqState, id: SeqId, w: string) {
    WellFormed(Pattern(id)) && s == After(Pattern(id), w) && Unmatched(Pattern(id), w)
  }

  /** Every sequence of the group stands at its start. */
  ghost predicate Rewound(st: map<SeqId, SeqState>, g: seq<SeqId>) {
    forall id :: id in g ==> id in st && st[id].pos == 0
  }

  ghost predicate Sound(st: map<SeqId, SeqState>) {
    forall id: SeqId :: id in st && SoundOne(st[id], id)
  }

  ghost predicate SoundOne(s: SeqState, id: SeqId) {
    WellFormed(Pattern(id)) && s.pos < |Pattern(id)| && (!s.enabled ==> s.pos == 0)
  }

  const EVERY_SEQ: set<SeqId> := {
    Ps1Separator, RpromptStart, RpromptEnd, NewPwd, ZshCompletionDone, CmdWrapped, CarriageReturn, Newline,
    Backspace, CursorForward, CursorBackward, CursorUp, EraseInLine, DeleteChars, InsertBlanks, Bell
  }

  class SeqTable {
    var st: map<SeqId, SeqState>

    constructor ()
      ensures Sound(st) && forall id: SeqId :: st[id] == DISABLED
    {
      st := map id | id in EVERY_SEQ :: DISABLED;
      new;
      forall id: SeqId ensures id in st && SoundOne(DISABLED, id) {
        PatternsWellFormed(id);
      }
    }

    method DisableSeq(id: SeqId)
      requires Sound(st)
      modifies this
      ensures Sound(st) && st == old(st)[id := DISABLED]
    {
      assert SoundOne(st[id], id);
      st := st[id := DISABLED];
    }

    /** Only the position goes back; a disabled sequence stays disabled. */
    method ClearSeq(id: SeqId)
      requires Sound(st)
      modifies this
      ensures Sound(st) && st == old(st)[id := old(st)[id].(pos := 0)]
    {
      assert SoundOne(st[id], id);
      st := st[id := st[id].(pos := 0)];
    }

    /** One byte through one sequence. */
    method CheckSeq(c: char, id: SeqId) returns (result: Status)
      requires Sound(st)
      modifies this
      ensures Sound(st) && st == old(st)[id := st[id]]
      ensures (result, st[id]) == Feed(Pattern(id), old(st[id]), c)
    {
      hide Pattern;
      var p, pos := Pattern(id), st[id].pos;
      assert SoundOne(st[id], id);
      FeedSound(id, st[id], c);
      if !st[id].enabled {
        return NoMatch;
      }
      if IsRun(p[pos]) {
        if InRun(p[pos], c) {
          return InProgress;
        } else if p[pos + 1] == c {
          pos := pos + 2;
        } else {
          DisableSeq(id);
          return NoMatch;
        }
      } else if Accepts(p[pos], c) {
        pos := pos + 1;
      } else {
        DisableSeq(id);
        return NoMatch;
      }
      result := InProgress;
      if pos == |p| {
        pos := 0;
        result := Match;
      }
      st := st[id := SeqState(pos, true)];
    }

    method EnableAll(g: seq<SeqId>)
      requires Sound(st) && Rewound(st, g)
      modifies this
      ensures Sound(st) && Tracks(st, g, "")
    {
      hide Pattern;
      for i := 0 to |g|
        invariant Sound(st) && Rewound(st, g)
        invariant forall j :: 0 <= j < i ==> st[g[j]] == FRESH
      {
        st := st[g[i] := st[g[i]].(enabled := true)];
      }
      forall id | id in g ensures TracksOne(st[id], id, "") {
        assert SoundOne(st[id], id);
      }
    }

    method DisableAll(g: seq<SeqId>)
      requires Sound(st)
      modifies this
      ensures Sound(st) && Rewound(st, g)
    {
      hide Pattern;
      for i := 0 to |g|
        invariant Sound(st)
        invariant forall j :: 0 <= j < i ==> st[g[j]] == DISABLED
      {
        DisableSeq(g[i]);
      }
    }

    method ClearAll(g: seq<SeqId>)
      requires Sound(st)
      modifies this
      ensures Sound(st) && Rewound(st, g)
    {
      hide Pattern;
      for i := 0 to |g|
        invariant Sound(st)
        invariant forall j :: 0 <= j < i ==> st[g[j]].pos == 0
      {
        ClearSeq(g[i]);
      }
    }
  }

  lemma FeedSound(id: SeqId, s: SeqState, c: char)
    requires SoundOne(s, id)
    ensures SoundOne(Feed(Pattern(id), s, c).1, id)
  {
    var p := Pattern(id);
    if IsRun(p[s.pos]) {
      assert s.pos < |p| - 1;
    }
  }

  lemma GroupDistinct(sh: Shell, pl: Level)
    ensures forall i, j :: 0 <= i < j < |Group(sh, pl)| ==> Group(sh, pl)[i] != Group(sh, pl)[j]
  {
  }

  lemma FeedIs(p: string, seg: string, c: char)
    requires WellFormed(p)
    ensures var (r, t) := Feed(p, After(p, seg), c);
            && r == Report(p, seg + [c]) && t == After(p, seg + [c]) && (r == NoMatch ==> t.pos == 0)
  {
    assert (seg + [c])[..|seg|] == seg;
  }

  lemma StillUnmatched(p: string, seg: string, c: char)
    requires WellFormed(p) && Unmatched(p, seg)
    ensures Unmatched(p, (seg + [c])[..|seg|])
    ensures Report(p, seg + [c]) != Match ==> Unmatched(p, seg + [c])
  {
    hide Report;
    var w := seg + [c];
    assert w[..|seg|] == seg;
    forall n | 0 < n <= |w| && Report(p, w) != Match ensures Report(p, w[..n]) != Match {
      if n < |w| { assert w[..n] == seg[..n]; } else { assert w[..n] == w; }
    }
  }

  /** One more byte: the report is membership of the grown segment in the language. */
  lemma TracksStep(s: SeqState, id: SeqId, seg: string, c: char)
    requires TracksOne(s, id, seg)
    ensures SoundOne(s, id)
    ensures var (r, t) := Feed(Pattern(id), s, c);
            && (r == Match <==> Word(Pattern(id), seg + [c]))
            && (r == InProgress <==> Opens(Pattern(id), seg + [c]))
            && (r != Match ==> TracksOne(t, id, seg + [c]))
            && (r == NoMatch ==> t.pos == 0)
  {
    hide Pattern, Word, Opens, Feed, After, Report, Unmatched, WellFormed;
    var p := Pattern(id);
    FeedIs(p, seg, c);
    StillUnmatched(p, seg, c);
    Recognises(p, seg + [c]);
  }

  ghost function CoreOf(b: Connection, cmd: CmdLine): Core
    reads b, cmd
  {
    Core(b.pl, b.ss, cmd.Value())
  }

  lemma FirstFires(g: seq<SeqId>, i: nat, w: string)
    requires i < |g| && Word(Pattern(g[i]), w) && forall j :: 0 <= j < i ==> !Word(Pattern(g[j]), w)
    ensures Fires(g, w) == Some(g[i])
  {
    hide Pattern;
    if i > 0 {
      FirstFires(g[1..], i - 1, w);
    }
  }

  /** What a completed segment does to the buffer and to the core. */
  twostate predicate Fired(sh: Shell, id: SeqId, b: Connection, cmd: CmdLine)
    requires old(b.Valid() && b.pos + b.seglen < b.filled && Ok(cmd.Value()))
    requires old(PeeksOne(id) || id == NewPwd ==> b.seglen >= 1)
    reads b, b.buf, cmd
  {
    var o := old(Handle(sh, id, cmd.Value(), SegmentOf(b)));
    && b.Valid() && b.seglen == 0
    && CoreOf(b, cmd) == old(Completed(sh, id, CoreOf(b, cmd), SegmentOf(b)))
    && if o.eaten then b.pos == old(b.pos) && b.Text() == old(b.Text()[..b.pos] + b.Text()[b.pos + b.seglen + 1..])
       else b.pos == old(b.pos) + o.taken && b.Text() == old(b.Text())
  }

  /** Feed one byte to every sequence of a group, in order, up to the first that
      completes. */
  method FeedGroup(g: seq<SeqId>, c: char, table: SeqTable, ghost seg: string) returns (status: Status, hit: nat)
    requires Sound(table.st) && Tracks(table.st, g, seg)
    requires forall i, j :: 0 <= i < j < |g| ==> g[i] != g[j]
    modifies table
    ensures Sound(table.st)
    ensures status == Match <==> Fires(g, seg + [c]).Some?
    ensures status == Match ==> hit < |g| && Fires(g, seg + [c]) == Some(g[hit])
    ensures status == InProgress <==> Fires(g, seg + [c]).None? && Alive(g, seg + [c])
    ensures status == InProgress ==> Tracks(table.st, g, seg + [c])
    ensures status == NoMatch ==> Rewound(table.st, g)
  {
    hide Pattern, Word, Opens, TracksOne, SoundOne, Feed;
    hit := 0;
    status := NoMatch;
    ghost var w := seg + [c];
    for i := 0 to |g|
      invariant Sound(table.st) && status != Match
      invariant forall j :: 0 <= j < i ==> TracksOne(table.st[g[j]], g[j], w) && !Word(Pattern(g[j]), w)
      invariant forall j :: i <= j < |g| ==> TracksOne(table.st[g[j]], g[j], seg)
      invariant status == InProgress <==> exists j :: 0 <= j < i && Opens(Pattern(g[j]), w)
      invariant status == NoMatch ==> forall j :: 0 <= j < i ==> table.st[g[j]].pos == 0
    {
      TracksStep(table.st[g[i]], g[i], seg, c);
      var r := table.CheckSeq(c, g[i]);
      if r == Match {
        FirstFires(g, i, w);
        return Match, i;
      }
      if r == InProgress {
        status := InProgress;
      }
    }
  }

  /** Run the sequence the segment has completed. */
  method Complete(sh: Shell, id: SeqId, b: Connection, cmd: CmdLine)
    requires b.Valid() && b.pos + b.seglen < b.filled && Ok(cmd.Value())
    requires PeeksOne(id) || id == NewPwd ==> b.seglen >= 1
    modifies b`filled, b`pos, b`seglen, b`pl, b`ss, b.buf, cmd
    ensures Ok(cmd.Value()) && Fired(sh, id, b, cmd)
  {
    hide Handle, Reacted;
    ghost var core: Live := Completed(sh, id, CoreOf(b, cmd), SegmentOf(b));
    var effect := RunHandler(sh, id, b, cmd);
    AnalyzeEffect(effect, b, cmd);
    assert CoreOf(b, cmd) == core;
  }

  /** Examine the next byte of the segment; run the sequence it completes, if any. */
  method CheckSeqs(sh: Shell, b: Connection, cmd: CmdLine, table: SeqTable)
    requires b.Valid() && b.pos + b.seglen < b.filled && Ok(cmd.Value()) && Sound(table.st)
    requires Tracks(table.st, Group(sh, b.pl), b.Text()[b.pos..b.pos + b.seglen])
    modifies b`status, b`filled, b`pos, b`seglen, b`pl, b`ss, b.buf, cmd, table
    ensures b.Valid() && Ok(cmd.Value()) && Sound(table.st)
    ensures var g, w := old(Group(sh, b.pl)), old(SegmentOf(b));
            && (b.status == Match <==> Fires(g, w).Some?)
            && (b.status == InProgress <==> Fires(g, w).None? && Alive(g, w))
            && (b.status == InProgress ==> Tracks(table.st, g, w))
            && (b.status == NoMatch ==> Rewound(table.st, g))
    ensures b.status != Match ==> CoreOf(b, cmd) == old(CoreOf(b, cmd)) && b.pos == old(b.pos)
                                  && b.seglen == old(b.seglen) && b.Text() == old(b.Text())
    ensures b.status == Match ==>
              var id := Fires(old(Group(sh, b.pl)), old(SegmentOf(b))).value;
              old(PeeksOne(id) || id == NewPwd ==> b.seglen >= 1) && Fired(sh, id, b, cmd)
  {
    hide Pattern, Handle, Reacted, Fires, Tracks, Alive, Rewound, Sound, Word, Opens, Completed;
    var g := Group(sh, b.pl);
    GroupDistinct(sh, b.pl);
    hide Group;
    var c := b.buf[b.pos + b.seglen];
    ghost var seg := b.Text()[b.pos..b.pos + b.seglen];
    assert SegmentOf(b) == seg + [c];
    var status, hit := FeedGroup(g, c, table, seg);
    b.status := status;
    if status == Match {
      LongEnough(g[hit], seg + [c]);
      Complete(sh, g[hit], b, cmd);
    }
  }

  /** The table stands where the open segment has brought it. */
  ghost predicate Poised(sh: Shell, b: Connection, table: SeqTable, open: string)
    reads b`status, b`pl, table
  {
    && Sound(table.st)
    && (b.status == InProgress <==> open != "")
    && if open == "" then Rewound(table.st, Group(sh, b.pl)) else Tracks(table.st, Group(sh, b.pl), open)
  }

  ghost predicate Ready(sh: Shell, b: Connection, table: SeqTable, open: string)
    reads b, table
  {
    Poised(sh, b, table, open) && b.seglen == |open|
  }

  ghost function Seg(b: Connection): string
    requires b.Valid()
    reads b, b.buf
  {
    b.Text()[b.pos..b.pos + b.seglen]
  }

  /** The buffer after a reaction to `w`, which started at `pos` in `text`. */
  ghost predicate Moved(k: Reaction<Live>, w: string, text: string, pos: nat, text': string, pos': nat)
    requires pos + |w| <= |text|
  {
    if k.Done? && k.eaten then pos' == pos && text' == text[..pos] + text[pos + |w|..]
    else text' == text && pos' == pos + if k.Done? then k.taken else if k.Grow? then 0 else 1
  }

  /** No one wants the segment: let its first byte go, into the line at the prompt. */
  method LetGo(b: Connection, cmd: CmdLine)
    requires b.Valid() && b.pos + b.seglen < b.filled && Ok(cmd.Value())
    modifies b`pos, b`seglen, cmd
    ensures CoreOf(b, cmd) == Typed(old(CoreOf(b, cmd)), old(SegmentOf(b))[0])
    ensures b.Valid() && b.pos == old(b.pos) + 1 && b.seglen == 0
  {
    assert SegmentOf(b)[0] == b.buf[b.pos];
    if b.pl == AtPrompt {
      cmd.OverwriteChar(b.buf[b.pos]);
    }
    b.pos := b.pos + 1;
    b.seglen := 0;
  }

  /** Before a byte is examined the line is trimmed, and a fresh segment finds every
      sequence of its level enabled. */
  method Prime(sh: Shell, b: Connection, cmd: CmdLine, table: SeqTable)
    requires b.Valid() && Ok(cmd.Value()) && Ready(sh, b, table, Seg(b))
    modifies cmd, table
    ensures Ok(cmd.Value()) && CoreOf(b, cmd) == Trim(old(CoreOf(b, cmd)))
    ensures Sound(table.st) && Tracks(table.st, Group(sh, b.pl), Seg(b))
  {
    hide Group, Pattern, Tracks, Rewound, Sound;
    cmd.DelTrailingCRs();
    if b.status != InProgress {
      table.EnableAll(Group(sh, b.pl));
    }
  }

  /** One iteration takes one reaction of the machine. */
  method ScanStep(sh: Shell, b: Connection, cmd: CmdLine, table: SeqTable) returns (ghost w: string, ghost k: Reaction<Live>)
    requires b.Valid() && b.pos + b.seglen < b.filled && Ok(cmd.Value()) && Ready(sh, b, table, Seg(b))
    modifies b`status, b`filled, b`pos, b`seglen, b`pl, b`ss, b.buf, cmd, table
    ensures w == old(SegmentOf(b)) && k == React(sh, old(CoreOf(b, cmd)), w) && CoreOf(b, cmd) == k.next
    ensures b.Valid() && Moved(k, w, old(b.Text()), old(b.pos), b.Text(), b.pos)
    ensures Ready(sh, b, table, if k.Grow? then w else "")
  {
    hide Group, Pattern, Handle, Reacted, Fires, Alive, Tracks, Rewound, Sound, React, Completed;
    hide Trimmed, Typed, Word, Opens;
    ghost var s: Live := CoreOf(b, cmd);
    w, k := SegmentOf(b), React(sh, s, SegmentOf(b));
    ReactCases(sh, s, w);
    Prime(sh, b, cmd, table);
    CheckSeqs(sh, b, cmd, table);
    if b.status == Match {
      table.ClearAll(Group(sh, b.pl));
    } else if b.status == InProgress {
      b.seglen := b.seglen + 1;
    } else {
      LetGo(b, cmd);
    }
  }

  /** A segment still open holds no NUL, so its length as a C string is its length. */
  lemma OpenHoldsNoNul(g: seq<SeqId>, w: string)
    requires Alive(g, w)
    ensures NUL !in w
  {
    hide Pattern;
    var id :| id in g && Opens(Pattern(id), w);
    PatternsWellFormed(id);
    NoPatternHoldsNul(id);
    OpenAvoids(Pattern(id), w, NUL);
  }

  /** One reaction, followed by the scan of the rest, is the scan: the segment of `text`
      at `pos` has just grown by a byte. */
  lemma StepGrows(sh: Shell, done: seq<Piece>, s: Live, text: string, pos: nat, seglen: nat)
    requires pos + seglen < |text|
    requires React(sh, s, text[pos..pos + seglen + 1]).Grow?
    ensures var m, w := Shellwise(sh), text[pos..pos + seglen + 1];
            Before(done, Scan(m, s, text[pos..pos + seglen], text[pos + seglen..]))
            == Before(done, Scan(m, React(sh, s, w).next, w, text[pos + seglen + 1..]))
  {
    hide React;
    var inp := text[pos + seglen..];
    assert text[pos..pos + seglen] + [inp[0]] == text[pos..pos + seglen + 1];
    assert inp[1..] == text[pos + seglen + 1..];
  }

  /** A segment of a text and what a step leaves of it. */
  lemma SegmentCuts(text: string, pos: nat, seglen: nat, n: nat)
    requires pos + seglen < |text| && n <= seglen + 1
    ensures var inp, w := text[pos + seglen..], text[pos..pos + seglen + 1];
            && text[pos..pos + seglen] + [inp[0]] == w
            && w[n..] + inp[1..] == text[pos + n..] && text[..pos] + w[..n] == text[..pos + n]
  {
    assert text[pos..pos + seglen + 1][..n] == text[pos..pos + n];
  }

  lemma StepMoves(sh: Shell, done: seq<Piece>, s: Live, text: string, pos: nat, seglen: nat)
    requires pos + seglen < |text| && KeptOf(done) == text[..pos]
    requires var k := React(sh, s, text[pos..pos + seglen + 1]); !k.Grow? && (k.Done? ==> !k.eaten)
    ensures var m, w := Shellwise(sh), text[pos..pos + seglen + 1];
            var k := React(sh, s, w);
            var n := if k.Done? then k.taken else 1;
            var done' := done + [PieceOf(k, w)];
            && KeptOf(done') == text[..pos + n]
            && Before(done, Scan(m, s, text[pos..pos + seglen], text[pos + seglen..]))
               == Before(done', Scan(m, k.next, "", text[pos + n..]))
  {
    hide React, Scan, Shellwise, Before, KeptOf, Then;
    var inp, w := text[pos + seglen..], text[pos..pos + seglen + 1];
    var k := React(sh, s, w);
    assert k.Done? ==> k.taken <= |w|;
    var n := if k.Done? then k.taken else 1;
    SegmentCuts(text, pos, seglen, n);
    ScanOne(Shellwise(sh), s, text[pos..pos + seglen], inp, k);
    BeforeThen(done, PieceOf(k, w), Scan(Shellwise(sh), k.next, "", text[pos + n..]));
  }

  lemma StepEats(sh: Shell, done: seq<Piece>, s: Live, text: string, pos: nat, seglen: nat)
    requires pos + seglen < |text| && KeptOf(done) == text[..pos]
    requires var k := React(sh, s, text[pos..pos + seglen + 1]); k.Done? && k.eaten
    ensures var m, w := Shellwise(sh), text[pos..pos + seglen + 1];
            var k := React(sh, s, w);
            var done', text' := done + [PieceOf(k, w)], text[..pos] + text[pos + |w|..];
            && KeptOf(done') == text'[..pos]
            && Before(done, Scan(m, s, text[pos..pos + seglen], text[pos + seglen..]))
               == Before(done', Scan(m, k.next, "", text'[pos..]))
  {
    hide React, Scan, Shellwise, Before, KeptOf, Then;
    var inp, w := text[pos + seglen..], text[pos..pos + seglen + 1];
    var k := React(sh, s, w);
    assert text[pos..pos + seglen] + [inp[0]] == w;
    ScanOne(Shellwise(sh), s, text[pos..pos + seglen], inp, k);
    assert w[|w|..] + inp[1..] == (text[..pos] + text[pos + |w|..])[pos..];
    BeforeThen(done, PieceOf(k, w), Scan(Shellwise(sh), k.next, "", (text[..pos] + text[pos + |w|..])[pos..]));
  }

  /** The three together: the scan still to come, before and after one reaction. */
  lemma StepScans(sh: Shell, done: seq<Piece>, s: Live, text: string, pos: nat, seglen: nat,
                  k: Reaction<Live>, w: string, text': string, pos': nat)
    requires pos + seglen < |text| && KeptOf(done) == text[..pos] && w == text[pos..pos + seglen + 1]
    requires k == React(sh, s, w) && Moved(k, w, text, pos, text', pos')
    ensures pos' <= |text'|
    ensures if k.Grow? then text' == text && pos' == pos else |text'| - pos' < |text| - pos
    ensures var seg := if k.Grow? then w else "";
            var done' := if k.Grow? then done else done + [PieceOf(k, w)];
            && KeptOf(done') == text'[..pos'] && pos' + |seg| <= |text'| && seg == text'[pos'..pos' + |seg|]
            && Before(done, Scan(Shellwise(sh), s, text[pos..pos + seglen], text[pos + seglen..]))
               == Before(done', Scan(Shellwise(sh), k.next, seg, text'[pos' + |seg|..]))
  {
    hide React, Scan, Shellwise, Before, KeptOf, PieceOf;
    if k.Grow? {
      StepGrows(sh, done, s, text, pos, seglen);
    } else if k.Done? && k.eaten {
      StepEats(sh, done, s, text, pos, seglen);
    } else {
      StepMoves(sh, done, s, text, pos, seglen);
    }
  }

  ghost function ScanOf(sh: Shell, b: Connection, cmd: CmdLine): Scanned<Live>
    requires b.Valid() && Ok(cmd.Value())
    reads b, b.buf, cmd
  {
    Scan<Live>(Shellwise(sh), CoreOf(b, cmd), Seg(b), b.Text()[b.pos + b.seglen..])
  }

  /** Scan everything in the buffer. */
  method ScanAll(sh: Shell, b: Connection, cmd: CmdLine, table: SeqTable) returns (ghost r: Scanned<Live>)
    requires b.Valid() && b.pos == 0 && Ok(cmd.Value()) && Ready(sh, b, table, Seg(b))
    modifies b`status, b`filled, b`pos, b`seglen, b`pl, b`ss, b.buf, cmd, table
    ensures r == old(ScanOf(sh, b, cmd))
    ensures b.Valid() && b.pos + b.seglen == b.filled && CoreOf(b, cmd) == r.state
    ensures b.Text() == KeptOf(r.pieces) + r.open && Seg(b) == r.open && Ready(sh, b, table, r.open)
  {
    hide Pattern, Group, React, Poised, Moved, Scan, Shellwise, PieceOf, KeptOf, Before;
    BeforeNothing(ScanOf(sh, b, cmd));
    r := ScanOf(sh, b, cmd);
    ghost var done: seq<Piece> := [];
    while b.pos + b.seglen < b.filled
      invariant b.Valid() && Ok(cmd.Value()) && Ready(sh, b, table, Seg(b))
      invariant KeptOf(done) == b.Text()[..b.pos] && r == Before(done, ScanOf(sh, b, cmd))
      decreases b.filled - b.pos, b.filled - b.pos - b.seglen
    {
      ghost var s: Live, text, pos, seglen := CoreOf(b, cmd), b.Text(), b.pos, b.seglen;
      ghost var w, k := ScanStep(sh, b, cmd, table);
      StepScans(sh, done, s, text, pos, seglen, k, w, b.Text(), b.pos);
      if !k.Grow? {
        done := done + [PieceOf(k, w)];
      }
    }
    ScanEnds(sh, b, cmd);
    BeforeTheEnd(done, CoreOf(b, cmd), Seg(b));
    assert b.Text() == b.Text()[..b.pos] + Seg(b);
  }

  lemma BeforeTheEnd(done: seq<Piece>, s: Live, open: string)
    ensures Before(done, Scanned(s, open, [])) == Scanned(s, open, done)
  {
    assert done + [] == done;
  }

  lemma ScanEnds(sh: Shell, b: Connection, cmd: CmdLine)
    requires b.Valid() && Ok(cmd.Value()) && b.pos + b.seglen == b.filled
    ensures var s: Live := CoreOf(b, cmd); ScanOf(sh, b, cmd) == Scanned(s, Seg(b), [])
  {
  }

  /** A lone space at the prompt is taken as typed. */
  method TakeSpace(sh: Shell, b: Connection, cmd: CmdLine, table: SeqTable)
    requires b.pl == AtPrompt && Ok(cmd.Value()) && Sound(table.st)
    modifies b`status, cmd, table
    ensures Poised(sh, b, table, "") && CoreOf(b, cmd) == Typed(old(CoreOf(b, cmd)), ' ')
  {
    hide Pattern, Group, Sound, Rewound;
    table.DisableAll(Group(sh, AtPrompt));
    b.status := NoMatch;
    cmd.OverwriteChar(' ');
  }

  /** Any other open segment becomes a holdover. */
  method HoldOpen(b: Connection, ghost kept: string, ghost open: string)
    requires b.Valid() && b.pos + b.seglen == b.filled && b.holdover == None
    requires Seg(b) == open && b.Text() == kept + open && NUL !in open
    modifies b`filled, b`holdover, b`hoWritten
    ensures b.Fits() && b.holdover == Some(open) && b.hoWritten == (b.pl == AtPrompt)
    ensures b.Text() == kept + if b.pl == AtPrompt then open else ""
  {
    assert b.buf[b.pos..b.pos + b.seglen] == open;
    CStrId(open);
    b.CreateHoldover(b.pl != AtPrompt);
  }

  /** The end of a scan: an open segment becomes a holdover, written now at the prompt and
      later elsewhere. */
  method SettleScan(sh: Shell, b: Connection, cmd: CmdLine, table: SeqTable, ghost r: Scanned<Live>)
    requires b.Valid() && b.pos + b.seglen == b.filled && b.holdover == None && CoreOf(b, cmd) == r.state
    requires Seg(b) == r.open && b.Text() == KeptOf(r.pieces) + r.open && Ready(sh, b, table, r.open)
    requires r.open == "" || Alive(Group(sh, b.pl), r.open)
    modifies b`status, b`filled, b`holdover, b`hoWritten, cmd, table
    ensures Between(sh, b, table, Settled(r).open) && CoreOf(b, cmd) == Settled(r).state
    ensures b.Text() == Buffered(Settled(r))
    ensures Settled(r).open != "" ==> b.hoWritten == (b.pl == AtPrompt)
  {
    hide Pattern, Group, Alive, Sound, Tracks, Rewound;
    assert Sound(table.st) && (b.status == InProgress <==> r.open != "");
    hide Poised;
    if b.status == InProgress {
      if b.pl == AtPrompt && b.seglen == 1 && b.buf[b.pos] == ' ' {
        assert r.open == " ";
        KeptOfAppend(r.pieces, [Kept(" ")]);
        TakeSpace(sh, b, cmd, table);
      } else {
        assert r.open == " " ==> b.seglen == 1 && b.buf[b.pos] == ' ';
        OpenHoldsNoNul(Group(sh, b.pl), r.open);
        HoldOpen(b, KeptOf(r.pieces), r.open);
      }
    }
  }

  /** Between two reads: the open segment is the holdover, and the table has followed it. */
  ghost predicate Between(sh: Shell, b: Connection, table: SeqTable, open: string)
    reads b, table
  {
    && b.Fits() && Poised(sh, b, table, open)
    && (open == "" || Alive(Group(sh, b.pl), open))
    && b.holdover == (if open == "" then None else Some(open))
    && (open != "" ==> b.seglen == |open|) && |open| <= b.buf.Length
  }

  method ScanSequences(sh: Shell, b: Connection, cmd: CmdLine, table: SeqTable) returns (ghost r: Scanned<Live>)
    requires b.Valid() && b.pos == 0 && b.holdover == None && Ok(cmd.Value()) && Ready(sh, b, table, Seg(b))
    requires Seg(b) == "" || Alive(Group(sh, b.pl), Seg(b))
    modifies b`status, b`filled, b`pos, b`seglen, b`pl, b`ss, b`holdover, b`hoWritten, b.buf, cmd, table
    ensures r == Settled(old(ScanOf(sh, b, cmd)))
    ensures Between(sh, b, table, r.open) && CoreOf(b, cmd) == r.state && b.Text() == Buffered(r)
    ensures r.open != "" ==> b.hoWritten == (b.pl == AtPrompt)
  {
    hide Pattern, Group, Alive, Poised, Settled, Buffered;
    ghost var s: Live, seg, inp := CoreOf(b, cmd), Seg(b), b.Text()[b.seglen..];
    ghost var q := ScanAll(sh, b, cmd, table);
    OpenIsAlive(sh, s, seg, inp);
    SettleScan(sh, b, cmd, table, q);
    r := Settled(q);
  }

  /** One read from the shell, scanned and written on to the terminal. */
  method ProcessShell(sh: Shell, b: Connection, cmd: CmdLine, table: SeqTable, chunk: string, ghost open: string)
    returns (out: Option<string>, ghost r: Scanned<Live>)
    requires Between(sh, b, table, open) && Ok(cmd.Value()) && |open| + |chunk| <= b.buf.Length
    modifies b, b.buf, cmd, table
    ensures var s: Live := old(CoreOf(b, cmd)); r == Settled(Scan<Live>(Shellwise(sh), s, open, chunk))
    ensures Between(sh, b, table, r.open) && CoreOf(b, cmd) == r.state
    ensures r.open != "" ==> b.hoWritten == (b.pl == AtPrompt)
    ensures out == Shown(Buffered(r), if old(b.hoWritten) then |open| else 0)
  {
    hide Pattern, Group, Alive, Settled, Buffered, Scan, Shellwise, Sound, Tracks, Rewound, Shown, KeptOf;
    if open != "" {
      OpenHoldsNoNul(Group(sh, b.pl), open);
      CStrId(open);
    }
    assert b.status == InProgress <==> open != "";
    hide Poised;
    b.PrependHoldover();
    b.Read(chunk);
    assert b.Text() == open + chunk && b.seglen == |open|;
    assert Seg(b) == open && b.Text()[b.seglen..] == chunk;
    r := ScanSequences(sh, b, cmd, table);
    out := b.Write();
    ShownCases(b.Text(), b.skip);
  }

  lemma ShownCases(text: string, skip: nat)
    ensures text == "" ==> Shown(text, skip) == Some("")
    ensures 0 < |text| < skip ==> Shown(text, skip) == None
    ensures 0 < |text| && skip <= |text| ==> Shown(text, skip) == Some(text[skip..])
  {
  }
}
