/** A segment scanner in general: a segment grows byte by byte until it is done with,
    or until no one wants it and its first byte is let go and the rest looked at again. */
module Scanning {
  /** How a state reacts to a segment whose last byte has just arrived. */
  datatype Reaction<+S> =
    | Done(next: S, taken: nat, eaten: bool)  // step over `taken` bytes, or cut the segment out
    | Grow(next: S)
    | Drop(next: S)                           // let the first byte go

  type Machine<!S(!new)> = (S, string) -> Reaction<S>

  /** Every completed segment makes progress. */
  ghost predicate Progressive<S(!new)>(m: Machine<S>) {
    forall s: S, w: string :: w != "" && m(s, w).Done? ==>
      1 <= m(s, w).taken <= |w| && (m(s, w).eaten ==> m(s, w).taken == |w|)
  }

  /** A piece of the stream, in order: left in place, or cut out. */
  datatype Piece = Kept(bytes: string) | Eaten(bytes: string)

  datatype Scanned<+S> = Scanned(state: S, open: string, pieces: seq<Piece>)

  function Then<S>(p: Piece, r: Scanned<S>): Scanned<S> {
    r.(pieces := [p] + r.pieces)
  }

  function PieceOf<S>(k: Reaction<S>, w: string): Piece
    requires w != "" && !k.Grow? && (k.Done? ==> k.taken <= |w|)
  {
    if k.Drop? then Kept([w[0]]) else if k.eaten then Eaten(w) else Kept(w[..k.taken])
  }

  /** Scan `inp` with `seg` already open. */
  ghost function Scan<S(!new)>(m: Machine<S>, s: S, seg: string, inp: string): Scanned<S>
    requires Progressive(m)
    decreases |seg| + |inp|, |inp|
  {
    if inp == "" then Scanned(s, seg, [])
    else
      var w := seg + [inp[0]];
      match m(s, w)
      case Done(s', n, eaten) => Then(PieceOf(m(s, w), w), Scan(m, s', "", w[n..] + inp[1..]))
      case Grow(s') => Scan(m, s', w, inp[1..])
      case Drop(s') => Then(PieceOf(m(s, w), w), Scan(m, s', "", w[1..] + inp[1..]))
  }

  /** One turn of a scan that is done with its segment or lets its first byte go. */
  lemma ScanOne<S(!new)>(m: Machine<S>, s: S, seg: string, inp: string, k: Reaction<S>)
    requires Progressive(m) && inp != "" && k == m(s, seg + [inp[0]]) && !k.Grow?
    ensures var w, n := seg + [inp[0]], if k.Done? then k.taken else 1;
            && n <= |w| && (k.Done? ==> k.taken <= |w| && (k.eaten ==> k.taken == |w|))
            && Scan(m, s, seg, inp) == Then(PieceOf(k, w), Scan(m, k.next, "", w[n..] + inp[1..]))
  {
  }

  /** One turn of a scan whose segment grows. */
  lemma ScanGrows<S(!new)>(m: Machine<S>, s: S, seg: string, inp: string, k: Reaction<S>)
    requires Progressive(m) && inp != "" && k == m(s, seg + [inp[0]]) && k.Grow?
    ensures Scan(m, s, seg, inp) == Scan(m, k.next, seg + [inp[0]], inp[1..])
  {
  }

  // ----- the stream, put back together -----

  function KeptOf(ps: seq<Piece>): string {
    if ps == [] then "" else (if ps[0].Kept? then ps[0].bytes else "") + KeptOf(ps[1..])
  }

  /** A scan with pieces put in front. */
  function Before<S>(done: seq<Piece>, r: Scanned<S>): Scanned<S> {
    r.(pieces := done + r.pieces)
  }

  lemma BeforeNothing<S>(r: Scanned<S>)
    ensures Before([], r) == r && KeptOf([]) == ""
  {
    assert [] + r.pieces == r.pieces;
  }

  lemma BeforeThen<S>(done: seq<Piece>, p: Piece, r: Scanned<S>)
    ensures Before(done, Then(p, r)) == Before(done + [p], r)
    ensures KeptOf(done + [p]) == KeptOf(done) + if p.Kept? then p.bytes else ""
  {
    assert done + ([p] + r.pieces) == (done + [p]) + r.pieces;
    KeptOfAppend(done, [p]);
  }

  function AllOf(ps: seq<Piece>): string {
    if ps == [] then "" else ps[0].bytes + AllOf(ps[1..])
  }

  lemma {:induction false} KeptOfAppend(a: seq<Piece>, b: seq<Piece>)
    ensures KeptOf(a + b) == KeptOf(a) + KeptOf(b)
  {
    if a == [] {
      assert a + b == b;
    } else {
      assert (a + b)[1..] == a[1..] + b;
      KeptOfAppend(a[1..], b);
    }
  }

  lemma {:induction false} AllOfAppend(a: seq<Piece>, b: seq<Piece>)
    ensures AllOf(a + b) == AllOf(a) + AllOf(b)
  {
    if a == [] {
      assert a + b == b;
    } else {
      assert (a + b)[1..] == a[1..] + b;
      AllOfAppend(a[1..], b);
    }
  }

  lemma ThenCovers<S>(p: Piece, r: Scanned<S>, rest: string)
    requires AllOf(r.pieces) + r.open == rest
    ensures AllOf(Then(p, r).pieces) + Then(p, r).open == p.bytes + rest
  {
    AllOfAppend([p], r.pieces);
  }

  lemma CutAt(w: string, n: nat, tail: string)
    requires n <= |w|
    ensures w[..n] + ("" + (w[n..] + tail)) == w + tail
  {
  }

  /** Scanning loses nothing: the pieces and the open segment are the input, in order. */
  lemma {:induction false} ScanCovers<S(!new)>(m: Machine<S>, s: S, seg: string, inp: string)
    requires Progressive(m)
    ensures var r := Scan(m, s, seg, inp); AllOf(r.pieces) + r.open == seg + inp
    decreases |seg| + |inp|, |inp|
  {
    if inp == "" {
      assert seg + inp == seg;
    } else {
      var w := seg + [inp[0]];
      assert seg + inp == w + inp[1..];
      if m(s, w).Grow? {
        ScanCovers(m, m(s, w).next, w, inp[1..]);
      } else {
        var n := if m(s, w).Done? then m(s, w).taken else 1;
        var rest := w[n..] + inp[1..];
        var p, q := PieceOf(m(s, w), w), Scan(m, m(s, w).next, "", rest);
        ScanCovers(m, m(s, w).next, "", rest);
        assert p.bytes == w[..n];
        ThenCovers(p, q, "" + rest);
        CutAt(w, n, inp[1..]);
      }
    }
  }

  /** Resume a scan with more input. */
  ghost function Resumed<S(!new)>(m: Machine<S>, r: Scanned<S>, inp: string): Scanned<S>
    requires Progressive(m)
  {
    var q := Scan(m, r.state, r.open, inp);
    q.(pieces := r.pieces + q.pieces)
  }

  /** Chunk invariance: a scan cut anywhere and resumed is the scan of the whole. */
  lemma {:induction false} ScanSplits<S(!new)>(m: Machine<S>, s: S, seg: string, a: string, b: string)
    requires Progressive(m)
    ensures Scan(m, s, seg, a + b) == Resumed(m, Scan(m, s, seg, a), b)
    decreases |seg| + |a|, |a|
  {
    if a == "" {
      assert a + b == b;
    } else {
      var w := seg + [a[0]];
      assert (a + b)[1..] == a[1..] + b;
      match m(s, w)
      case Done(s', n, eaten) =>
        assert w[n..] + (a[1..] + b) == (w[n..] + a[1..]) + b;
        ScanSplits(m, s', "", w[n..] + a[1..], b);
      case Grow(s') => ScanSplits(m, s', w, a[1..], b);
      case Drop(s') =>
        assert w[1..] + (a[1..] + b) == (w[1..] + a[1..]) + b;
        ScanSplits(m, s', "", w[1..] + a[1..], b);
    }
  }

  /** A property of every cut holds of all the pieces eaten. */
  lemma {:induction false} EatenAre<S(!new)>(m: Machine<S>, ok: string -> bool, s: S, seg: string, inp: string)
    requires Progressive(m)
    requires forall s: S, w: string :: w != "" && m(s, w).Done? && m(s, w).eaten ==> ok(w)
    ensures forall p :: p in Scan(m, s, seg, inp).pieces && p.Eaten? ==> ok(p.bytes)
    decreases |seg| + |inp|, |inp|
  {
    if inp != "" {
      var w := seg + [inp[0]];
      match m(s, w)
      case Done(s', n, eaten) => EatenAre(m, ok, s', "", w[n..] + inp[1..]);
      case Grow(s') => EatenAre(m, ok, s', w, inp[1..]);
      case Drop(s') => EatenAre(m, ok, s', "", w[1..] + inp[1..]);
    }
  }

  /** The open segment, if any, is one the state keeps growing. */
  lemma {:induction false} OpenGrows<S(!new)>(m: Machine<S>, live: (S, string) -> bool, s: S, seg: string, inp: string)
    requires Progressive(m)
    requires seg == "" || live(s, seg)
    requires forall s: S, w: string :: w != "" && m(s, w).Grow? ==> live(m(s, w).next, w)
    ensures var r := Scan(m, s, seg, inp); r.open == "" || live(r.state, r.open)
    decreases |seg| + |inp|, |inp|
  {
    if inp != "" {
      var w := seg + [inp[0]];
      match m(s, w)
      case Done(s', n, eaten) => OpenGrows(m, live, s', "", w[n..] + inp[1..]);
      case Grow(s') => OpenGrows(m, live, s', w, inp[1..]);
      case Drop(s') => OpenGrows(m, live, s', "", w[1..] + inp[1..]);
    }
  }
}
