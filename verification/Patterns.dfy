/** The pattern automaton of vgseer: a pattern is a string in which a few control
    characters stand for classes of bytes; `Feed` advances a position through it one
    byte at a time.  `Word` is the language a pattern denotes, defined without any
    position, and `Recognises` ties the two together. */
module Patterns {
  import opened Bytes

  const DIGITS := '\U{16}'      // any run of digits, up to the next pattern byte
  const PRINTABLES := '\U{12}'  // any run of non-control bytes, up to the next pattern byte
  const NOT_LF_CR := '\U{13}'
  const NOT_LF := '\U{14}'
  const ANY := '\U{18}'

  datatype Status = NoMatch | InProgress | Match

  /** The mutable part of a sequence. */
  datatype SeqState = SeqState(pos: nat, enabled: bool)

  const FRESH := SeqState(0, true)
  const DISABLED := SeqState(0, false)

  predicate IsRun(c: char) {
    c == DIGITS || c == PRINTABLES
  }

  predicate InRun(kind: char, c: char) {
    if kind == DIGITS then IsDigit(c) else !IsCntrl(c)
  }

  /** Bytes a single pattern character stands for. */
  predicate Accepts(p: char, c: char) {
    if p == ANY then true
    else if p == NOT_LF then c != LF
    else if p == NOT_LF_CR then c != LF && c != CR
    else p == c
  }

  /** The source's own rules: a run is followed by a delimiter, which is neither
      special nor a member of the run; so a run never ends a pattern. */
  predicate WellFormed(p: string) {
    && p != ""
    && !IsRun(p[|p| - 1])
    && forall i :: 0 <= i < |p| - 1 && IsRun(p[i]) ==>
         !InRun(p[i], p[i + 1]) && !IsRun(p[i + 1]) && p[i + 1] !in {NOT_LF, NOT_LF_CR, ANY}
  }

  /** One byte through one sequence. */
  function Feed(p: string, st: SeqState, c: char): (Status, SeqState)
    requires WellFormed(p) && st.pos < |p|
  {
    if !st.enabled then (NoMatch, st)
    else if IsRun(p[st.pos]) then
      if InRun(p[st.pos], c) then (InProgress, st)
      else if p[st.pos + 1] == c then Advanced(p, st.pos + 2)
      else (NoMatch, DISABLED)
    else if Accepts(p[st.pos], c) then Advanced(p, st.pos + 1)
    else (NoMatch, DISABLED)
  }

  function Advanced(p: string, pos: nat): (Status, SeqState) {
    if pos == |p| then (Match, FRESH) else (InProgress, SeqState(pos, true))
  }

  /** The language of a pattern. */
  ghost predicate Word(p: string, w: string)
    decreases |p|
  {
    if p == "" then w == ""
    else if IsRun(p[0]) then
      |p| > 1 && exists k :: 0 <= k < |w| && RunThen(p[0], p[1], w, k) && Word(p[2..], w[k + 1..])
    else
      w != "" && Accepts(p[0], w[0]) && Word(p[1..], w[1..])
  }

  /** `w` starts with k members of the run and then the delimiter. */
  ghost predicate RunThen(kind: char, delim: char, w: string, k: nat) {
    k < |w| && w[k] == delim && forall j :: 0 <= j < k ==> InRun(kind, w[j])
  }

  /** `w` is a proper prefix of a word. */
  ghost predicate Opens(p: string, w: string) {
    exists v: string :: v != "" && Word(p, w + v)
  }

  /** What the sequence holds after `w` has been fed from the start. */
  function After(p: string, w: string): (st: SeqState)
    requires WellFormed(p)
    ensures st.pos < |p|
    ensures !st.enabled ==> st.pos == 0
  {
    if w == "" then FRESH else Feed(p, After(p, w[..|w| - 1]), w[|w| - 1]).1
  }

  /** What feeding the last byte of `w` reports. */
  function Report(p: string, w: string): Status
    requires WellFormed(p) && w != ""
  {
    Feed(p, After(p, w[..|w| - 1]), w[|w| - 1]).0
  }

  /** No earlier byte of `w` completed the pattern. */
  ghost predicate Unmatched(p: string, w: string)
    requires WellFormed(p)
  {
    forall n :: 0 < n <= |w| ==> Report(p, w[..n]) != Match
  }

  // ----- every residual pattern denotes some word -----

  function Sample(p: string): (w: string)
    requires p == "" || !IsRun(p[|p| - 1])
    ensures p != "" ==> w != ""
    ensures Word(p, w)
    decreases |p|
  {
    if p == "" then ""
    else if IsRun(p[0]) then
      var t := Sample(p[2..]);
      assert ([p[1]] + t)[1..] == t;
      assert RunThen(p[0], p[1], [p[1]] + t, 0);
      [p[1]] + t
    else
      var t := Sample(p[1..]);
      var c := if p[0] in {ANY, NOT_LF, NOT_LF_CR} then 'x' else p[0];
      assert ([c] + t)[1..] == t;
      [c] + t
  }

  // ----- one step takes the derivative of the language -----

  /** A member of the run leaves the pattern where it is. */
  lemma RunStays(p: string, c: char, v: string)
    requires WellFormed(p) && IsRun(p[0]) && InRun(p[0], c)
    ensures Word(p, [c] + v) <==> Word(p, v)
  {
    if Word(p, [c] + v) { RunShrinks(p, c, v); }
    if Word(p, v) { RunExtends(p, c, v); }
  }

  lemma RunShrinks(p: string, c: char, v: string)
    requires WellFormed(p) && IsRun(p[0]) && InRun(p[0], c) && Word(p, [c] + v)
    ensures Word(p, v)
  {
    var w := [c] + v;
    var k :| 0 <= k < |w| && RunThen(p[0], p[1], w, k) && Word(p[2..], w[k + 1..]);
    assert k > 0 && w[k + 1..] == v[k..];
    assert forall j :: 0 <= j < |v| ==> v[j] == w[j + 1];
    assert RunThen(p[0], p[1], v, k - 1);
  }

  lemma RunExtends(p: string, c: char, v: string)
    requires WellFormed(p) && IsRun(p[0]) && InRun(p[0], c) && Word(p, v)
    ensures Word(p, [c] + v)
  {
    var w := [c] + v;
    var k :| 0 <= k < |v| && RunThen(p[0], p[1], v, k) && Word(p[2..], v[k + 1..]);
    assert w[k + 2..] == v[k + 1..];
    assert RunThen(p[0], p[1], w, k + 1);
  }

  /** Any other byte has to be the delimiter. */
  lemma RunLeaves(p: string, c: char, v: string)
    requires WellFormed(p) && IsRun(p[0]) && !InRun(p[0], c)
    ensures Word(p, [c] + v) <==> c == p[1] && Word(p[2..], v)
  {
    var w := [c] + v;
    assert w[0] == c && w[1..] == v;
    if Word(p, w) {
      var k :| 0 <= k < |w| && RunThen(p[0], p[1], w, k) && Word(p[2..], w[k + 1..]);
      assert k == 0;
    }
    if c == p[1] && Word(p[2..], v) {
      assert RunThen(p[0], p[1], w, 0);
    }
  }

  lemma SuffixWellFormed(p: string, i: nat)
    requires WellFormed(p) && i < |p|
    ensures WellFormed(p[i..])
  {
    var q := p[i..];
    forall j | 0 <= j < |q| - 1 && IsRun(q[j])
      ensures !InRun(q[j], q[j + 1]) && !IsRun(q[j + 1]) && q[j + 1] !in {NOT_LF, NOT_LF_CR, ANY}
    {
      assert q[j] == p[i + j] && q[j + 1] == p[i + j + 1];
    }
  }

  lemma FeedDerives(p: string, i: nat, c: char, v: string)
    requires WellFormed(p) && i < |p|
    ensures var (r, st) := Feed(p, SeqState(i, true), c);
            && (r == NoMatch ==> st == DISABLED && !Word(p[i..], [c] + v))
            && (r == InProgress ==> st.enabled && st.pos < |p| && (Word(p[i..], [c] + v) <==> Word(p[st.pos..], v)))
            && (r == Match ==> st == FRESH && (Word(p[i..], [c] + v) <==> v == ""))
  {
    var q := p[i..];
    SuffixWellFormed(p, i);
    if IsRun(q[0]) {
      if InRun(q[0], c) { RunStays(q, c, v); } else { RunLeaves(q, c, v); }
      assert q[2..] == p[i + 2..];
      assert q[1] == p[i + 1];
    } else {
      assert ([c] + v)[1..] == v;
      assert q[1..] == p[i + 1..];
    }
  }

  /** Main invariant: while nothing has matched, an enabled sequence stands exactly
      where the rest of its pattern is the residual language of the bytes fed, and a
      disabled one has no word left. */
  lemma {:induction false} AfterDerives(p: string, w: string, v: string)
    requires WellFormed(p) && Unmatched(p, w)
    ensures var st := After(p, w);
            if st.enabled then Word(p, w + v) <==> Word(p[st.pos..], v) else !Word(p, w + v)
    decreases |w|
  {
    if w == "" {
      assert w + v == v && p[0..] == p;
    } else {
      var u, c := w[..|w| - 1], w[|w| - 1];
      assert w + v == u + ([c] + v);
      assert w[..|w|] == w && Report(p, w) != Match;
      forall n | 0 < n <= |u| ensures Report(p, u[..n]) != Match {
        assert u[..n] == w[..n];
      }
      AfterDerives(p, u, [c] + v);
      var st := After(p, u);
      if st.enabled {
        FeedDerives(p, st.pos, c, v);
      }
    }
  }

  /** The report on the last byte of `w` fixes which extensions of `w` are words. */
  lemma ReportDerives(p: string, w: string, v: string)
    requires WellFormed(p) && w != "" && Unmatched(p, w[..|w| - 1])
    ensures Report(p, w) == NoMatch ==> !Word(p, w + v)
    ensures Report(p, w) == InProgress ==> (Word(p, w + v) <==> Word(p[After(p, w).pos..], v))
    ensures Report(p, w) == Match ==> (Word(p, w + v) <==> v == "")
  {
    var u, c := w[..|w| - 1], w[|w| - 1];
    assert w + v == u + ([c] + v);
    AfterDerives(p, u, [c] + v);
    if After(p, u).enabled {
      FeedDerives(p, After(p, u).pos, c, v);
    }
  }

  /** What a sequence reports, byte by byte, is membership in the language of its
      pattern: complete word, proper prefix of a word, or neither. */
  lemma Recognises(p: string, w: string)
    requires WellFormed(p) && w != "" && Unmatched(p, w[..|w| - 1])
    ensures Report(p, w) == Match <==> Word(p, w)
    ensures Report(p, w) == InProgress <==> Opens(p, w)
    ensures Report(p, w) == NoMatch <==> !Word(p, w) && !Opens(p, w)
  {
    assert w + "" == w;
    ReportDerives(p, w, "");
    if Opens(p, w) {
      var v :| v != "" && Word(p, w + v);
      ReportDerives(p, w, v);
    }
    if Report(p, w) == InProgress {
      var q := p[After(p, w).pos..];
      SuffixWellFormed(p, After(p, w).pos);
      var v := Sample(q);
      ReportDerives(p, w, v);
      assert v != "" && !Word(q, "") && Word(p, w + v);
    }
  }

  /** A word is never a proper prefix of another word, so the first completing byte is
      the only one. */
  lemma PrefixFree(p: string, w: string)
    requires WellFormed(p) && w != "" && Opens(p, w)
    ensures !Word(p, w)
    ensures forall n :: 0 < n <= |w| ==> Opens(p, w[..n])
    ensures Unmatched(p, w)
  {
    var v :| v != "" && Word(p, w + v);
    forall n | 0 < n <= |w| ensures Opens(p, w[..n]) {
      assert w[..n] + (w[n..] + v) == w + v;
    }
    OpenPrefixesUnmatched(p, w);
    assert w[..|w|] == w;
    assert Unmatched(p, w[..|w| - 1]) by {
      assert forall n :: 0 < n <= |w| - 1 ==> w[..|w| - 1][..n] == w[..n];
    }
    Recognises(p, w);
  }

  lemma OpenPrefixesUnmatched(p: string, w: string)
    requires WellFormed(p)
    requires forall n :: 0 < n <= |w| ==> Opens(p, w[..n])
    ensures Unmatched(p, w)
    decreases |w|
  {
    if w != "" {
      var u := w[..|w| - 1];
      forall n | 0 < n <= |u| ensures Opens(p, u[..n]) {
        assert u[..n] == w[..n];
      }
      OpenPrefixesUnmatched(p, u);
      assert w[..|w|] == w;
      Recognises(p, w);
      forall n | 0 < n <= |w| ensures Report(p, w[..n]) != Match {
        if n < |w| { assert w[..n] == u[..n]; }
      }
    }
  }

  // ----- bytes a word can hold -----

  /** Only the last pattern byte can stand for `c`. */
  ghost predicate Avoids(p: string, c: char) {
    forall i :: 0 <= i < |p| - 1 ==> if IsRun(p[i]) then !InRun(p[i], c) else !Accepts(p[i], c)
  }

  /** Then `c` is not met before the end of a word: whatever is still open is free of it. */
  lemma {:induction false} WordAvoids(p: string, w: string, c: char)
    requires WellFormed(p) && Word(p, w) && Avoids(p, c)
    ensures c !in w[..|w| - 1]
    decreases |p|
  {
    if IsRun(p[0]) {
      var k :| 0 <= k < |w| && RunThen(p[0], p[1], w, k) && Word(p[2..], w[k + 1..]);
      assert c !in w[..k];
      if |p| > 2 {
        SuffixWellFormed(p, 2);
        assert Avoids(p[2..], c) by {
          assert forall i :: 0 <= i < |p[2..]| - 1 ==> p[2..][i] == p[i + 2];
        }
        WordAvoids(p[2..], w[k + 1..], c);
        assert p[1] != c by { assert !Accepts(p[1], c); }
        assert w[..|w| - 1] == w[..k] + [w[k]] + w[k + 1..][..|w| - k - 2];
      } else {
        assert w[k + 1..] == "";
        assert w[..|w| - 1] == w[..k];
      }
    } else if |p| > 1 {
      SuffixWellFormed(p, 1);
      assert Avoids(p[1..], c) by {
        assert forall i :: 0 <= i < |p[1..]| - 1 ==> p[1..][i] == p[i + 1];
      }
      WordAvoids(p[1..], w[1..], c);
      assert w[1..] != "";
      assert w[..|w| - 1] == [w[0]] + w[1..][..|w| - 2];
    } else {
      assert w[1..] == "";
    }
  }

  lemma OpenAvoids(p: string, w: string, c: char)
    requires WellFormed(p) && Opens(p, w) && Avoids(p, c)
    ensures c !in w
  {
    var v :| v != "" && Word(p, w + v);
    WordAvoids(p, w + v, c);
    assert w <= (w + v)[..|w + v| - 1];
  }
}
