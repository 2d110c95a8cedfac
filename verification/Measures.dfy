/** What the wrap box's measures come to on the screen, and that filling columns greedily
    leaves no choice. */
module Measures {
  import opened WrapBox

  // ----- sums are edges -----

  /** Columns side by side, each behind the one before and its spacing. */
  predicate SideBySide(b: Box, cols: seq<seq<Size>>, lefts: seq<nat>) {
    |lefts| == |cols| && (cols != [] ==> lefts[0] == 0)
    && forall i :: 0 <= i < |cols| - 1 ==> lefts[i + 1] == lefts[i] + Widest(cols[i]) + b.hspacing
  }

  /** Children one below the other. */
  predicate Stacked(b: Box, cs: seq<Size>, tops: seq<nat>) {
    |tops| == |cs| && (cs != [] ==> tops[0] == 0)
    && forall i :: 0 <= i < |cs| - 1 ==> tops[i + 1] == tops[i] + cs[i].height + b.vspacing
  }

  /** The width of a layout is where its last column ends. */
  lemma {:induction false} WidthIsRightEdge(b: Box, cols: seq<seq<Size>>, lefts: seq<nat>)
    requires cols != [] && SideBySide(b, cols, lefts)
    ensures TotalWidth(b, cols) == lefts[|cols| - 1] + Widest(cols[|cols| - 1])
    decreases |cols|
  {
    hide Widest;
    var n := |cols| - 1;
    if n > 0 {
      WidthIsRightEdge(b, cols[..n], lefts[..n]);
    } else {
      assert cols[..0] == [];
    }
  }

  /** The height of a column is where its last child ends. */
  lemma {:induction false} HeightIsBottomEdge(b: Box, cs: seq<Size>, tops: seq<nat>)
    requires cs != [] && Stacked(b, cs, tops)
    ensures Tall(b, cs) == tops[|cs| - 1] + cs[|cs| - 1].height
    decreases |cs|
  {
    var n := |cs| - 1;
    if n > 0 {
      HeightIsBottomEdge(b, cs[..n], tops[..n]);
    } else {
      assert cs[..0] == [];
    }
  }

  lemma ColumnOfOne(c: Size)
    ensures Widest([c]) == c.width
  {
  }

  function Singles(cs: seq<Size>): (r: seq<seq<Size>>)
    ensures |r| == |cs| && forall i :: 0 <= i < |r| ==> r[i] == [cs[i]]
  {
    seq(|cs|, i requires 0 <= i < |cs| => [cs[i]])
  }

  /** Children in a row take the width of as many columns of one child. */
  lemma {:induction false} RowIsSingles(b: Box, cs: seq<Size>)
    ensures RowWidth(b, cs) == TotalWidth(b, Singles(cs))
    decreases |cs|
  {
    hide Widest;
    if cs != [] {
      var n := |cs| - 1;
      RowIsSingles(b, cs[..n]);
      assert Singles(cs)[..n] == Singles(cs[..n]);
      ColumnOfOne(cs[n]);
    }
  }

  /** The height of a layout is that of its tallest column. */
  lemma {:induction false} TallestOf(b: Box, cols: seq<seq<Size>>)
    requires cols != []
    ensures exists col :: col in cols && Tall(b, col) == MaxTall(b, cols)
    decreases |cols|
  {
    hide Tall;
    var n := |cols| - 1;
    assert cols[n] in cols;
    if n > 0 {
      TallestOf(b, cols[..n]);
      var col :| col in cols[..n] && Tall(b, col) == MaxTall(b, cols[..n]);
      assert col in cols;
    } else {
      assert cols[..0] == [] && MaxTall(b, []) == 0;
    }
  }

  /** The width asked for is that inside both borders, provided there is room for them. */
  lemma InsideBorders(b: Box, optimal: nat)
    requires 2 * b.border <= optimal < 0x1_0000_0000
    ensures Inner(b, optimal) + 2 * b.border == optimal
  {
  }

  // ----- greedy columns -----

  /** More children than one only while they fit, and no next child that would still fit. */
  ghost predicate Greedy(b: Box, cols: seq<seq<Size>>, height: nat) {
    forall i :: 0 <= i < |cols| ==>
      && cols[i] != [] && |cols[i]| <= Max(1, b.childLimit) && (|cols[i]| > 1 ==> Tall(b, cols[i]) <= height)
      && (i < |cols| - 1 && cols[i + 1] != [] ==> |cols[i]| >= b.childLimit || Tall(b, cols[i] + [cols[i + 1][0]]) > height)
  }

  lemma {:induction false} FilledMost(b: Box, cs: seq<Size>, i: nat, j: nat, height: nat)
    requires i < j <= |cs| && j - i <= Max(1, b.childLimit) && (j - i > 1 ==> Tall(b, cs[i..j]) <= height)
    ensures var k := FilledOn(b, cs, i, j, height);
            && k - i <= Max(1, b.childLimit) && (k - i > 1 ==> Tall(b, cs[i..k]) <= height)
            && (k < |cs| ==> k - i >= b.childLimit || Tall(b, cs[i..k + 1]) > height)
    decreases |cs| - j
  {
    hide Tall;
    if j < |cs| && j - i < b.childLimit && Tall(b, cs[i..j + 1]) <= height {
      FilledMost(b, cs, i, j + 1, height);
    }
  }

  lemma GreedyCons(b: Box, col: seq<Size>, rest: seq<seq<Size>>, height: nat)
    requires Greedy(b, rest, height)
    requires col != [] && |col| <= Max(1, b.childLimit) && (|col| > 1 ==> Tall(b, col) <= height)
    requires rest != [] && rest[0] != [] ==> |col| >= b.childLimit || Tall(b, col + [rest[0][0]]) > height
    ensures Greedy(b, [col] + rest, height)
  {
    hide Tall;
  }

  lemma NothingGreedy(b: Box, height: nat)
    ensures Greedy(b, [], height)
  {
  }

  lemma {:induction false} PackedGreedy(b: Box, cs: seq<Size>, i: nat, height: nat)
    requires i <= |cs|
    ensures Greedy(b, Packed(b, cs, i, height), height)
    ensures i < |cs| ==> var cols := Packed(b, cs, i, height); cols != [] && cols[0] != [] && cols[0][0] == cs[i]
    decreases |cs| - i
  {
    hide Tall, Packed, FilledOn, Greedy;
    PackedOf(b, cs, i, height);
    if i < |cs| {
      var j := Filled(b, cs, i, height);
      FilledMost(b, cs, i, i + 1, height);
      PackedGreedy(b, cs, j, height);
      PackedOf(b, cs, j, height);
      assert j < |cs| ==> cs[i..j] + [cs[j]] == cs[i..j + 1];
      GreedyCons(b, cs[i..j], Packed(b, cs, j, height), height);
    } else {
      NothingGreedy(b, height);
    }
  }

  lemma {:induction false} TallGrows(b: Box, cs: seq<Size>, k: nat)
    requires k <= |cs|
    ensures Tall(b, cs[..k]) <= Tall(b, cs)
    decreases |cs|
  {
    if k < |cs| {
      assert cs[..|cs| - 1][..k] == cs[..k];
      TallGrows(b, cs[..|cs| - 1], k);
    } else {
      assert cs[..k] == cs;
    }
  }

  lemma FlatOf(x: seq<seq<Size>>)
    requires x != []
    ensures Flat(x) == x[0] + Flat(x[1..])
  {
  }

  lemma FlatFirst(x: seq<seq<Size>>)
    requires |x| > 0 && |Flat(x)| > |x[0]| && (|x| > 1 ==> x[1] != [])
    ensures |x| > 1 && Flat(x)[..|x[0]|] == x[0] && Flat(x)[|x[0]|] == x[1][0]
  {
    assert Flat(x) == x[0] + Flat(x[1..]) && x[1..] != [];
    assert Flat(x[1..]) == x[1] + Flat(x[1..][1..]);
  }

  lemma FirstShorter(b: Box, x: seq<seq<Size>>, y: seq<seq<Size>>, height: nat)
    requires Greedy(b, x, height) && Greedy(b, y, height) && Flat(x) == Flat(y) && x != [] && y != []
    ensures |x[0]| >= |y[0]|
  {
    hide Tall, Flat;
    FlatOf(y);
    if |x[0]| < |y[0]| {
      var n, all := |x[0]|, Flat(y);
      assert all[..n + 1] == y[0][..n + 1];
      FlatFirst(x);
      assert y[0][..n + 1] == x[0] + [x[1][0]];
      TallGrows(b, y[0], n + 1);
    }
  }

  lemma GreedyTail(b: Box, x: seq<seq<Size>>, height: nat)
    requires Greedy(b, x, height) && x != []
    ensures Greedy(b, x[1..], height) && x[0] != []
  {
  }

  /** There is one greedy way to put children into columns. */
  lemma {:induction false} GreedyOnce(b: Box, x: seq<seq<Size>>, y: seq<seq<Size>>, height: nat)
    requires Greedy(b, x, height) && Greedy(b, y, height) && Flat(x) == Flat(y)
    ensures x == y
    decreases |x|
  {
    hide Greedy;
    if x != [] && y != [] {
      FirstShorter(b, x, y, height);
      FirstShorter(b, y, x, height);
      GreedyTail(b, x, height);
      GreedyTail(b, y, height);
      assert Flat(x) == x[0] + Flat(x[1..]) && Flat(y) == y[0] + Flat(y[1..]);
      assert x[0] == Flat(x)[..|x[0]|] == y[0];
      assert Flat(x[1..]) == Flat(x)[|x[0]|..] == Flat(y[1..]);
      GreedyOnce(b, x[1..], y[1..], height);
      assert x == [x[0]] + x[1..] && y == [y[0]] + y[1..];
    } else if x != [] {
      GreedyTail(b, x, height);
    } else if y != [] {
      GreedyTail(b, y, height);
    }
  }

  /** So the columns of an allocation are exactly the greedy ones. */
  lemma AllocatedIff(b: Box, cs: seq<Size>, height: nat, cols: seq<seq<Size>>)
    ensures cols == Packed(b, cs, 0, height) <==> Greedy(b, cols, height) && Flat(cols) == cs
  {
    hide Greedy, Packed;
    PackedGreedy(b, cs, 0, height);
    PackedPartition(b, cs, 0, height);
    assert cs[0..] == cs;
    if Greedy(b, cols, height) && Flat(cols) == cs {
      GreedyOnce(b, cols, Packed(b, cs, 0, height), height);
    }
  }
}
