/** The wrap box's column arithmetic on (width, height) pairs: the size request that
    searches for a number of columns, and the allocation that fills columns greedily. */
module WrapBox {
  datatype Size = Size(width: nat, height: nat)

  /** Spacing between columns and rows, and the border, of one box. */
  datatype Box = Box(hspacing: nat, vspacing: nat, border: nat, childLimit: nat)

  function Max(a: nat, b: nat): nat {
    if a < b then b else a
  }

  function Min(a: nat, b: nat): nat {
    if a < b then a else b
  }

  // ----- what a layout measures -----

  /** Width of children side by side. */
  function RowWidth(b: Box, cs: seq<Size>): nat {
    if cs == [] then 0
    else RowWidth(b, cs[..|cs| - 1]) + (if |cs| > 1 then b.hspacing else 0) + cs[|cs| - 1].width
  }

  function Widest(cs: seq<Size>): (w: nat)
    ensures forall c :: c in cs ==> c.width <= w
    ensures cs != [] ==> exists c :: c in cs && c.width == w
  {
    if cs == [] then 0
    else
      var t := cs[..|cs| - 1];
      assert cs == t + [cs[|cs| - 1]];
      assert cs[|cs| - 1] in cs;
      assert forall c :: c in t ==> c in cs;
      Max(Widest(t), cs[|cs| - 1].width)
  }

  /** Height of children on top of each other. */
  function Tall(b: Box, cs: seq<Size>): nat {
    if cs == [] then 0
    else Tall(b, cs[..|cs| - 1]) + (if |cs| > 1 then b.vspacing else 0) + cs[|cs| - 1].height
  }

  /** The columns of a layout with `rows` children to a column, in order. */
  function Columns(cs: seq<Size>, rows: nat): (cols: seq<seq<Size>>)
    requires rows > 0
    ensures forall col :: col in cols ==> col != [] && |col| <= rows
    decreases |cs|
  {
    if cs == [] then [] else [cs[..Min(rows, |cs|)]] + Columns(cs[Min(rows, |cs|)..], rows)
  }

  function Flat<T>(xs: seq<seq<T>>): seq<T> {
    if xs == [] then [] else xs[0] + Flat(xs[1..])
  }

  lemma {:induction false} ColumnsPartition(cs: seq<Size>, rows: nat)
    requires rows > 0
    ensures Flat(Columns(cs, rows)) == cs
    decreases |cs|
  {
    if cs != [] {
      ColumnsPartition(cs[Min(rows, |cs|)..], rows);
    }
  }

  /** The widest child of every column, and the spacing between columns. */
  function TotalWidth(b: Box, cols: seq<seq<Size>>): nat {
    if cols == [] then 0
    else TotalWidth(b, cols[..|cols| - 1]) + (if |cols| > 1 then b.hspacing else 0) + Widest(cols[|cols| - 1])
  }

  function MaxTall(b: Box, cols: seq<seq<Size>>): (h: nat)
    ensures forall col :: col in cols ==> Tall(b, col) <= h
  {
    if cols == [] then 0
    else
      var t := cols[..|cols| - 1];
      assert forall col :: col in cols ==> col in t || col == cols[|cols| - 1];
      Max(MaxTall(b, t), Tall(b, cols[|cols| - 1]))
  }

  /** Rows for a number of columns, from the 16-bit count of children the source keeps. */
  function Rows(cs: seq<Size>, cols: nat): nat
    requires cols > 0
  {
    var n := |cs| % 65536;
    n / cols + if n % cols == 0 then 0 else 1
  }

  lemma RowsPositive(cs: seq<Size>, cols: nat)
    requires cols > 0 && |cs| % 65536 > 0
    ensures Rows(cs, cols) > 0
  {
  }

  /** The layout tried for a number of columns. */
  function Layout(cs: seq<Size>, cols: nat): seq<seq<Size>>
    requires cols > 0 && |cs| % 65536 > 0
  {
    RowsPositive(cs, cols);
    Columns(cs, Rows(cs, cols))
  }

  predicate Fits(b: Box, cs: seq<Size>, cols: nat, width: nat)
    requires cols > 0 && |cs| % 65536 > 0
  {
    TotalWidth(b, Layout(cs, cols)) <= width
  }

  // ----- the size request -----

  /** How many children fit side by side from the first on. */
  method GetUpperBoundCols(b: Box, cs: seq<Size>, optimal: nat) returns (cols: nat)
    ensures cols <= |cs|
    ensures cols > 0 ==> RowWidth(b, cs[..cols]) <= optimal
    ensures cols < |cs| ==> RowWidth(b, cs[..cols + 1]) > optimal
  {
    var width := 0;
    cols := 0;
    while cols < |cs|
      invariant cols <= |cs| && width == RowWidth(b, cs[..cols]) && (cols > 0 ==> width <= optimal)
    {
      assert cs[..cols + 1][..cols] == cs[..cols];
      if cols > 0 {
        width := width + b.hspacing;
      }
      width := width + cs[cols].width;
      if width > optimal {
        return;
      }
      cols := cols + 1;
    }
  }

  lemma {:induction false} WidestPrefix(a: seq<Size>, c: seq<Size>)
    requires a <= c
    ensures Widest(a) <= Widest(c)
    decreases |c|
  {
    if a != c {
      WidestPrefix(a, c[..|c| - 1]);
    }
  }

  lemma {:induction false} TotalPrefix(b: Box, a: seq<seq<Size>>, c: seq<seq<Size>>)
    requires a <= c
    ensures TotalWidth(b, a) <= TotalWidth(b, c)
    decreases |c|
  {
    if a != c {
      TotalPrefix(b, a, c[..|c| - 1]);
    }
  }

  lemma TotalAppend(b: Box, cols: seq<seq<Size>>, col: seq<Size>)
    ensures TotalWidth(b, cols + [col]) == TotalWidth(b, cols) + (if cols == [] then 0 else b.hspacing) + Widest(col)
    ensures MaxTall(b, cols + [col]) == Max(MaxTall(b, cols), Tall(b, col))
  {
    assert (cols + [col])[..|cols|] == cols;
  }

  lemma ColumnAppend(b: Box, cs: seq<Size>, s: nat, k: nat)
    requires s <= k < |cs|
    ensures Widest(cs[s..k + 1]) == Max(Widest(cs[s..k]), cs[k].width)
    ensures Tall(b, cs[s..k + 1]) == Tall(b, cs[s..k]) + (if k > s then b.vspacing else 0) + cs[k].height
  {
    var col := cs[s..k + 1];
    assert col[..|col| - 1] == cs[s..k] && col[|col| - 1] == cs[k];
  }

  /** The last column counts towards the height unless it is unfinished and takes up no
      width at all. */
  predicate Counted(b: Box, cols: seq<seq<Size>>, rows: nat)
    requires cols != []
  {
    var last := cols[|cols| - 1];
    |last| == rows || Widest(last) + (if |cols| > 1 then b.hspacing else 0) > 0
  }

  function CountedTall(b: Box, cols: seq<seq<Size>>, rows: nat): nat {
    if cols == [] || Counted(b, cols, rows) then MaxTall(b, cols) else MaxTall(b, cols[..|cols| - 1])
  }

  /** The part of the layout already laid: finished columns, and the start of the next. */
  ghost predicate LaidSoFar(cs: seq<Size>, rows: nat, done: seq<seq<Size>>, s: nat) {
    && rows > 0 && s <= |cs| && Columns(cs, rows) == done + Columns(cs[s..], rows)
    && forall col :: col in done ==> |col| == rows
  }

  lemma ColumnDone(cs: seq<Size>, rows: nat, done: seq<seq<Size>>, s: nat)
    requires LaidSoFar(cs, rows, done, s) && s + rows <= |cs|
    ensures LaidSoFar(cs, rows, done + [cs[s..s + rows]], s + rows)
  {
    var rest := cs[s..];
    assert rest[..rows] == cs[s..s + rows] && rest[rows..] == cs[s + rows..];
    var tail := Columns(cs[s + rows..], rows);
    assert Columns(rest, rows) == [cs[s..s + rows]] + tail;
    assert done + ([cs[s..s + rows]] + tail) == (done + [cs[s..s + rows]]) + tail;
  }

  /** A column so far too wide makes the whole layout too wide. */
  lemma TooWide(b: Box, cs: seq<Size>, rows: nat, done: seq<seq<Size>>, s: nat, k: nat, width: nat, height: nat, optimal: nat)
    requires LaidSoFar(cs, rows, done, s) && s < k && k - s <= rows && Column(b, cs, s, k, done == [], width, height)
    requires TotalWidth(b, done) + width > optimal
    ensures TotalWidth(b, Columns(cs, rows)) > optimal
  {
    hide Widest, Tall, TotalWidth, MaxTall;
    var rest := cs[s..];
    var col := rest[..Min(rows, |rest|)];
    assert Columns(rest, rows) == [col] + Columns(rest[Min(rows, |rest|)..], rows);
    assert cs[s..k] <= col;
    WidestPrefix(cs[s..k], col);
    TotalAppend(b, done, col);
    TotalPrefix(b, done + [col], Columns(cs, rows));
  }

  lemma LastColumn(b: Box, cs: seq<Size>, rows: nat, done: seq<seq<Size>>, s: nat)
    requires LaidSoFar(cs, rows, done, s) && |cs| - s < rows
    ensures Columns(cs, rows) == if s == |cs| then done else done + [cs[s..]]
  {
    var rest := cs[s..];
    if rest != [] {
      assert Columns(rest, rows) == [rest[..|rest|]] + Columns(rest[|rest|..], rows);
      assert rest[..|rest|] == rest && rest[|rest|..] == [];
    } else {
      assert done + [] == done;
    }
  }

  /** Width and height of an unfinished column; the spacing before it is part of it. */
  ghost predicate Column(b: Box, cs: seq<Size>, s: nat, k: nat, first: bool, width: nat, height: nat) {
    && s <= k <= |cs| && height == Tall(b, cs[s..k])
    && width == if s == k then 0 else Widest(cs[s..k]) + if first then 0 else b.hspacing
  }

  lemma ColumnGrows(b: Box, cs: seq<Size>, s: nat, k: nat, first: bool, width: nat, height: nat)
    requires Column(b, cs, s, k, first, width, height) && k < |cs|
    ensures Column(b, cs, s, k + 1, first,
                   Max(width, cs[k].width + if first then 0 else b.hspacing),
                   height + (if k > s then b.vspacing else 0) + cs[k].height)
  {
    ColumnAppend(b, cs, s, k);
    assert cs[s..s] == [];
  }

  lemma ColumnStarts(b: Box, cs: seq<Size>, s: nat, first: bool)
    requires s <= |cs|
    ensures Column(b, cs, s, s, first, 0, 0)
  {
    assert cs[s..s] == [];
  }

  /** One pass over the children with a fixed number of rows: lay them out column by
      column, and stop as soon as a column does not fit. */
  method TryColumns(b: Box, cs: seq<Size>, rows: nat, optimal: nat) returns (fits: bool, width: nat, height: nat)
    requires rows > 0
    ensures fits <==> TotalWidth(b, Columns(cs, rows)) <= optimal
    ensures fits ==> width == TotalWidth(b, Columns(cs, rows))
                     && height == CountedTall(b, Columns(cs, rows), rows)
  {
    hide Widest, Tall, TotalWidth, MaxTall, Columns, CountedTall, LaidSoFar, Column;
    width, height := 0, 0;
    var colWidth: nat, colHeight: nat, row: nat, col: nat := 0, 0, 0, 1;
    ghost var done: seq<seq<Size>> := [];
    ghost var s := 0;
    NothingLaid(b, cs, rows);
    ColumnStarts(b, cs, 0, true);
    var k := 0;
    while k < |cs|
      invariant 0 <= k <= |cs| && row == k - s && row < rows && col == |done| + 1
      invariant LaidSoFar(cs, rows, done, s) && Column(b, cs, s, k, done == [], colWidth, colHeight)
      invariant width == TotalWidth(b, done) && height == MaxTall(b, done) && width + colWidth <= optimal
    {
      ColumnGrows(b, cs, s, k, done == [], colWidth, colHeight);
      row := row + 1;
      var childWidth := cs[k].width;
      if col > 1 {
        childWidth := childWidth + b.hspacing;
      }
      if row > 1 {
        colHeight := colHeight + b.vspacing;
      }
      colHeight := colHeight + cs[k].height;
      colWidth := Max(colWidth, childWidth);
      if width + colWidth > optimal {
        TooWide(b, cs, rows, done, s, k + 1, colWidth, colHeight, optimal);
        return false, 0, 0;
      }
      k := k + 1;
      if row == rows {
        ColumnCloses(b, cs, rows, done, s, colWidth, colHeight);
        ColumnStarts(b, cs, k, false);
        width := width + colWidth;
        height := Max(height, colHeight);
        done, s := done + [cs[s..k]], k;
        row, col, colWidth, colHeight := 0, col + 1, 0, 0;
      }
    }
    Finish(b, cs, rows, done, s, colWidth, colHeight);
    fits := true;
    if colWidth > 0 {
      width := width + colWidth;
      height := Max(height, colHeight);
    }
  }

  lemma ColumnCloses(b: Box, cs: seq<Size>, rows: nat, done: seq<seq<Size>>, s: nat, width: nat, height: nat)
    requires LaidSoFar(cs, rows, done, s) && s + rows <= |cs| && Column(b, cs, s, s + rows, done == [], width, height)
    ensures LaidSoFar(cs, rows, done + [cs[s..s + rows]], s + rows)
    ensures TotalWidth(b, done + [cs[s..s + rows]]) == TotalWidth(b, done) + width
    ensures MaxTall(b, done + [cs[s..s + rows]]) == Max(MaxTall(b, done), height)
  {
    hide Widest, Tall, TotalWidth, MaxTall, Columns;
    TotalAppend(b, done, cs[s..s + rows]);
    ColumnDone(cs, rows, done, s);
  }

  lemma NothingLaid(b: Box, cs: seq<Size>, rows: nat)
    requires rows > 0
    ensures LaidSoFar(cs, rows, [], 0) && TotalWidth(b, []) == 0 && MaxTall(b, []) == 0
  {
    assert cs[0..] == cs;
  }

  /** The columns once the last child is laid, finished or not. */
  lemma Finish(b: Box, cs: seq<Size>, rows: nat, done: seq<seq<Size>>, s: nat, width: nat, height: nat)
    requires LaidSoFar(cs, rows, done, s) && |cs| - s < rows && Column(b, cs, s, |cs|, done == [], width, height)
    ensures TotalWidth(b, Columns(cs, rows)) == TotalWidth(b, done) + width
    ensures CountedTall(b, Columns(cs, rows), rows)
            == if width > 0 then Max(MaxTall(b, done), height) else MaxTall(b, done)
  {
    hide Widest, Tall, TotalWidth, MaxTall, Columns;
    LastColumn(b, cs, rows, done, s);
    if s < |cs| {
      assert cs[s..|cs|] == cs[s..];
      TotalAppend(b, done, cs[s..]);
      assert (done + [cs[s..]])[..|done|] == done;
    } else if done != [] {
      assert done[|done| - 1] in done;
    }
  }

  /** The width inside the border, in the source's 32-bit arithmetic. */
  function Inner(b: Box, optimal: nat): nat {
    (optimal - 2 * b.border) % 0x1_0000_0000
  }

  /** So many rows, and no fewer, hold n children in that many columns. */
  predicate LeastRows(n: nat, cols: nat, rows: nat) {
    rows > 0 && cols * (rows - 1) < n <= cols * rows
  }

  /** From this many columns up to the first guess none fits. */
  ghost predicate TooWideFrom(b: Box, cs: seq<Size>, first: nat, upper: nat, width: nat) {
    forall c: nat, r: nat :: first <= c <= upper && LeastRows(|cs| % 65536, c, r) ==> TotalWidth(b, Columns(cs, r)) > width
  }

  /** The size of a layout with that many rows, which fits. */
  ghost predicate SizeOf(b: Box, cs: seq<Size>, rows: nat, inner: nat, width: nat, height: nat)
    requires rows > 0
  {
    && width == TotalWidth(b, Columns(cs, rows)) + 2 * b.border && width <= inner + 2 * b.border
    && height == CountedTall(b, Columns(cs, rows), rows) + 2 * b.border
  }

  /** What is asked for: the largest number of columns up to the first guess that fits with
      the rows it needs, and its size; or, when none fits, 0 columns, which means a single
      one. */
  ghost predicate Requested(b: Box, cs: seq<Size>, optimal: nat, width: nat, height: nat, cols: nat) {
    exists upper :: UpperBound(b, cs, Inner(b, optimal), upper) &&
      if cols > 0 then
        && cols <= upper && TooWideFrom(b, cs, cols + 1, upper, Inner(b, optimal))
        && exists rows :: LeastRows(|cs| % 65536, cols, rows) && SizeOf(b, cs, rows, Inner(b, optimal), width, height)
      else
        && TooWideFrom(b, cs, 1, upper, Inner(b, optimal))
        && width == Inner(b, optimal) + 2 * b.border && height == Tall(b, cs) + 2 * b.border
  }

  lemma RowsLeast(cs: seq<Size>, cols: nat)
    requires cols > 0 && |cs| % 65536 > 0
    ensures LeastRows(|cs| % 65536, cols, Rows(cs, cols))
  {
    Divided(|cs| % 65536, cols);
  }

  lemma Divided(n: nat, cols: nat)
    requires cols > 0
    ensures n == cols * (n / cols) + n % cols && cols * (n / cols + 1) == cols * (n / cols) + cols
    ensures n > 0 && n % cols == 0 ==> n / cols > 0 && cols * (n / cols - 1) == cols * (n / cols) - cols
  {
  }

  lemma LeastRowsOnce(n: nat, cols: nat, r: nat, s: nat)
    requires LeastRows(n, cols, r) && LeastRows(n, cols, s)
    ensures r == s
  {
    if r < s { Product(cols, r, s - 1); }
    if s < r { Product(cols, s, r - 1); }
  }

  lemma Product(cols: nat, r: nat, s: nat)
    requires r <= s
    ensures cols * r <= cols * s
  {
  }

  lemma {:induction false} ColumnsHold(cs: seq<Size>, rows: nat)
    requires rows > 0
    ensures |cs| <= |Columns(cs, rows)| * rows
    decreases |cs|
  {
    hide Columns;
    ColumnsOf(cs, rows);
    if cs != [] {
      var rest := cs[Min(rows, |cs|)..];
      ColumnsHold(rest, rows);
      MoreColumns(|Columns(rest, rows)| + 1, rows);
    }
  }

  /** The rows a request counts with are the fewest that need no more columns than it
      settles on. */
  lemma LeastRowsMeans(cs: seq<Size>, cols: nat, rows: nat)
    requires LeastRows(|cs|, cols, rows)
    ensures |Columns(cs, rows)| <= cols && forall r :: 0 < r < rows ==> |Columns(cs, r)| > cols
  {
    hide Columns;
    ColumnsCount(cs, rows, cols);
    forall r | 0 < r < rows ensures |Columns(cs, r)| > cols {
      ColumnsHold(cs, r);
      Product(cols, r, rows - 1);
      Product(r, |Columns(cs, r)|, if |Columns(cs, r)| <= cols then cols else |Columns(cs, r)|);
    }
  }

  lemma TooWideMeans(b: Box, cs: seq<Size>, first: nat, upper: nat, width: nat)
    requires |cs| % 65536 > 0 && first > 0 && forall c :: first <= c <= upper ==> !Fits(b, cs, c, width)
    ensures TooWideFrom(b, cs, first, upper, width)
  {
    hide Columns, TotalWidth, Rows;
    forall c: nat, r: nat | first <= c <= upper && LeastRows(|cs| % 65536, c, r) ensures TotalWidth(b, Columns(cs, r)) > width {
      RowsLeast(cs, c);
      LeastRowsOnce(|cs| % 65536, c, r, Rows(cs, c));
      assert !Fits(b, cs, c, width);
    }
  }

  lemma RowsOfRequest(b: Box, cs: seq<Size>, optimal: nat, width: nat, height: nat, cols: nat)
    requires Requested(b, cs, optimal, width, height, cols) && cols > 0
    ensures |cs| % 65536 > 0 && SizeOf(b, cs, Rows(cs, cols), Inner(b, optimal), width, height)
  {
    hide Columns, TotalWidth, Rows, UpperBound, TooWideFrom, SizeOf;
    var rows :| LeastRows(|cs| % 65536, cols, rows) && SizeOf(b, cs, rows, Inner(b, optimal), width, height);
    SomeChildren(|cs| % 65536, cols, rows);
    RowsLeast(cs, cols);
    LeastRowsOnce(|cs| % 65536, cols, rows, Rows(cs, cols));
  }

  lemma SomeChildren(n: nat, cols: nat, rows: nat)
    requires LeastRows(n, cols, rows)
    ensures n > 0
  {
  }

  /** The size request over children that are all visible. */
  method SizeRequestOptimal(b: Box, cs: seq<Size>, optimal: nat) returns (width: nat, height: nat, cols: nat)
    ensures Requested(b, cs, optimal, width, height, cols)
  {
    hide Columns, TotalWidth, Tall, MaxTall, Rows, CountedTall, Fits, TooWideFrom, LeastRows, UpperBound;
    var inner := Inner(b, optimal);
    cols := GetUpperBoundCols(b, cs, inner);
    ghost var upper := cols;
    UpperBoundIs(b, cs, inner, upper);
    var n := |cs| % 65536;
    while cols > 0 && n > 0
      invariant cols <= upper
      invariant n > 0 ==> forall c :: cols < c <= upper ==> !Fits(b, cs, c, inner)
      decreases cols
    {
      RowsPositive(cs, cols);
      FitsMeans(b, cs, cols, inner);
      var fits, w, h := TryColumns(b, cs, Rows(cs, cols), inner);
      if fits {
        TooWideMeans(b, cs, cols + 1, upper, inner);
        RowsLeast(cs, cols);
        return w + 2 * b.border, h + 2 * b.border, cols;
      }
      cols := cols - 1;
    }
    if n > 0 {
      TooWideMeans(b, cs, 1, upper, inner);
    } else {
      NoChildren(b, cs, upper, inner);
    }
    cols := 0;
    height := SingleColumn(b, cs);
    height := height + 2 * b.border;
    width := inner + 2 * b.border;
  }

  lemma FitsMeans(b: Box, cs: seq<Size>, cols: nat, width: nat)
    requires cols > 0 && |cs| % 65536 > 0
    ensures Rows(cs, cols) > 0
    ensures Fits(b, cs, cols, width) <==> TotalWidth(b, Columns(cs, Rows(cs, cols))) <= width
  {
  }

  lemma NoChildren(b: Box, cs: seq<Size>, upper: nat, width: nat)
    requires |cs| % 65536 == 0
    ensures TooWideFrom(b, cs, 1, upper, width)
  {
    hide Columns, TotalWidth, LeastRows;
    forall c: nat, r: nat ensures !LeastRows(0, c, r) {
      NoRows(c, r);
    }
  }

  lemma NoRows(cols: nat, rows: nat)
    ensures !LeastRows(0, cols, rows)
  {
  }

  lemma UpperBoundIs(b: Box, cs: seq<Size>, optimal: nat, cols: nat)
    requires cols <= |cs|
    requires cols > 0 ==> RowWidth(b, cs[..cols]) <= optimal
    requires cols < |cs| ==> RowWidth(b, cs[..cols + 1]) > optimal
    ensures UpperBound(b, cs, optimal, cols)
  {
  }

  /** What the first guess at a number of columns is: the children that fit in one row. */
  ghost predicate UpperBound(b: Box, cs: seq<Size>, optimal: nat, cols: nat) {
    && cols <= |cs|
    && (cols > 0 ==> RowWidth(b, cs[..cols]) <= optimal)
    && (cols < |cs| ==> RowWidth(b, cs[..cols + 1]) > optimal)
  }

  method SingleColumn(b: Box, cs: seq<Size>) returns (height: nat)
    ensures height == Tall(b, cs)
  {
    height := 0;
    for k := 0 to |cs|
      invariant height == Tall(b, cs[..k])
    {
      assert cs[..k + 1][..k] == cs[..k];
      if k > 0 {
        height := height + b.vspacing;
      }
      height := height + cs[k].height;
    }
    assert cs[..|cs|] == cs;
  }

  lemma {:induction false} RowWidthGrows(b: Box, cs: seq<Size>, i: nat, j: nat)
    requires i <= j <= |cs|
    ensures RowWidth(b, cs[..i]) <= RowWidth(b, cs[..j])
    decreases j
  {
    if i < j {
      assert cs[..j][..j - 1] == cs[..j - 1];
      RowWidthGrows(b, cs, i, j - 1);
    }
  }

  /** There is one first guess, so the number of columns settled on is the largest that
      fits and does not exceed it. */
  lemma UpperBoundUnique(b: Box, cs: seq<Size>, optimal: nat, x: nat, y: nat)
    requires UpperBound(b, cs, optimal, x) && UpperBound(b, cs, optimal, y)
    ensures x == y
  {
    if x < y { RowWidthGrows(b, cs, x + 1, y); }
    if y < x { RowWidthGrows(b, cs, y + 1, x); }
  }

  lemma TwoColumns(l: seq<Size>, r: seq<Size>)
    requires |l| > 0 && 0 < |r| <= |l|
    ensures Columns(l + r, |l|) == [l, r]
  {
    var cs := l + r;
    assert cs[..|l|] == l && cs[|l|..] == r && r[..|r|] == r && r[|r|..] == [];
    assert Columns([], |l|) == [] && Columns(r, |l|) == [r] + Columns([], |l|);
    assert Columns(cs, |l|) == [l] + Columns(r, |l|);
  }

  lemma TwoWidths(b: Box, l: seq<Size>, r: seq<Size>)
    ensures TotalWidth(b, [l, r]) == Widest(l) + b.hspacing + Widest(r)
    ensures MaxTall(b, [l, r]) == Max(Tall(b, l), Tall(b, r)) && MaxTall(b, [l]) == Tall(b, l)
  {
    hide Widest, Tall;
    TotalAppend(b, [], l);
    TotalAppend(b, [l], r);
    assert [] + [l] == [l] && [l] + [r] == [l, r];
    assert TotalWidth(b, []) == 0 && MaxTall(b, []) == 0;
  }

  lemma Pushed(b: Box, col: seq<Size>, c: Size)
    ensures Widest(col + [c]) == Max(Widest(col), c.width)
    ensures Tall(b, col + [c]) == Tall(b, col) + (if col == [] then 0 else b.vspacing) + c.height
  {
    assert (col + [c])[..|col|] == col;
  }

  lemma TwoMeasures(b: Box, c: Size, d: Size)
    ensures Widest([c, d]) == Max(c.width, d.width) && Tall(b, [c, d]) == c.height + b.vspacing + d.height
  {
    hide Widest, Tall;
    EmptyColumn(b, []);
    Pushed(b, [], c);
    Pushed(b, [c], d);
    assert [] + [c] == [c] && [c] + [d] == [c, d];
  }

  lemma ThreeMeasures(b: Box, c: Size, d: Size, e: Size)
    ensures Widest([c, d, e]) == Max(Max(c.width, d.width), e.width)
    ensures Tall(b, [c, d, e]) == c.height + b.vspacing + d.height + b.vspacing + e.height
  {
    hide Widest, Tall;
    TwoMeasures(b, c, d);
    Pushed(b, [c, d], e);
    assert [c, d] + [e] == [c, d, e];
  }

  lemma TwoAbreast(b: Box, c: Size, d: Size)
    ensures RowWidth(b, [c]) == c.width && RowWidth(b, [c, d]) == c.width + b.hspacing + d.width
  {
    assert [c][..0] == [] && [c, d][..1] == [c];
  }

  /** The first guess is no upper bound: two columns may fit where two children do not fit
      side by side. */
  lemma FirstGuessTooSmall(b: Box)
    requires b == Box(0, 0, 0, 32)
    ensures var cs := [Size(10, 1), Size(10, 1), Size(1, 1), Size(1, 1)];
            UpperBound(b, cs, 11, 1) && Fits(b, cs, 2, 11)
  {
    hide Columns, TotalWidth, Widest, Tall, MaxTall, RowWidth;
    var l, r := [Size(10, 1), Size(10, 1)], [Size(1, 1), Size(1, 1)];
    var cs := [Size(10, 1), Size(10, 1), Size(1, 1), Size(1, 1)];
    assert cs == l + r && cs[..1] == [Size(10, 1)] && cs[..2] == l;
    TwoAbreast(b, Size(10, 1), Size(10, 1));
    TwoColumns(l, r);
    TwoWidths(b, l, r);
    TwoMeasures(b, Size(10, 1), Size(10, 1));
    TwoMeasures(b, Size(1, 1), Size(1, 1));
  }

  // ----- when the first guess is an upper bound -----

  lemma {:induction false} UpperBoundFrom(b: Box, cs: seq<Size>, optimal: nat, k: nat) returns (upper: nat)
    requires k <= |cs| && (k > 0 ==> RowWidth(b, cs[..k]) <= optimal)
    ensures UpperBound(b, cs, optimal, upper)
    decreases |cs| - k
  {
    hide RowWidth;
    if k < |cs| && RowWidth(b, cs[..k + 1]) <= optimal {
      upper := UpperBoundFrom(b, cs, optimal, k + 1);
    } else {
      upper := k;
    }
  }

  lemma {:induction false} ColumnsFew(cs: seq<Size>, rows: nat)
    requires rows > 0
    ensures |Columns(cs, rows)| <= |cs|
    decreases |cs|
  {
    if cs != [] {
      ColumnsFew(cs[Min(rows, |cs|)..], rows);
    }
  }

  /** For no width does a layout that fits have more columns than the first guess. */
  ghost predicate TrueBound(b: Box, cs: seq<Size>) {
    forall optimal: nat, upper: nat, rows: nat ::
      rows > 0 && UpperBound(b, cs, optimal, upper) && TotalWidth(b, Columns(cs, rows)) <= optimal ==> |Columns(cs, rows)| <= upper
  }

  /** As many children from the first on as there are columns are no wider than these. */
  predicate FrontNarrow(b: Box, cs: seq<Size>, rows: nat)
    requires rows > 0
  {
    ColumnsFew(cs, rows);
    RowWidth(b, cs[..|Columns(cs, rows)|]) <= TotalWidth(b, Columns(cs, rows))
  }

  /** The first guess is an upper bound exactly when the first children are never wider
      than a layout of as many columns. */
  lemma TrueBoundIff(b: Box, cs: seq<Size>)
    ensures TrueBound(b, cs) <==> forall rows: nat :: rows > 0 ==> FrontNarrow(b, cs, rows)
  {
    hide RowWidth, TotalWidth, Columns;
    if TrueBound(b, cs) {
      forall rows: nat | rows > 0 ensures FrontNarrow(b, cs, rows) {
        BoundNarrow(b, cs, rows);
      }
    }
    if forall rows: nat :: rows > 0 ==> FrontNarrow(b, cs, rows) {
      forall optimal: nat, upper: nat, rows: nat
        | rows > 0 && UpperBound(b, cs, optimal, upper) && TotalWidth(b, Columns(cs, rows)) <= optimal
        ensures |Columns(cs, rows)| <= upper
      {
        ColumnsFew(cs, rows);
        assert FrontNarrow(b, cs, rows);
        if upper < |Columns(cs, rows)| {
          RowWidthGrows(b, cs, upper + 1, |Columns(cs, rows)|);
        }
      }
    }
  }

  lemma BoundNarrow(b: Box, cs: seq<Size>, rows: nat)
    requires rows > 0 && TrueBound(b, cs)
    ensures FrontNarrow(b, cs, rows)
  {
    hide RowWidth, TotalWidth, Columns;
    var cols := Columns(cs, rows);
    var upper := UpperBoundFrom(b, cs, TotalWidth(b, cols), 0);
    ColumnsFew(cs, rows);
    RowWidthGrows(b, cs, |cols|, upper);
    NoRowWidth(b, cs);
  }

  lemma NoRowWidth(b: Box, cs: seq<Size>)
    ensures RowWidth(b, cs[..0]) == 0
  {
  }

  lemma {:induction false} ColumnHead(cs: seq<Size>, rows: nat, c: nat) returns (p: nat)
    requires rows > 0 && c < |Columns(cs, rows)|
    ensures c <= p < |cs| && cs[p] in Columns(cs, rows)[c]
    decreases |cs|
  {
    var m := Min(rows, |cs|);
    if c == 0 {
      assert cs[..m][0] == cs[0];
      p := 0;
    } else {
      var q := ColumnHead(cs[m..], rows, c - 1);
      p := q + m;
    }
  }

  lemma {:induction false} FrontWithin(b: Box, cs: seq<Size>, cols: seq<seq<Size>>, n: nat)
    requires n <= |cols| && n <= |cs| && forall c :: 0 <= c < n ==> cs[c].width <= Widest(cols[c])
    ensures RowWidth(b, cs[..n]) <= TotalWidth(b, cols[..n])
    decreases n
  {
    hide Widest;
    if n > 0 {
      FrontWithin(b, cs, cols, n - 1);
      assert cs[..n][..n - 1] == cs[..n - 1] && cols[..n][..n - 1] == cols[..n - 1];
    }
  }

  /** So it is when the children's widths never decrease. */
  lemma RisingWidthsBound(b: Box, cs: seq<Size>)
    requires forall i, j :: 0 <= i <= j < |cs| ==> cs[i].width <= cs[j].width
    ensures TrueBound(b, cs)
  {
    hide RowWidth, TotalWidth, Columns, TrueBound, Widest;
    forall rows: nat | rows > 0 ensures FrontNarrow(b, cs, rows) {
      var cols := Columns(cs, rows);
      ColumnsFew(cs, rows);
      forall c | 0 <= c < |cols| ensures cs[c].width <= Widest(cols[c]) {
        var p := ColumnHead(cs, rows, c);
      }
      FrontWithin(b, cs, cols, |cols|);
      assert cols[..|cols|] == cols;
    }
    TrueBoundIff(b, cs);
  }

  // ----- the allocation -----

  /** Fill one column from child `i` on: the first child always, then those that still fit. */
  method FillColumn(b: Box, cs: seq<Size>, i: nat, height: nat) returns (j: nat, width: nat)
    requires i < |cs|
    ensures j == Filled(b, cs, i, height) && width == Widest(cs[i..j])
  {
    hide Widest, Tall;
    j := i + 1;
    width := cs[i].width;
    var h := cs[i].height;
    ColumnAppend(b, cs, i, i);
    EmptyColumn(b, cs[i..i]);
    while j < |cs| && j - i < b.childLimit
      invariant i < j <= |cs| && h == Tall(b, cs[i..j]) && width == Widest(cs[i..j])
      invariant Filled(b, cs, i, height) == FilledOn(b, cs, i, j, height)
      decreases |cs| - j
    {
      ColumnAppend(b, cs, i, j);
      if h + b.vspacing + cs[j].height > height {
        return;
      }
      h := h + b.vspacing + cs[j].height;
      width := Max(width, cs[j].width);
      j := j + 1;
    }
  }

  lemma EmptyColumn(b: Box, col: seq<Size>)
    requires col == []
    ensures Tall(b, col) == 0 && Widest(col) == 0
  {
  }

  /** Where the column that starts at `i` ends. */
  function Filled(b: Box, cs: seq<Size>, i: nat, height: nat): (j: nat)
    requires i < |cs|
    ensures i < j <= |cs|
  {
    FilledOn(b, cs, i, i + 1, height)
  }

  function FilledOn(b: Box, cs: seq<Size>, i: nat, j: nat, height: nat): (k: nat)
    requires i < j <= |cs|
    ensures j <= k <= |cs|
    decreases |cs| - j
  {
    if j < |cs| && j - i < b.childLimit && Tall(b, cs[i..j + 1]) <= height then FilledOn(b, cs, i, j + 1, height) else j
  }

  /** The columns of an allocation. */
  function Packed(b: Box, cs: seq<Size>, i: nat, height: nat): seq<seq<Size>>
    requires i <= |cs|
    decreases |cs| - i
  {
    if i == |cs| then [] else [cs[i..Filled(b, cs, i, height)]] + Packed(b, cs, Filled(b, cs, i, height), height)
  }

  lemma PackedOf(b: Box, cs: seq<Size>, i: nat, height: nat)
    requires i <= |cs|
    ensures Packed(b, cs, i, height)
            == if i == |cs| then [] else [cs[i..Filled(b, cs, i, height)]] + Packed(b, cs, Filled(b, cs, i, height), height)
  {
  }

  /** The columns of a box that is given a height. */
  function Allocated(b: Box, cs: seq<Size>, given: nat): seq<seq<Size>> {
    Packed(b, cs, 0, Max(1, if given < 2 * b.border then 0 else given - 2 * b.border))
  }

  method LayoutCols(b: Box, cs: seq<Size>, given: nat) returns (lines: seq<seq<Size>>)
    ensures lines == Allocated(b, cs, given)
  {
    hide Filled, Widest, Tall, Packed;
    var height := Max(1, if given < 2 * b.border then 0 else given - 2 * b.border);
    var i := 0;
    lines := [];
    while i < |cs|
      invariant 0 <= i <= |cs| && lines + Packed(b, cs, i, height) == Packed(b, cs, 0, height)
      decreases |cs| - i
    {
      var j, w := FillColumn(b, cs, i, height);
      PackedOf(b, cs, i, height);
      assert lines + ([cs[i..j]] + Packed(b, cs, j, height)) == (lines + [cs[i..j]]) + Packed(b, cs, j, height);
      lines, i := lines + [cs[i..j]], j;
    }
    PackedOf(b, cs, i, height);
    assert lines + [] == lines;
  }

  /** The allocation leaves no child out and changes no order. */
  lemma {:induction false} PackedPartition(b: Box, cs: seq<Size>, i: nat, height: nat)
    requires i <= |cs|
    ensures Flat(Packed(b, cs, i, height)) == cs[i..]
    decreases |cs| - i
  {
    if i < |cs| {
      var j := Filled(b, cs, i, height);
      PackedPartition(b, cs, j, height);
      assert cs[i..j] + cs[j..] == cs[i..];
    }
  }

  // ----- the allocation agrees with the request -----

  lemma {:induction false} TallPart(b: Box, cs: seq<Size>, s: nat, i: nat, j: nat)
    requires s <= i <= j <= |cs|
    ensures Tall(b, cs[i..j]) <= Tall(b, cs[s..j])
    decreases j
  {
    hide *;
    if i == j {
      EmptyColumn(b, cs[i..j]);
    } else {
      var k := j - 1;
      TallPart(b, cs, s, i, k);
      ColumnAppend(b, cs, i, k);
      ColumnAppend(b, cs, s, k);
    }
  }

  lemma {:induction false} TallPrefix(b: Box, cs: seq<Size>, s: nat, i: nat, j: nat)
    requires s <= i <= j <= |cs|
    ensures Tall(b, cs[s..i]) <= Tall(b, cs[s..j])
    decreases j
  {
    hide Tall, Widest;
    if i < j {
      ColumnAppend(b, cs, s, j - 1);
      TallPrefix(b, cs, s, i, j - 1);
    }
  }

  /** Started inside a stretch that fits, a column gets to the end of the stretch. */
  lemma {:induction false} FillsStretch(b: Box, cs: seq<Size>, i: nat, j: nat, e: nat, height: nat)
    requires i < j <= e <= |cs| && Tall(b, cs[i..e]) <= height && |cs| <= b.childLimit
    ensures FilledOn(b, cs, i, j, height) >= e
    decreases e - j
  {
    hide Tall;
    if j < e {
      TallPrefix(b, cs, i, j + 1, e);
      FillsStretch(b, cs, i, j + 1, e, height);
    }
  }

  /** From any child on, the allocation needs no more columns than a layout of columns that
      fit, starting no later. */
  lemma {:induction false} PackedBehind(b: Box, cs: seq<Size>, s: nat, i: nat, rows: nat, height: nat)
    requires s <= i <= |cs| && rows > 0 && |cs| <= b.childLimit
    requires forall col :: col in Columns(cs[s..], rows) ==> |col| > 1 ==> Tall(b, col) <= height
    ensures |Packed(b, cs, i, height)| <= |Columns(cs[s..], rows)|
    decreases |cs| - s
  {
    hide Tall, Columns, Packed, FilledOn;
    PackedOf(b, cs, i, height);
    if i < |cs| {
      var rest := cs[s..];
      var m := Min(rows, |rest|);
      var e := s + m;
      assert rest[..m] == cs[s..e] && rest[m..] == cs[e..];
      ColumnsOf(rest, rows);
      assert forall col :: col in Columns(cs[e..], rows) ==> col in Columns(rest, rows);
      if i < e {
        assert cs[s..e] in Columns(rest, rows);
        var j := Filled(b, cs, i, height);
        if |cs[s..e]| > 1 {
          TallPart(b, cs, s, i, e);
          FillsStretch(b, cs, i, i + 1, e, height);
        }
        PackedBehind(b, cs, e, j, rows, height);
      } else {
        PackedBehind(b, cs, e, i, rows, height);
      }
    }
  }

  /** The columns that are asked for. */
  function Asked(cs: seq<Size>, cols: nat): seq<seq<Size>>
    requires cols > 0 ==> |cs| % 65536 > 0
  {
    if cols > 0 then Layout(cs, cols) else if cs == [] then [] else [cs]
  }

  /** The height that is asked for, inside the border. */
  function AskedTall(b: Box, cs: seq<Size>, cols: nat): nat
    requires cols > 0 ==> |cs| % 65536 > 0
  {
    if cols > 0 then CountedTall(b, Layout(cs, cols), Rows(cs, cols)) else Tall(b, cs)
  }

  lemma LayoutSome(cs: seq<Size>, cols: nat)
    requires cols > 0 && |cs| % 65536 > 0
    ensures Layout(cs, cols) != []
  {
    hide Rows;
    RowsPositive(cs, cols);
    ColumnsOf(cs, Rows(cs, cols));
  }

  /** The last column was measured, or holds a single child. */
  predicate LastMeasured(b: Box, cs: seq<Size>, cols: nat)
    requires cols > 0 ==> |cs| % 65536 > 0
  {
    if cols == 0 then true
    else
      LayoutSome(cs, cols);
      var layout := Layout(cs, cols);
      Counted(b, layout, Rows(cs, cols)) || |layout[|layout| - 1]| == 1
  }

  predicate LastNoHigher(b: Box, cs: seq<Size>, cols: nat, height: nat)
    requires cols > 0 ==> |cs| % 65536 > 0
  {
    if cols == 0 then true
    else
      LayoutSome(cs, cols);
      var layout := Layout(cs, cols);
      Tall(b, layout[|layout| - 1]) <= height
  }

  /** Greedy packing agrees with the request: given at least the requested height, the
      allocation uses no more columns than were asked for -- provided the last column was
      counted, holds a single child, or is no higher.  The single column asked for when
      nothing fits is always enough. */
  lemma AllocationAgrees(b: Box, cs: seq<Size>, cols: nat, height: nat)
    requires (cols > 0 ==> |cs| % 65536 > 0) && |cs| <= b.childLimit
    requires height >= AskedTall(b, cs, cols)
    requires LastMeasured(b, cs, cols) || LastNoHigher(b, cs, cols, height)
    ensures |Packed(b, cs, 0, height)| <= |Asked(cs, cols)|
  {
    hide Tall, Rows, Widest, Columns, Packed, MaxTall, Counted;
    if cols > 0 {
      LayoutSome(cs, cols);
      RowsPositive(cs, cols);
      ColumnsAgree(b, cs, Rows(cs, cols), height);
    } else {
      SingleAgrees(b, cs, height);
    }
  }

  lemma ColumnsAgree(b: Box, cs: seq<Size>, rows: nat, height: nat)
    requires rows > 0 && |cs| <= b.childLimit && Columns(cs, rows) != []
    requires var layout := Columns(cs, rows); var last := layout[|layout| - 1];
             height >= CountedTall(b, layout, rows) && (Counted(b, layout, rows) || |last| == 1 || Tall(b, last) <= height)
    ensures |Packed(b, cs, 0, height)| <= |Columns(cs, rows)|
  {
    hide Tall, Widest, Columns, Counted;
    var layout := Columns(cs, rows);
    assert cs[0..] == cs;
    forall col | col in layout && |col| > 1 ensures Tall(b, col) <= height {
      if !Counted(b, layout, rows) && col != layout[|layout| - 1] {
        assert col in layout[..|layout| - 1];
      }
    }
    PackedBehind(b, cs, 0, 0, rows, height);
  }

  /** Children that fit on top of each other are one column. */
  lemma SingleAgrees(b: Box, cs: seq<Size>, height: nat)
    requires |cs| <= b.childLimit && Tall(b, cs) <= height
    ensures |Packed(b, cs, 0, height)| <= if cs == [] then 0 else 1
  {
    hide Tall, Columns, Packed;
    PackedOf(b, cs, 0, height);
    if cs != [] {
      ColumnsOf(cs, |cs|);
      assert cs[..|cs|] == cs && cs[|cs|..] == [] && cs[0..] == cs;
      ColumnsOf([], |cs|);
      PackedBehind(b, cs, 0, 0, |cs|, height);
    }
  }

  /** Without that proviso it can fail: children of no width at all, unfinished in a last
      column of no width, are laid out but not measured. */
  lemma UncountedColumn(b: Box)
    requires b == Box(0, 0, 0, 32)
    ensures var cs := [Size(5, 1), Size(5, 1), Size(5, 1), Size(0, 9), Size(0, 9)];
            && Rows(cs, 2) == 3 && CountedTall(b, Layout(cs, 2), 3) == 3
            && |Layout(cs, 2)| == 2 && |Packed(b, cs, 0, 3)| == 3
  {
    hide Columns, TotalWidth, Widest, Tall, MaxTall, Packed, FilledOn;
    var l, r := [Size(5, 1), Size(5, 1), Size(5, 1)], [Size(0, 9), Size(0, 9)];
    var cs := [Size(5, 1), Size(5, 1), Size(5, 1), Size(0, 9), Size(0, 9)];
    assert cs == l + r;
    TwoColumns(l, r);
    TwoWidths(b, l, r);
    ThreeMeasures(b, Size(5, 1), Size(5, 1), Size(5, 1));
    TwoMeasures(b, Size(0, 9), Size(0, 9));
    assert [l, r][..1] == [l];
    ThreePacked(b, cs);
  }

  lemma ThreePacked(b: Box, cs: seq<Size>)
    requires b == Box(0, 0, 0, 32) && cs == [Size(5, 1), Size(5, 1), Size(5, 1), Size(0, 9), Size(0, 9)]
    ensures |Packed(b, cs, 0, 3)| == 3
  {
    hide Tall, Widest;
    TwoMeasures(b, Size(5, 1), Size(5, 1));
    ThreeMeasures(b, Size(5, 1), Size(5, 1), Size(5, 1));
    TwoMeasures(b, Size(0, 9), Size(0, 9));
    assert cs[0..2] == [Size(5, 1), Size(5, 1)] && cs[0..3] == [Size(5, 1), Size(5, 1), Size(5, 1)];
    assert cs[3..5] == [Size(0, 9), Size(0, 9)];
    ColumnAppend(b, cs, 0, 3);
    assert Filled(b, cs, 0, 3) == 3 by {
      assert FilledOn(b, cs, 0, 3, 3) == 3 && FilledOn(b, cs, 0, 2, 3) == 3;
    }
    assert Filled(b, cs, 3, 3) == 4 && Filled(b, cs, 4, 3) == 5;
    assert Packed(b, cs, 5, 3) == [] && |Packed(b, cs, 4, 3)| == 1 && |Packed(b, cs, 3, 3)| == 2;
  }

  // ----- the proviso is exact -----

  predicate SameWidths(cs: seq<Size>, ds: seq<Size>) {
    |cs| == |ds| && forall i :: 0 <= i < |cs| ==> cs[i].width == ds[i].width
  }

  lemma {:induction false} SameWidest(cs: seq<Size>, ds: seq<Size>)
    requires SameWidths(cs, ds)
    ensures Widest(cs) == Widest(ds)
    decreases |cs|
  {
    if cs != [] {
      SameWidest(cs[..|cs| - 1], ds[..|ds| - 1]);
    }
  }

  lemma ColumnsOf(cs: seq<Size>, rows: nat)
    requires rows > 0
    ensures Columns(cs, rows) == if cs == [] then [] else [cs[..Min(rows, |cs|)]] + Columns(cs[Min(rows, |cs|)..], rows)
  {
  }

  lemma {:induction false} SameShape(cs: seq<Size>, ds: seq<Size>, rows: nat)
    requires rows > 0 && SameWidths(cs, ds)
    ensures var x, y := Columns(cs, rows), Columns(ds, rows);
            |x| == |y| && forall c :: 0 <= c < |x| ==> SameWidths(x[c], y[c])
    decreases |cs|
  {
    hide Columns;
    ColumnsOf(cs, rows);
    ColumnsOf(ds, rows);
    if cs != [] {
      var m := Min(rows, |cs|);
      SameShape(cs[m..], ds[m..], rows);
    }
  }

  lemma SameLength(cs: seq<Size>, ds: seq<Size>)
    requires SameWidths(cs, ds)
    ensures |cs| == |ds|
  {
  }

  lemma CountedSame(b: Box, x: seq<seq<Size>>, y: seq<seq<Size>>, rows: nat)
    requires |x| == |y| && x != [] && SameWidths(x[|x| - 1], y[|y| - 1])
    ensures Counted(b, x, rows) <==> Counted(b, y, rows)
  {
    SameWidest(x[|x| - 1], y[|y| - 1]);
    hide Widest;
  }

  lemma SameCounted(b: Box, cs: seq<Size>, ds: seq<Size>, cols: nat)
    requires cols > 0 && |cs| % 65536 > 0 && SameWidths(cs, ds) && Layout(cs, cols) != []
    ensures Rows(ds, cols) == Rows(cs, cols) && |Layout(ds, cols)| == |Layout(cs, cols)|
    ensures var x, y := Layout(cs, cols), Layout(ds, cols);
            && |x[|x| - 1]| == |y[|y| - 1]|
            && (Counted(b, x, Rows(cs, cols)) <==> Counted(b, y, Rows(cs, cols)))
  {
    hide Columns, Rows, Counted, SameWidths;
    SameLength(cs, ds);
    SameRows(cs, ds, cols);
    RowsPositive(cs, cols);
    SameShape(cs, ds, Rows(cs, cols));
    var x, y := Layout(cs, cols), Layout(ds, cols);
    SameLength(x[|x| - 1], y[|y| - 1]);
    CountedSame(b, x, y, Rows(cs, cols));
  }

  lemma SameRows(cs: seq<Size>, ds: seq<Size>, cols: nat)
    requires cols > 0 && |cs| == |ds|
    ensures Rows(cs, cols) == Rows(ds, cols)
  {
  }

  /** Full columns, of children from the front. */
  ghost predicate FullFrom(cols: seq<seq<Size>>, rows: nat, front: seq<Size>) {
    forall col :: col in cols ==> |col| == rows && forall x :: x in col ==> x in front
  }

  /** Where the last column starts, and what the others are made of. */
  lemma {:induction false} LastFrom(cs: seq<Size>, rows: nat) returns (s: nat)
    requires rows > 0 && cs != []
    ensures var cols := Columns(cs, rows);
            && cols != [] && s < |cs| && cols[|cols| - 1] == cs[s..] && s == (|cols| - 1) * rows
            && FullFrom(cols[..|cols| - 1], rows, cs[..s])
    decreases |cs|
  {
    hide Columns, FullFrom;
    ColumnsOf(cs, rows);
    var m := Min(rows, |cs|);
    if cs[m..] == [] {
      ColumnsOf(cs[m..], rows);
      assert cs[..m] == cs == cs[0..];
      NothingFull(rows, cs[..0]);
      s := 0;
    } else {
      var t := LastFrom(cs[m..], rows);
      s := m + t;
      MoreColumns(|Columns(cs[m..], rows)|, rows);
      ColumnFirst(cs, Columns(cs[m..], rows), rows, t);
    }
  }

  lemma NothingFull(rows: nat, front: seq<Size>)
    ensures FullFrom([], rows, front)
  {
  }

  lemma ColumnFirst(cs: seq<Size>, rest: seq<seq<Size>>, rows: nat, t: nat)
    requires rows + t < |cs| && rest != [] && rest[|rest| - 1] == cs[rows..][t..]
    requires FullFrom(rest[..|rest| - 1], rows, cs[rows..][..t])
    ensures var cols := [cs[..rows]] + rest;
            && cols[|cols| - 1] == cs[rows + t..] && FullFrom(cols[..|cols| - 1], rows, cs[..rows + t])
  {
    var cols := [cs[..rows]] + rest;
    assert cols[..|cols| - 1] == [cs[..rows]] + rest[..|rest| - 1];
    assert cs[..rows + t] == cs[..rows] + cs[rows..][..t];
  }

  lemma MoreColumns(n: nat, rows: nat)
    requires n > 0
    ensures n * rows == rows + (n - 1) * rows
  {
  }

  /** Height of so many children of height 1. */
  function UnitTall(b: Box, n: nat): nat {
    if n == 0 then 0 else UnitTall(b, n - 1) + (if n > 1 then b.vspacing else 0) + 1
  }

  lemma {:induction false} TallUnits(b: Box, col: seq<Size>)
    requires forall c :: c in col ==> c.height == 1
    ensures Tall(b, col) == UnitTall(b, |col|)
    decreases |col|
  {
    if col != [] {
      assert col == col[..|col| - 1] + [col[|col| - 1]];
      TallUnits(b, col[..|col| - 1]);
    }
  }

  lemma {:induction false} MaxTallAtMost(b: Box, cols: seq<seq<Size>>, h: nat)
    requires forall col :: col in cols ==> Tall(b, col) <= h
    ensures MaxTall(b, cols) <= h
    decreases |cols|
  {
    hide Tall;
    if cols != [] {
      assert cols == cols[..|cols| - 1] + [cols[|cols| - 1]];
      MaxTallAtMost(b, cols[..|cols| - 1], h);
    }
  }

  lemma {:induction false} FilledAtMost(b: Box, cs: seq<Size>, i: nat, j: nat, e: nat, height: nat)
    requires i < j <= e <= |cs| && (e < |cs| ==> Tall(b, cs[i..e + 1]) > height)
    ensures FilledOn(b, cs, i, j, height) <= e
    decreases e - j
  {
    hide Tall;
    if j < e {
      FilledAtMost(b, cs, i, j + 1, e, height);
    }
  }

  /** Up to `s` the children are of height 1, from there on they are too high. */
  predicate Stepped(b: Box, cs: seq<Size>, s: nat, rows: nat) {
    && s <= |cs| && (forall k :: 0 <= k < s ==> cs[k].height == 1)
    && forall k :: s <= k < |cs| ==> cs[k].height > UnitTall(b, rows)
  }

  lemma LastTooHigh(b: Box, cs: seq<Size>, i: nat, k: nat)
    requires i <= k < |cs|
    ensures Tall(b, cs[i..k + 1]) >= cs[k].height
  {
    ColumnAppend(b, cs, i, k);
  }

  /** The high ones get a column each. */
  lemma {:induction false} HighApart(b: Box, cs: seq<Size>, s: nat, rows: nat, i: nat, height: nat)
    requires Stepped(b, cs, s, rows) && s <= i <= |cs| && height <= UnitTall(b, rows)
    ensures |Packed(b, cs, i, height)| >= |cs| - i
    decreases |cs| - i
  {
    hide Tall, UnitTall;
    if i < |cs| {
      if i + 1 < |cs| {
        LastTooHigh(b, cs, i, i + 1);
      }
      FilledAtMost(b, cs, i, i + 1, i + 1, height);
      HighApart(b, cs, s, rows, Filled(b, cs, i, height), height);
    }
  }

  lemma UnitsTooHigh(b: Box, cs: seq<Size>, s: nat, rows: nat, i: nat, height: nat)
    requires Stepped(b, cs, s, rows) && i < s < |cs| && rows > 0 && height <= UnitTall(b, rows)
    ensures Filled(b, cs, i, height) <= Min(i + rows, s)
  {
    hide Tall;
    var e := Min(i + rows, s);
    if e == s {
      hide UnitTall;
      LastTooHigh(b, cs, i, s);
    } else {
      TallUnits(b, cs[i..e + 1]);
      assert |cs[i..e + 1]| == rows + 1;
    }
    FilledAtMost(b, cs, i, i + 1, e, height);
  }

  /** So many full columns, and then the high ones. */
  lemma {:induction false} ManyColumns(b: Box, cs: seq<Size>, s: nat, rows: nat, i: nat, q: nat, height: nat)
    requires Stepped(b, cs, s, rows) && i + q * rows <= s < |cs| && rows > 0 && height <= UnitTall(b, rows)
    ensures |Packed(b, cs, i, height)| >= q + |cs| - s
    decreases s - i
  {
    hide UnitTall, Filled, Stepped;
    if i == s {
      NoColumns(q, rows);
      HighApart(b, cs, s, rows, i, height);
    } else {
      var j := Filled(b, cs, i, height);
      UnitsTooHigh(b, cs, s, rows, i, height);
      if q > 0 {
        MoreColumns(q, rows);
        ManyColumns(b, cs, s, rows, j, q - 1, height);
      } else {
        ManyColumns(b, cs, s, rows, j, 0, height);
      }
    }
  }

  lemma NoColumns(q: nat, rows: nat)
    requires q * rows <= 0 && rows > 0
    ensures q == 0
  {
  }

  /** With the same widths and other heights the allocation needs more columns. */
  lemma TooMany(b: Box, cs: seq<Size>, cols: nat) returns (ds: seq<Size>)
    requires cols > 0 && |cs| % 65536 > 0 && Layout(cs, cols) != []
    requires var layout := Layout(cs, cols); !Counted(b, layout, Rows(cs, cols)) && |layout[|layout| - 1]| != 1
    ensures SameWidths(cs, ds)
    ensures |Packed(b, ds, 0, CountedTall(b, Layout(ds, cols), Rows(ds, cols)))| > |Layout(ds, cols)|
  {
    hide Columns, Widest, Rows, Tall, UnitTall, MaxTall, Packed, Filled, Counted;
    RowsPositive(cs, cols);
    var rows := Rows(cs, cols);
    var s := LastFrom(cs, rows);
    var high := UnitTall(b, rows) + 1;
    ds := seq(|cs|, i requires 0 <= i < |cs| => Size(cs[i].width, if i < s then 1 else high));
    SameCounted(b, cs, ds, cols);
    StepColumns(b, ds, s, rows);
    ManyColumns(b, ds, s, rows, 0, |Layout(ds, cols)| - 1, CountedTall(b, Layout(ds, cols), rows));
  }

  lemma StepColumns(b: Box, ds: seq<Size>, s: nat, rows: nat)
    requires rows > 0 && s < |ds| && s == (|Columns(ds, rows)| - 1) * rows && forall i :: 0 <= i < s ==> ds[i].height == 1
    ensures var cols := Columns(ds, rows);
            cols != [] && MaxTall(b, cols[..|cols| - 1]) <= UnitTall(b, rows) && cols[|cols| - 1] == ds[s..]
  {
    hide Columns, Tall, UnitTall, MaxTall;
    var t := LastFrom(ds, rows);
    var cols := Columns(ds, rows);
    forall col | col in cols[..|cols| - 1] ensures Tall(b, col) <= UnitTall(b, rows) {
      TallUnits(b, col);
    }
    MaxTallAtMost(b, cols[..|cols| - 1], UnitTall(b, rows));
  }

  /** The agreement holds whatever the children's heights exactly when the last column was
      counted or holds a single child. */
  lemma AgreesIff(b: Box, cs: seq<Size>, cols: nat)
    requires (cols > 0 ==> |cs| % 65536 > 0) && |cs| <= b.childLimit
    ensures (forall ds :: SameWidths(cs, ds) ==> |Packed(b, ds, 0, AskedTall(b, ds, cols))| <= |Asked(ds, cols)|)
            <==> LastMeasured(b, cs, cols)
  {
    hide Columns, Widest, Rows, Tall, MaxTall, Packed, Counted, CountedTall, Layout;
    if LastMeasured(b, cs, cols) {
      forall ds | SameWidths(cs, ds) ensures |Packed(b, ds, 0, AskedTall(b, ds, cols))| <= |Asked(ds, cols)| {
        if cols > 0 {
          LayoutSome(cs, cols);
          SameCounted(b, cs, ds, cols);
        }
        AllocationAgrees(b, ds, cols, AskedTall(b, ds, cols));
      }
    } else {
      LayoutSome(cs, cols);
      var ds := TooMany(b, cs, cols);
    }
  }

  // ----- from the request to the allocation -----

  lemma {:induction false} ColumnsCount(cs: seq<Size>, rows: nat, cols: nat)
    requires rows > 0 && |cs| <= cols * rows
    ensures |Columns(cs, rows)| <= cols
    decreases |cs|
  {
    hide Columns;
    ColumnsOf(cs, rows);
    if cs != [] {
      OneColumnLess(cols, rows);
      ColumnsCount(cs[Min(rows, |cs|)..], rows, cols - 1);
    }
  }

  lemma OneColumnLess(cols: nat, rows: nat)
    requires cols * rows > 0
    ensures cols > 0 && (cols - 1) * rows == cols * rows - rows
  {
  }

  lemma RowsEnough(cs: seq<Size>, cols: nat)
    requires cols > 0 && 0 < |cs| < 65536
    ensures |cs| <= cols * Rows(cs, cols)
  {
    var n := |cs|;
    assert n % 65536 == n;
    assert n == cols * (n / cols) + n % cols;
    assert cols * (n / cols + 1) == cols * (n / cols) + cols;
  }

  /** Whatever is requested and then granted, the allocation fills no more columns than the
      request settled on, one when nothing fitted -- provided the last column was measured
      or holds a single child. */
  lemma RequestGranted(b: Box, cs: seq<Size>, optimal: nat, width: nat, height: nat, cols: nat, given: nat)
    requires Requested(b, cs, optimal, width, height, cols) && given >= height
    requires |cs| <= b.childLimit && |cs| < 65536
    requires cols > 0 ==> LastMeasured(b, cs, cols)
    ensures |Allocated(b, cs, given)| <= Max(1, cols)
  {
    hide Columns, Widest, Rows, Tall, MaxTall, Packed, Counted, CountedTall, TotalWidth, UpperBound, TooWideFrom, LeastRows;
    if cols > 0 {
      RowsOfRequest(b, cs, optimal, width, height, cols);
      AllocationAgrees(b, cs, cols, Max(1, given - 2 * b.border));
      RowsPositive(cs, cols);
      RowsEnough(cs, cols);
      ColumnsCount(cs, Rows(cs, cols), cols);
    } else {
      AllocationAgrees(b, cs, cols, Max(1, given - 2 * b.border));
    }
  }
}
