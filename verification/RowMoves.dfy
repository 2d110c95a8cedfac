/** The sequences that leave a row, against the rows of the line, and the arguments the
    sequences carry. */
module RowMoves {
  import opened Bytes
  import opened CmdLines
  import opened Sequences
  import opened TerminalRow
  import Listings

  // ----- arguments -----

  predicate Figures(s: string) {
    forall c :: c in s ==> IsDigit(c)
  }

  lemma {:induction false} AtoiStops(s: string, more: string, acc: nat)
    requires Figures(s) && (more != "" ==> !IsDigit(more[0]))
    ensures Atoi(s + more, acc) == Atoi(s, acc)
    decreases |s|
  {
    if s == "" {
      assert s + more == more;
    } else {
      assert s[0] in s && (s + more)[1..] == s[1..] + more;
      AtoiStops(s[1..], more, 10 * acc + (s[0] - '0') as nat);
    }
  }

  lemma {:induction false} AtoiLast(s: string, d: char, acc: nat)
    requires Figures(s) && IsDigit(d)
    ensures Atoi(s + [d], acc) == 10 * Atoi(s, acc) + (d - '0') as nat
    decreases |s|
  {
    if s == "" {
      assert s + [d] == [d] && [d][1..] == "";
    } else {
      assert s[0] in s && (s + [d])[1..] == s[1..] + [d];
      AtoiLast(s[1..], d, 10 * acc + (s[0] - '0') as nat);
    }
  }

  lemma {:induction false} AtoiDigits(n: nat)
    ensures Atoi(Listings.Digits(n), 0) == n
  {
    if n < 10 {
      AtoiLast("", Listings.Digit(n), 0);
      assert "" + [Listings.Digit(n)] == Listings.Digits(n);
    } else {
      AtoiDigits(n / 10);
      AtoiLast(Listings.Digits(n / 10), Listings.Digit(n % 10), 0);
    }
  }

  lemma {:induction false} AtoiZeros(z: nat, s: string)
    ensures Atoi(Copies('0', z) + s, 0) == Atoi(s, 0)
  {
    if z == 0 {
      assert Copies('0', 0) + s == s;
    } else {
      assert (Copies('0', z) + s)[1..] == Copies('0', z - 1) + s;
      AtoiZeros(z - 1, s);
    }
  }

  /** A control sequence with a number written into it, after any zeros. */
  function Numbered(z: nat, n: nat, final: char): string {
    [ESC, '['] + (Copies('0', z) + Listings.Digits(n)) + [final]
  }

  /** The number written is the number read; without one it is 0. */
  lemma NumberRead(z: nat, n: nat, final: char)
    requires !IsDigit(final)
    ensures ParseDigits(Numbered(z, n, final)) == n && ParseDigits([ESC, '[', final]) == 0
  {
    hide Listings.Digits;
    var ds := Copies('0', z) + Listings.Digits(n);
    var w := Numbered(z, n, final);
    AtoiDigits(n);
    AtoiZeros(z, Listings.Digits(n));
    AtoiStops(ds, [final], 0);
    assert IsDigit(ds[0]) by { assert ds[0] in ds; }
    assert w[1..][1..] == ds + [final];
    assert ParseDigits(w) == ParseDigits(w[1..]) == ParseDigits(ds + [final]) == Atoi(ds + [final], 0);
    var e := [ESC, '[', final];
    assert e[1..] == ['[', final] && e[1..][1..] == [final] && [final][1..] == "";
    assert ParseDigits(e) == ParseDigits(e[1..]) == ParseDigits([final]) == ParseDigits("") == 0;
  }

  /** The edit a control sequence asks for is the one its final byte names, as often as its
      number says; 0 and no number stand for 1, and erasing takes the number as it is. */
  lemma EditsTold(z: nat, n: nat)
    ensures var m := if n == 0 then 1 else n;
            && Carried(CursorForward, Numbered(z, n, 'C')) == Some(Cuf(m))
            && Carried(CursorBackward, Numbered(z, n, 'D')) == Some(Cub(m))
            && Carried(InsertBlanks, Numbered(z, n, '@')) == Some(Ich(m))
            && Carried(DeleteChars, Numbered(z, n, 'P')) == Some(Dch(m))
            && Carried(EraseInLine, Numbered(z, n, 'K')) == if n == 0 then Some(El0) else None
    ensures Carried(CursorForward, [ESC, '[', 'C']) == Some(Cuf(1)) && Carried(CursorBackward, [ESC, '[', 'D']) == Some(Cub(1))
    ensures Carried(InsertBlanks, [ESC, '[', '@']) == Some(Ich(1)) && Carried(DeleteChars, [ESC, '[', 'P']) == Some(Dch(1))
    ensures Carried(EraseInLine, [ESC, '[', 'K']) == Some(El0)
  {
    hide ParseDigits, Numbered;
    NumberRead(z, n, 'C');
    NumberRead(z, n, 'D');
    NumberRead(z, n, '@');
    NumberRead(z, n, 'P');
    NumberRead(z, n, 'K');
  }

  /** The directory announced is the one that stands between the marks. */
  lemma PwdTold(sh: Shell, c: Cmd, path: string)
    requires Ok(c) && ESC !in path
    ensures var w := [ESC, 'P'] + path + [ESC, '\\']; Handle(sh, NewPwd, c, w).cmd == c.(pwd := Some(path))
  {
    var w := [ESC, 'P'] + path + [ESC, '\\'];
    assert w[2..] == path + [ESC, '\\'];
    assert (path + [ESC, '\\'])[..|path|] == path;
    FirstOfAt(w[2..], ESC, |path|);
  }

  // ----- the line around one of its rows -----

  /** Rows each followed by a carriage return. */
  function Front(rows: seq<string>): string {
    if rows == [] then "" else rows[0] + [CR] + Front(rows[1..])
  }

  /** Rows each after a carriage return. */
  function Back(rows: seq<string>): string {
    if rows == [] then "" else [CR] + Joined(rows)
  }

  lemma {:induction false} JoinedAround(a: seq<string>, row: string, b: seq<string>)
    ensures Joined(a + [row] + b) == Front(a) + row + Back(b)
    decreases |a|
  {
    var rows := a + [row] + b;
    if a == [] {
      assert rows[1..] == b && "" + row == row;
      assert b == [] ==> row + "" == row;
    } else {
      assert rows[1..] == a[1..] + [row] + b;
      JoinedAround(a[1..], row, b);
      assert a[0] + [CR] + (Front(a[1..]) + row + Back(b)) == (a[0] + [CR] + Front(a[1..])) + row + Back(b);
    }
  }

  lemma {:induction false} FrontStarts(rows: seq<string>, width: nat)
    requires forall i :: 0 <= i < |rows| ==> |rows[i]| == width
    ensures |Front(rows)| == Start(|rows|, width)
    decreases |rows|
  {
    if rows != [] {
      FrontStarts(rows[1..], width);
      StartShifts(|rows|, width);
    }
  }

  /** The cursor stands in column k of row r. */
  ghost predicate Stands(c: Cmd, rows: seq<string>, width: nat, r: nat, k: nat) {
    && Grid(rows, width) && r < |rows| && k <= |rows[r]|
    && c.data == Joined(rows) && c.pos == Start(r, width) + k && Ok(c)
  }

  /** The line with other text in place of row r. */
  function Instead(rows: seq<string>, r: nat, text: string): string
    requires r < |rows|
  {
    Front(rows[..r]) + text + Back(rows[r + 1..])
  }

  lemma RowStands(c: Cmd, rows: seq<string>, width: nat, r: nat, k: nat)
    requires Stands(c, rows, width, r, k)
    ensures c.data == Instead(rows, r, rows[r]) && |Front(rows[..r])| == Start(r, width)
    ensures CrLeft(c.data, c.pos) == Start(r, width) - 1
    ensures CrRight(c) == if r < |rows| - 1 then Start(r + 1, width) - 1 else -1
    ensures r < |rows| - 1 ==> |rows[r]| == width
  {
    hide Joined, CrLeft, CrRight, FirstOf, CStr;
    assert rows == rows[..r] + [rows[r]] + rows[r + 1..];
    JoinedAround(rows[..r], rows[r], rows[r + 1..]);
    FrontStarts(rows[..r], width);
    CrsOfRow(rows, width, r, k, c.pos);
    CrRightIs(c);
  }

  lemma InsteadIs(rows: seq<string>, r: nat, text: string)
    requires r < |rows|
    ensures Instead(rows, r, text) == Joined(rows[r := text])
  {
    assert rows[r := text] == rows[..r] + [text] + rows[r + 1..];
    JoinedAround(rows[..r], text, rows[r + 1..]);
  }

  lemma JoinedMore(rows: seq<string>)
    requires rows != []
    ensures Joined(rows + [""]) == Joined(rows) + [CR]
  {
    var n := |rows| - 1;
    assert rows == rows[..n] + [rows[n]] + [] && rows + [""] == rows[..n] + [rows[n]] + [""];
    JoinedAround(rows[..n], rows[n], []);
    JoinedAround(rows[..n], rows[n], [""]);
    assert [CR] + "" == [CR];
  }

  // ----- the sequences that leave a row -----

  /** A newline goes to the start of the next row.  In the last row it runs the command if
      that is awaited, and begins another row if not. */
  lemma NewlineLands(sh: Shell, c: Cmd, rows: seq<string>, width: nat, r: nat, k: nat, w: string)
    requires Stands(c, rows, width, r, k) && w != ""
    ensures var o := Handle(sh, Newline, c, w);
            if r < |rows| - 1 then o.effect == NoEffect && o.cmd == c.(pos := Start(r + 1, width))
            else if c.expectNewline then o.effect == CmdExecuted && o.cmd == c
            else o.effect == NoEffect && o.cmd == c.(data := Joined(rows + [""]), pos := |Joined(rows + [""])|)
  {
    hide Joined, CrLeft, CrRight, Instead;
    RowStands(c, rows, width, r, k);
    JoinedMore(rows);
  }

  /** A carriage return goes to the start of its row, and from the first row the line is
      drawn anew; if a newline is awaited it runs the command. */
  lemma ReturnLands(sh: Shell, c: Cmd, rows: seq<string>, width: nat, r: nat, k: nat, w: string)
    requires Stands(c, rows, width, r, k) && |w| >= 2
    ensures var o := Handle(sh, CarriageReturn, c, w);
            if c.expectNewline then o.effect == CmdExecuted && o.cmd == c
            else o.cmd == c.(pos := Start(r, width)) && o.effect == if r == 0 then CmdRebuild else NoEffect
  {
    hide Joined, CrLeft, CrRight, Instead;
    RowStands(c, rows, width, r, k);
    assert Start(0, width) == 0;
  }

  lemma Overprinted(front: string, row: string, back: string, k: nat)
    requires k < |row|
    ensures (front + row + back)[|front| + k := CR] == front + (row[..k] + [CR] + row[k + 1..]) + back
  {
  }

  lemma WrapHandled(sh: Shell, c: Cmd, w: string)
    requires Ok(c) && |w| >= 2 && !c.expectNewline
    ensures Handle(sh, CmdWrapped, c, w) == Outcome(Overwritten(c, CR), NoEffect, |w| - 1, false)
  {
  }

  /** A wrapped row ends at the cursor: the byte there gives way to a carriage return, which
      at the end of a row stands there already or begins a row after the last.  The cursor
      goes on behind it. */
  lemma WrapSplits(sh: Shell, c: Cmd, rows: seq<string>, width: nat, r: nat, k: nat, w: string)
    requires Stands(c, rows, width, r, k) && |w| >= 2 && !c.expectNewline
    ensures var o := Handle(sh, CmdWrapped, c, w);
            && o.effect == NoEffect && o.cmd == c.(data := o.cmd.data, pos := Start(r, width) + k + 1)
            && o.cmd.data == if k < |rows[r]| then Joined(rows[..r] + [rows[r][..k], rows[r][k + 1..]] + rows[r + 1..])
                             else if r < |rows| - 1 then Joined(rows)
                             else Joined(rows + [""])
  {
    hide Joined, CrLeft, CrRight, Handle, Grid, Front, Back, Start, Stands;
    var front, back := RowBetween(c, rows, width, r, k);
    WrapHandled(sh, c, w);
    var row := rows[r];
    if k < |row| {
      SplitRow(rows, r, k);
      Overprinted(front, row, back, k);
    } else if r < |rows| - 1 {
      BackReturns(rows[r + 1..]);
      assert c.data[c.pos] == back[0];
      assert c.data[c.pos := CR] == c.data;
    } else {
      assert c.pos == |c.data|;
      JoinedMore(rows);
    }
  }

  lemma BackReturns(rows: seq<string>)
    requires rows != []
    ensures Back(rows) != "" && Back(rows)[0] == CR
  {
  }

  lemma FrontNone(text: string)
    ensures Front([]) + text == text
  {
  }

  lemma SplitRow(rows: seq<string>, r: nat, k: nat)
    requires r < |rows| && k < |rows[r]|
    ensures Instead(rows, r, rows[r][..k] + [CR] + rows[r][k + 1..])
            == Joined(rows[..r] + [rows[r][..k], rows[r][k + 1..]] + rows[r + 1..])
  {
    hide Joined, Front;
    var a, x, y, b := rows[..r], rows[r][..k], rows[r][k + 1..], rows[r + 1..];
    JoinedAround(a, x, [y] + b);
    JoinedAround([], y, b);
    FrontNone(y);
    assert [] + [y] + b == [y] + b;
    assert a + [x, y] + b == a + [x] + ([y] + b);
    assert Front(a) + x + ([CR] + (y + Back(b))) == Front(a) + (x + [CR] + y) + Back(b);
  }

  lemma RowCut(front: string, row: string, back: string, k: nat)
    requires k <= |row|
    ensures (front + row + back)[..|front| + k] == front + row[..k] && (front + row + back)[|front| + |row|..] == back
    ensures back == "" ==> front + row[..k] + back == front + row[..k]
    ensures front == "" && k == 0 ==> front + row[..k] + back == back && back[..0] + back[if back == "" then 0 else 1..] == back[if back == "" then 0 else 1..]
  {
  }

  lemma RightErased(c: Cmd, front: string, row: string, back: string, k: nat)
    requires Ok(c) && c.data == front + row + back && c.pos == |front| + k && k <= |row|
    requires CrRight(c) == if back == "" then -1 else |front| + |row|
    ensures WipedRight(c) == c.(data := if c.pos == 0 && back != "" then back[1..] else front + row[..k] + back)
  {
    hide CrRight;
    RowCut(front, row, back, k);
  }

  lemma AllErased(c: Cmd, front: string, row: string, back: string)
    requires Ok(c) && c.data == front + row + back
    requires CrLeft(c.data, c.pos) == |front| - 1 && CrRight(c) == if back == "" then -1 else |front| + |row|
    ensures WipedAll(c) == if front == "" then c.(data := back, pos := 0)
                           else c.(data := front[..|front| - 1] + back, pos := |front| - 1)
  {
    hide CrLeft, CrRight;
    assert c.data[|front| + |row|..] == back;
    if front == "" {
      assert c.data[..0] + back == back;
    } else {
      assert c.data[..|front| - 1] == front[..|front| - 1];
    }
  }

  /** What stands around the row, and the carriage returns nearest to the cursor. */
  lemma RowBetween(c: Cmd, rows: seq<string>, width: nat, r: nat, k: nat) returns (front: string, back: string)
    requires Stands(c, rows, width, r, k)
    ensures front == Front(rows[..r]) && back == Back(rows[r + 1..]) && c.data == front + rows[r] + back
    ensures Ok(c) && r < |rows| && k <= |rows[r]| && c.data == Joined(rows)
    ensures c.pos == |front| + k && |front| == Start(r, width) && (r == 0 <==> front == "") && (r == |rows| - 1 <==> back == "")
    ensures CrLeft(c.data, c.pos) == |front| - 1 && CrRight(c) == if back == "" then -1 else |front| + |rows[r]|
  {
    RowStands(c, rows, width, r, k);
    hide CrLeft, CrRight, Joined;
    front, back := Front(rows[..r]), Back(rows[r + 1..]);
  }

  /** Erasing to the right leaves a row with what stands left of the cursor; only at the very
      start of a line that goes on below does the first row go with its carriage return. */
  lemma ErasedRight(c: Cmd, rows: seq<string>, width: nat, r: nat, k: nat)
    requires Stands(c, rows, width, r, k)
    ensures WipedRight(c) == c.(data := Joined(if c.pos == 0 && |rows| > 1 then rows[1..] else rows[r := rows[r][..k]]))
  {
    hide Joined, CrLeft, CrRight, WipedRight, Start, Front, Grid;
    var front, back := RowBetween(c, rows, width, r, k);
    RightErased(c, front, rows[r], back, k);
    InsteadIs(rows, r, rows[r][..k]);
    assert r == 0 && back != "" ==> back[1..] == Joined(rows[1..]);
  }

  /** Erasing a whole row takes the carriage return before it too, so that the cursor comes
      to stand at the end of the row above; the first row is only emptied. */
  lemma ErasedAll(c: Cmd, rows: seq<string>, width: nat, r: nat, k: nat)
    requires Stands(c, rows, width, r, k)
    ensures WipedAll(c) == if r == 0 then c.(data := Joined(rows[0 := ""]), pos := 0)
                           else c.(data := Joined(rows[..r] + rows[r + 1..]), pos := Start(r - 1, width) + width)
  {
    hide Joined, CrLeft, CrRight, WipedAll, Front, Back, Grid;
    var front, back := RowBetween(c, rows, width, r, k);
    AllErased(c, front, rows[r], back);
    if r == 0 {
      InsteadIs(rows, 0, "");
      assert front + "" + back == back;
    } else {
      Closed(rows, r);
    }
  }

  lemma Closed(rows: seq<string>, r: nat)
    requires 0 < r < |rows|
    ensures var front := Front(rows[..r]);
            front != "" && front[..|front| - 1] + Back(rows[r + 1..]) == Joined(rows[..r] + rows[r + 1..])
  {
    var a, last, b := rows[..r - 1], rows[r - 1], rows[r + 1..];
    assert rows[..r] == a + [last];
    JoinedAround(a, last, b);
    assert rows[..r] + b == a + [last] + b;
    FrontLast(a, last);
  }

  lemma {:induction false} FrontLast(a: seq<string>, last: string)
    ensures Front(a + [last]) == Front(a) + last + [CR]
    decreases |a|
  {
    if a == [] {
      assert a + [last] == [last] && [last][1..] == [] && "" + last == last && Front([last]) == last + [CR] + "";
    } else {
      assert (a + [last])[1..] == a[1..] + [last];
      FrontLast(a[1..], last);
    }
  }
}
