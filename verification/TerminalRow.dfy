/** The command line against the terminal it imitates: one unbounded row for editing, and
    rows of equal width for moving up (ECMA-48, section 8.3). */
module TerminalRow {
  import opened Bytes
  import opened CmdLines
  import opened Sequences

  // ----- one row, no wraps -----

  /** An unbounded row of cells with a cursor. */
  datatype Row = Row(cells: nat -> char, cursor: nat)

  datatype Edit =
    | Print(ch: char)
    | Bs
    | Cub(n: nat)  // cursor left, section 8.3.18
    | Cuf(n: nat)  // cursor right, section 8.3.20
    | Ich(n: nat)  // insert characters, section 8.3.64
    | Dch(n: nat)  // delete characters, section 8.3.26
    | El0          // erase to the end, section 8.3.41

  function Displayed(t: Row, e: Edit): Row {
    var Row(cells, cur) := t;
    match e
    case Print(ch) => Row((i: nat) => if i == cur then ch else cells(i), cur + 1)
    case Bs => Row(cells, if cur == 0 then 0 else cur - 1)
    case Cub(n) => Row(cells, if cur < n then 0 else cur - n)
    case Cuf(n) => Row(cells, cur + n)
    case Ich(n) => Row((i: nat) => if i < cur then cells(i) else if i < cur + n then ' ' else cells(i - n), cur)
    case Dch(n) => Row((i: nat) => cells(if i < cur then i else i + n), cur)
    case El0 => Row((i: nat) => if i < cur then cells(i) else ' ', cur)
  }

  /** What vgseer does with the same edit; None when it gives up, leaving the line alone. */
  function Edited(c: Cmd, e: Edit): (r: Option<Cmd>)
    requires Ok(c)
    ensures r.Some? ==> Ok(r.value)
  {
    match e
    case Print(ch) => Some(Overwritten(c, ch))
    case Bs => if c.pos >= 1 then Some(c.(pos := c.pos - 1)) else None
    case Cub(n) => if c.pos >= n then Some(c.(pos := c.pos - n)) else None
    case Cuf(n) => if c.pos + n <= |c.data| then Some(c.(pos := c.pos + n)) else None
    case Ich(n) => Some(Inserted(c, ' ', n))
    case Dch(n) => if c.pos + n <= |c.data| then Some(Deleted(c, n)) else None
    case El0 => Some(WipedRight(c))
  }

  /** The edit a completed sequence asks for, if it asks for one. */
  function Carried(id: SeqId, w: string): Option<Edit> {
    match id
    case Backspace => Some(Bs)
    case CursorBackward => Some(Cub(Count(w)))
    case CursorForward => Some(Cuf(Count(w)))
    case InsertBlanks => Some(Ich(Count(w)))
    case DeleteChars => Some(Dch(Count(w)))
    case EraseInLine => if ParseDigits(w) == 0 then Some(El0) else None
    case _ => None
  }

  /** The handlers perform exactly these edits and report the ones they refuse; only zsh
      puts a blank where a move ends one past the line, or takes a longer move for a
      right prompt. */
  lemma HandlersEdit(sh: Shell, id: SeqId, c: Cmd, w: string)
    requires Ok(c) && w != "" && Carried(id, w).Some?
    ensures var e, o := Carried(id, w).value, Handle(sh, id, c, w);
            if Edited(c, e).Some? then o.cmd == Edited(c, e).value && o.effect == NoEffect
            else if id != CursorForward then o.cmd == c && o.effect == Error
            else if sh == Bash then o.cmd == c && o.effect == CmdExecuted
            else if c.pos + Count(w) == |c.data| + 1 then o.cmd == Overwritten(c, ' ') && o.effect == NoEffect
            else o.cmd == c.(rebuilding := true) && o.effect == RpromptStarted
  {
    hide Inserted, Deleted, Overwritten, WipedRight, ParseDigits;
  }

  function CellAt(data: string, i: nat): char {
    if i < |data| then data[i] else ' '
  }

  /** The line, padded with blanks, is the row. */
  ghost predicate Shows(c: Cmd, t: Row) {
    Ok(c) && t.cursor == c.pos && forall i: nat :: t.cells(i) == CellAt(c.data, i)
  }

  predicate Plain(e: Edit) {
    e.Print? ==> e.ch != CR
  }

  lemma MovesShow(c: Cmd, t: Row, e: Edit)
    requires Shows(c, t) && CR !in c.data && (e.Bs? || e.Cub? || e.Cuf?) && Edited(c, e).Some?
    ensures Shows(Edited(c, e).value, Displayed(t, e)) && Edited(c, e).value.data == c.data
  {
  }

  lemma PrintShows(c: Cmd, t: Row, ch: char)
    requires Shows(c, t) && CR !in c.data && ch != CR
    ensures var d := Overwritten(c, ch); Shows(d, Displayed(t, Print(ch))) && CR !in d.data
  {
    var d, u := Overwritten(c, ch), Displayed(t, Print(ch));
    forall i: nat ensures u.cells(i) == CellAt(d.data, i) {
      assert t.cells(i) == CellAt(c.data, i);
    }
  }

  lemma InsertShows(c: Cmd, t: Row, n: nat)
    requires Shows(c, t) && CR !in c.data
    ensures var d := Inserted(c, ' ', n); Shows(d, Displayed(t, Ich(n))) && CR !in d.data
  {
    var d, u := Inserted(c, ' ', n), Displayed(t, Ich(n));
    forall i: nat ensures u.cells(i) == CellAt(d.data, i) {
      if i >= c.pos + n {
        assert t.cells(i - n) == CellAt(c.data, i - n);
      } else if i < c.pos {
        assert t.cells(i) == CellAt(c.data, i);
      }
    }
  }

  lemma DeleteShows(c: Cmd, t: Row, n: nat)
    requires Shows(c, t) && CR !in c.data && c.pos + n <= |c.data|
    ensures var d := Deleted(c, n); Shows(d, Displayed(t, Dch(n))) && CR !in d.data
  {
    var d, u := Deleted(c, n), Displayed(t, Dch(n));
    forall i: nat ensures u.cells(i) == CellAt(d.data, i) {
      var j := if i < c.pos then i else i + n;
      assert t.cells(j) == CellAt(c.data, j);
    }
  }

  lemma EraseShows(c: Cmd, t: Row)
    requires Shows(c, t) && CR !in c.data
    ensures var d := WipedRight(c); Shows(d, Displayed(t, El0)) && CR !in d.data
  {
    var d, u := WipedRight(c), Displayed(t, El0);
    assert CrRight(c) < 0;
    forall i: nat ensures u.cells(i) == CellAt(d.data, i) {
      assert t.cells(i) == CellAt(c.data, i);
    }
  }

  /** Erasing the whole row (section 8.3.41) leaves the cursor where it is; the line's goes
      to the start, so they agree exactly when it was there. */
  lemma EraseAllIff(c: Cmd, t: Row)
    requires Shows(c, t) && CR !in c.data
    ensures var d := WipedAll(c); d.data == "" && (Shows(d, Row((i: nat) => ' ', t.cursor)) <==> c.pos == 0)
  {
    var d, u := WipedAll(c), Row((i: nat) => ' ', t.cursor);
    assert CrRight(c) < 0 && CrLeft(c.data, c.pos) < 0;
    assert d.data == c.data[..0] + c.data[|c.data|..] == "";
  }

  lemma EditShows(c: Cmd, t: Row, e: Edit)
    requires Shows(c, t) && CR !in c.data && Plain(e) && Edited(c, e).Some?
    ensures Shows(Edited(c, e).value, Displayed(t, e)) && CR !in Edited(c, e).value.data
  {
    hide Shows, Displayed, Overwritten, Inserted, Deleted, WipedRight;
    assert Ok(c) by { OkShown(c, t); }
    match e
    case Print(ch) => PrintShows(c, t, ch);
    case Ich(n) => InsertShows(c, t, n);
    case Dch(n) => DeleteShows(c, t, n);
    case El0 => EraseShows(c, t);
    case _ => MovesShow(c, t, e);
  }

  lemma OkShown(c: Cmd, t: Row)
    requires Shows(c, t)
    ensures Ok(c)
  {
  }

  /** The longest prefix of the edits vgseer follows, and the line it then has. */
  function Followed(c: Cmd, es: seq<Edit>): (r: (nat, Cmd))
    requires Ok(c)
    ensures r.0 <= |es| && Ok(r.1)
    decreases |es|
  {
    if es == [] || Edited(c, es[0]).None? then (0, c)
    else
      var (n, d) := Followed(Edited(c, es[0]).value, es[1..]);
      (n + 1, d)
  }

  function DisplayedAll(t: Row, es: seq<Edit>): Row
    decreases |es|
  {
    if es == [] then t else DisplayedAll(Displayed(t, es[0]), es[1..])
  }

  /** Row simulation: over any series of edits the line stays the row on the screen, up to
      the first edit vgseer refuses, which leaves text and cursor as they were. */
  lemma {:induction false} RowSimulation(c: Cmd, t: Row, es: seq<Edit>)
    requires Shows(c, t) && CR !in c.data && forall e :: e in es ==> Plain(e)
    ensures var (n, d) := Followed(c, es);
            && Shows(d, DisplayedAll(t, es[..n])) && CR !in d.data
            && (n < |es| ==> Edited(d, es[n]).None?)
    decreases |es|
  {
    hide Edited, Displayed;
    if es != [] && Edited(c, es[0]).Some? {
      EditShows(c, t, es[0]);
      RowSimulation(Edited(c, es[0]).value, Displayed(t, es[0]), es[1..]);
      var (n, d) := Followed(Edited(c, es[0]).value, es[1..]);
      assert es[..n + 1][1..] == es[1..][..n];
    }
  }

  // ----- wrapped rows -----

  predicate PlainRow(row: string) {
    CR !in row && NUL !in row
  }

  /** Rows of equal width but for the last. */
  ghost predicate Grid(rows: seq<string>, width: nat) {
    && rows != []
    && (forall i :: 0 <= i < |rows| ==> PlainRow(rows[i]))
    && (forall i :: 0 <= i < |rows| - 1 ==> |rows[i]| == width)
  }

  /** The line holding the rows, a carriage return after each but the last. */
  function Joined(rows: seq<string>): string
    requires rows != []
  {
    if |rows| == 1 then rows[0] else rows[0] + [CR] + Joined(rows[1..])
  }

  /** Where row `r` starts in the line. */
  function Start(r: nat, width: nat): nat {
    if r == 0 then 0 else Start(r - 1, width) + width + 1
  }

  lemma {:induction false} StartShifts(r: nat, width: nat)
    requires r > 0
    ensures Start(r, width) == width + 1 + Start(r - 1, width)
  {
  }

  /** No NUL anywhere on the line. */
  lemma {:induction false} NoNulJoined(rows: seq<string>, width: nat)
    requires Grid(rows, width)
    ensures NUL !in Joined(rows)
    decreases |rows|
  {
    if |rows| > 1 {
      assert Grid(rows[1..], width);
      NoNulJoined(rows[1..], width);
    }
  }

  lemma {:induction false} LastOfIs(a: string, c: char, b: string)
    requires c !in b
    ensures LastOf(a + b, c) == LastOf(a, c)
    decreases |b|
  {
    if b == "" {
      assert a + b == a;
    } else {
      assert (a + b)[..|a + b| - 1] == a + b[..|b| - 1];
      assert b[|b| - 1] in b;
      LastOfIs(a, c, b[..|b| - 1]);
    }
  }

  /** What stands before and after a row on the line. */
  ghost predicate Around(rows: seq<string>, width: nat, r: nat, front: string, back: string)
    requires r < |rows|
  {
    && Joined(rows) == front + rows[r] + back && |front| == Start(r, width)
    && (if r == 0 then front == "" else front != "" && front[|front| - 1] == CR)
    && (if r == |rows| - 1 then back == "" else back != "" && back[0] == CR && |rows[r]| == width)
  }

  lemma {:induction false} RowInLine(rows: seq<string>, width: nat, r: nat) returns (front: string, back: string)
    requires Grid(rows, width) && r < |rows|
    ensures Around(rows, width, r, front, back)
    decreases |rows|
  {
    if |rows| == 1 {
      front, back := "", "";
      assert Joined(rows) == "" + rows[r] + "";
    } else if r == 0 {
      front, back := "", [CR] + Joined(rows[1..]);
      assert Joined(rows) == "" + rows[0] + ([CR] + Joined(rows[1..]));
    } else {
      assert Grid(rows[1..], width);
      front, back := RowInLine(rows[1..], width, r - 1);
      StartShifts(r, width);
      RowBefore(rows, front, rows[r], back);
      front := rows[0] + [CR] + front;
    }
  }

  lemma RowBefore(rows: seq<string>, front: string, row: string, back: string)
    requires |rows| > 1 && Joined(rows[1..]) == front + row + back
    ensures Joined(rows) == (rows[0] + [CR] + front) + row + back
  {
  }

  /** The carriage returns nearest to column k of a row: the one ending the row above, and
      the one ending the row itself. */
  lemma CrsOfRow(rows: seq<string>, width: nat, r: nat, k: nat, p: nat)
    requires Grid(rows, width) && r < |rows| && k <= |rows[r]| && p == Start(r, width) + k
    ensures p <= |Joined(rows)|
    ensures CrLeft(Joined(rows), p) == Start(r, width) - 1
    ensures FirstOf(CStr(Joined(rows)[p..]), CR) == if r < |rows| - 1 then width - k else -1
  {
    hide Joined, Start, CrLeft, FirstOf, CStr;
    var front, back := RowInLine(rows, width, r);
    NoNulJoined(rows, width);
    var row := rows[r];
    assert PlainRow(row);
    LeftOf(front, row, back, k);
    RightOf(front, row, back, k);
  }

  lemma LeftOf(front: string, row: string, back: string, k: nat)
    requires NUL !in front + row + back && CR !in row && k <= |row|
    requires front == "" || front[|front| - 1] == CR
    ensures CrLeft(front + row + back, |front| + k) == |front| - 1
  {
    var left := (front + row + back)[..|front| + k];
    assert left == front + row[..k];
    CStrId(left);
    LastOfIs(front, CR, row[..k]);
  }

  lemma RightOf(front: string, row: string, back: string, k: nat)
    requires NUL !in front + row + back && CR !in row && k <= |row|
    requires back == "" || back[0] == CR
    ensures FirstOf(CStr((front + row + back)[|front| + k..]), CR) == if back == "" then -1 else |row| - k
  {
    var right := (front + row + back)[|front| + k..];
    assert right == row[k..] + back;
    CStrId(right);
    FirstOfIs(row[k..], CR, back);
  }

  lemma NthCrUnfolds(data: string, p: nat, n: nat)
    requires p <= |data| && n > 0
    ensures CrLeft(data, p) < 0 ==> NthCrLeft(data, p, n) == -1
    ensures CrLeft(data, p) >= 0 ==> NthCrLeft(data, p, n) == NthCrLeft(data, CrLeft(data, p), n - 1)
    ensures NthCrLeft(data, p, 0) == p
  {
  }

  lemma {:induction false} NthCrOfRow(rows: seq<string>, width: nat, r: nat, k: nat, n: nat, p: nat)
    requires Grid(rows, width) && r < |rows| && k <= |rows[r]| && p == Start(r, width) + k
    ensures p <= |Joined(rows)|
    ensures NthCrLeft(Joined(rows), p, n) == if n == 0 then p else if n <= r then Start(r - n, width) + width else -1
    decreases n
  {
    hide Joined, CrLeft, NthCrLeft, FirstOf, CStr;
    CrsOfRow(rows, width, r, k, p);
    assert r > 0 ==> |rows[r - 1]| == width;
    NthCrUnfolds(Joined(rows), p, n + 1);
    if n > 0 {
      NthCrUnfolds(Joined(rows), p, n);
      if r > 0 {
        NthCrOfRow(rows, width, r - 1, width, n - 1, Start(r, width) - 1);
      }
    }
  }

  /** Cursor up (section 8.3.22) over rows of equal width: from column k of row r it lands
      n rows higher in the same column, except that the top row is found only while some
      carriage return stands at or right of the cursor, that is, from any row but the
      last.  Everywhere else the line is given up. */
  lemma CursorUpLands(rows: seq<string>, width: nat, r: nat, k: nat, n: nat, c: Cmd)
    requires Grid(rows, width) && r < |rows| && k <= |rows[r]| && n > 0
    requires c.data == Joined(rows) && c.pos == Start(r, width) + k && Ok(c)
    ensures RowUp(c, n) == if n < r || (n == r && r < |rows| - 1) then Start(r - n, width) + k else -1
  {
    hide NthCrLeft, Joined, CrLeft, CrRight, FirstOf, CStr;
    CrsOfRow(rows, width, r, k, c.pos);
    CrRightIs(c);
    NthCrOfRow(rows, width, r, k, n, c.pos);
    NthCrOfRow(rows, width, r, k, n + 1, c.pos);
    assert n < r ==> Start(r - n, width) == Start(r - (n + 1), width) + width + 1;
    assert Start(0, width) == 0 && (r > 0 ==> Start(r, width) > 0);
  }

  lemma CrRightIs(c: Cmd)
    requires Ok(c)
    ensures var r := FirstOf(CStr(c.data[c.pos..]), CR); CrRight(c) == if r < 0 then -1 else c.pos + r
  {
  }
}
