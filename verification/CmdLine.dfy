/** The command line as vgseer believes the user sees it, in a byte locale.  `Cmd` is
    its value, `CmdLine` the object the escape-sequence handlers edit in place. */
module CmdLines {
  import opened Bytes

  datatype Cmd = Cmd(data: string, pos: nat, rebuilding: bool, expectNewline: bool, pwd: Option<string>)

  /** The cursor stands on the line or just past its end. */
  predicate Ok(c: Cmd) {
    c.pos <= |c.data|
  }

  const BLANK := Cmd("", 0, false, false, None)

  function Cleared(c: Cmd): Cmd {
    c.(data := "", pos := 0)
  }

  function Overwritten(c: Cmd, ch: char): Cmd
    requires Ok(c)
  {
    var data := if c.pos == |c.data| then c.data + [ch] else c.data[c.pos := ch];
    c.(data := data, pos := c.pos + 1)
  }

  /** `n` bytes removed at the cursor. */
  function Deleted(c: Cmd, n: nat): Cmd
    requires c.pos + n <= |c.data|
  {
    c.(data := c.data[..c.pos] + c.data[c.pos + n..])
  }

  /** `n` copies of `ch` inserted at the cursor. */
  function Inserted(c: Cmd, ch: char, n: nat): Cmd
    requires Ok(c)
  {
    c.(data := c.data[..c.pos] + Copies(ch, n) + c.data[c.pos..])
  }

  function Copies(ch: char, n: nat): (s: string)
    ensures |s| == n && forall i :: 0 <= i < n ==> s[i] == ch
  {
    seq(n, _ => ch)
  }

  /** Where the nearest carriage return from the cursor on stands, or -1. */
  function CrRight(c: Cmd): (r: int)
    requires Ok(c)
    ensures -1 <= r < |c.data| && (r >= 0 ==> c.pos <= r && c.data[r] == CR)
  {
    var r := FirstOf(CStr(c.data[c.pos..]), CR);
    if r < 0 then -1 else c.pos + r
  }

  /** Offset of the last carriage return left of offset `p`, or -1. */
  function CrLeft(data: string, p: nat): (r: int)
    requires p <= |data|
    ensures -1 <= r < p && (r >= 0 ==> data[r] == CR)
  {
    LastOf(CStr(data[..p]), CR)
  }

  function WipedRight(c: Cmd): (r: Cmd)
    requires Ok(c)
    ensures r.pos == c.pos && Ok(r)
  {
    var cr := CrRight(c);
    if cr < 0 then c.(data := c.data[..c.pos])
    else
      var d := Deleted(c, cr - c.pos);
      if c.pos == 0 then Deleted(d, 1) else d
  }

  function WipedAll(c: Cmd): (r: Cmd)
    requires Ok(c)
    ensures Ok(r)
  {
    var right := if CrRight(c) < 0 then |c.data| else CrRight(c);
    var left := if CrLeft(c.data, c.pos) < 0 then 0 else CrLeft(c.data, c.pos);
    Deleted(c.(pos := left), right - left)
  }

  /** Trailing carriage returns strictly right of the cursor are dropped. */
  function Trimmed(c: Cmd): (r: Cmd)
    ensures r == c.(data := r.data) && r.data <= c.data
    ensures Ok(c) ==> Ok(r)
    ensures forall i :: |r.data| <= i < |c.data| ==> c.data[i] == CR
    ensures r.data == "" || r.data[|r.data| - 1] != CR || c.pos >= |r.data| - 1
    decreases |c.data|
  {
    if c.data != "" && c.data[|c.data| - 1] == CR && c.pos < |c.data| - 1
    then Trimmed(c.(data := c.data[..|c.data| - 1]))
    else c
  }

  lemma InsertedNone(was: string, p: nat, ch: char)
    requires p <= |was|
    ensures was[..p] + Copies(ch, 0) + was[p..] == was
  {
  }

  lemma InsertedOne(was: string, p: nat, ch: char, i: nat)
    requires p <= |was|
    ensures var data := was[..p] + Copies(ch, i) + was[p..];
            data[..p] + [ch] + data[p..] == was[..p] + Copies(ch, i + 1) + was[p..]
  {
    var data := was[..p] + Copies(ch, i) + was[p..];
    assert data[..p] == was[..p] && data[p..] == Copies(ch, i) + was[p..];
    assert [ch] + Copies(ch, i) == Copies(ch, i + 1);
    assert data[..p] + [ch] + data[p..] == was[..p] + ([ch] + Copies(ch, i)) + was[p..];
  }

  lemma TrimmedTwice(c: Cmd)
    ensures Trimmed(Trimmed(c)) == Trimmed(c)
  {
  }

  class CmdLine {
    var data: string
    var pos: nat
    var rebuilding: bool
    var expectNewline: bool
    var pwd: Option<string>

    function Value(): Cmd
      reads this
    {
      Cmd(data, pos, rebuilding, expectNewline, pwd)
    }

    constructor ()
      ensures Value() == BLANK
    {
      data, pos, rebuilding, expectNewline, pwd := "", 0, false, false, None;
    }

    method Clear()
      modifies this
      ensures Value() == Cleared(old(Value()))
    {
      data := "";
      pos := 0;
    }

    /** Never called with carriage returns preserved while scanning. */
    method OverwriteChar(ch: char)
      requires Ok(Value())
      modifies this
      ensures Value() == Overwritten(old(Value()), ch) && Ok(Value())
    {
      if pos == |data| {
        data := data + [ch];
      } else {
        data := data[pos := ch];
      }
      pos := pos + 1;
    }

    method DelChars(n: nat) returns (ok: bool)
      requires Ok(Value())
      modifies this`data
      ensures ok == (old(pos) + n <= |old(data)|) && Ok(Value())
      ensures Value() == if ok then Deleted(old(Value()), n) else old(Value())
    {
      if pos + n > |data| {
        return false;
      }
      data := data[..pos] + data[pos + n..];
      return true;
    }

    method WipeRight()
      requires Ok(Value())
      modifies this`data
      ensures Value() == WipedRight(old(Value())) && Ok(Value())
    {
      hide CrRight;
      var crR := CrRight(Value());
      if crR < 0 {
        data := data[..pos];
      } else {
        var _ := DelChars(crR - pos);
        if pos == 0 {
          var _ := DelChars(1);
        }
      }
    }

    method WipeAll()
      requires Ok(Value())
      modifies this`data, this`pos
      ensures Value() == WipedAll(old(Value())) && Ok(Value())
    {
      hide CrRight, CrLeft, Deleted;
      var crR := CrRight(Value());
      if crR < 0 {
        crR := |data|;
      }
      var crL := CrLeft(data, pos);
      if crL < 0 {
        crL := 0;
      }
      pos := crL;
      var _ := DelChars(crR - crL);
    }

    /** Erase in line: 0 to the right, 2 the whole row; 1 is refused. */
    method WipeInLine(dir: nat) returns (ok: bool)
      requires Ok(Value())
      modifies this`data, this`pos
      ensures ok == (dir == 0 || dir == 2) && Ok(Value())
      ensures Value() == if dir == 0 then WipedRight(old(Value()))
                         else if dir == 2 then WipedAll(old(Value()))
                         else old(Value())
    {
      if dir == 0 {
        WipeRight();
      } else if dir == 2 {
        WipeAll();
      } else {
        return false;
      }
      return true;
    }

    method InsertChars(ch: char, n: int) returns (ok: bool)
      requires Ok(Value())
      modifies this`data
      ensures ok == (n >= 0) && Ok(Value())
      ensures Value() == if ok then Inserted(old(Value()), ch, n) else old(Value())
    {
      if n < 0 {
        return false;
      }
      var i := 0;
      ghost var was := data;
      InsertedNone(was, pos, ch);
      while i < n
        invariant 0 <= i <= n && pos == old(pos) <= |was|
        invariant Value() == old(Value()).(data := was[..pos] + Copies(ch, i) + was[pos..])
      {
        InsertedOne(was, pos, ch, i);
        data := data[..pos] + [ch] + data[pos..];
        i := i + 1;
      }
      return true;
    }

    method DelTrailingCRs()
      requires Ok(Value())
      modifies this`data, this`pos
      ensures Value() == Trimmed(old(Value())) && Ok(Value())
    {
      while data != "" && data[|data| - 1] == CR && pos < |data| - 1
        invariant Ok(Value()) && Trimmed(Value()) == Trimmed(old(Value()))
        decreases |data|
      {
        ghost var was := data;
        var temp := pos;
        pos := |data| - 1;
        var _ := DelChars(1);
        pos := temp;
        assert data == was[..|was| - 1];
      }
    }

    /** Moves only when `doIt`; tells whether the move is possible. */
    method Forward(n: nat, doIt: bool) returns (ok: bool)
      requires Ok(Value())
      modifies this`pos
      ensures ok == (old(pos) + n <= |data|)
      ensures pos == if ok && doIt then old(pos) + n else old(pos)
    {
      if pos + n > |data| {
        return false;
      }
      if doIt {
        pos := pos + n;
      }
      return true;
    }

    method Backward(n: nat, doIt: bool) returns (ok: bool)
      requires Ok(Value())
      modifies this`pos
      ensures ok == (old(pos) >= n)
      ensures pos == if ok && doIt then old(pos) - n else old(pos)
    {
      if pos < n {
        return false;
      }
      if doIt {
        pos := pos - n;
      }
      return true;
    }
  }
}
