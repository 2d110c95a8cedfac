/** The read/write buffer vgseer keeps per direction.  `pos` and `seglen` delimit the
    segment a sequence may be growing in; a segment still open when the buffer runs out
    is carried to the next read as a holdover. */
module Connections {
  import opened Bytes
  import opened Patterns

  datatype Level = AtPrompt | Executing | AtRprompt

  datatype ShellStatus = SsExecuting | SsPrompt | SsLost

  class Connection {
    const buf: array<char>
    var filled: nat
    var pos: nat
    var seglen: nat
    var skip: nat
    var pl: Level
    var status: Status
    var holdover: Option<string>
    var hoWritten: bool
    var ss: ShellStatus

    ghost predicate Fits()
      reads this
    {
      filled <= buf.Length
    }

    /** The segment under examination lies inside the buffer. */
    ghost predicate Valid()
      reads this
    {
      pos + seglen <= filled && Fits()
    }

    /** The bytes the buffer holds. */
    ghost function Text(): string
      requires Fits()
      reads this, buf
    {
      buf[..filled]
    }

    constructor (size: nat)
      ensures Valid() && fresh(buf) && buf.Length == size
      ensures filled == pos == seglen == skip == 0 && pl == Executing && status == NoMatch
      ensures holdover == None && !hoWritten && ss == SsExecuting
    {
      buf := new char[size];
      filled, pos, seglen, skip := 0, 0, 0, 0;
      pl, status, holdover, hoWritten, ss := Executing, NoMatch, None, false, SsExecuting;
    }

    /** Start a read: put the holdover back in front, and remember how much of it the
        user has been shown already.  Its length is the C string length. */
    method PrependHoldover()
      requires holdover.Some? ==> |CStr(holdover.value)| <= buf.Length && seglen <= |CStr(holdover.value)|
      modifies this`filled, this`pos, this`seglen, this`skip, this`holdover, buf
      ensures Valid() && holdover == None && pos == 0
      ensures Text() == (if old(holdover).Some? then CStr(old(holdover).value) else "")
      ensures seglen == if old(holdover).Some? then old(seglen) else 0
      ensures skip == if old(holdover).Some? && hoWritten then filled else 0
    {
      if holdover.Some? {
        var ho := CStr(holdover.value);
        forall i | 0 <= i < |ho| {
          buf[i] := ho[i];
        }
        holdover := None;
        filled := |ho|;
        pos := 0;
        skip := if hoWritten then |ho| else 0;
        assert buf[..filled] == ho;
      } else {
        filled, pos, seglen, skip := 0, 0, 0, 0;
      }
    }

    /** A read delivers at most the free part of the buffer. */
    method Read(chunk: string)
      requires Valid() && |chunk| <= buf.Length - filled
      modifies this`filled, buf
      ensures Valid() && Text() == old(Text()) + chunk
    {
      forall i | 0 <= i < |chunk| {
        buf[filled + i] := chunk[i];
      }
      filled := filled + |chunk|;
      assert buf[..filled] == old(buf[..filled]) + chunk;
    }

    /** Cut the open segment off for later.  `writeLater` postpones writing it. */
    method CreateHoldover(writeLater: bool)
      requires Valid() && holdover == None
      modifies this`holdover, this`filled, this`hoWritten
      ensures holdover == Some(CStr(buf[pos..pos + seglen])) && hoWritten == !writeLater
      ensures Fits() && filled == if writeLater then old(filled) - seglen else old(filled)
    {
      holdover := Some(CStr(buf[pos..pos + seglen]));
      if writeLater {
        filled := filled - seglen;
        hoWritten := false;
      } else {
        hoWritten := true;
      }
    }

    /** Remove the segment, with the byte that completed it, from the buffer. */
    method EatSegment()
      requires Valid() && pos + seglen < filled
      modifies this`filled, this`seglen, buf
      ensures Valid() && seglen == 0
      ensures Text() == old(Text())[..pos] + old(Text())[pos + old(seglen) + 1..]
    {
      var n := seglen + 1;
      ghost var was := Text();
      forall i | pos <= i < filled - n {
        buf[i] := buf[i + n];
      }
      filled := filled - n;
      seglen := 0;
      assert Text() == was[..pos] + was[pos + n..];
    }

    /** Step over the segment and the byte that completed it. */
    method PassSegment()
      requires Valid() && pos + seglen < filled
      modifies this`pos, this`seglen
      ensures Valid() && seglen == 0 && pos == old(pos + seglen) + 1
    {
      pos := pos + seglen + 1;
      seglen := 0;
    }

    /** What goes out: everything but the first `skip` bytes.  With `skip` beyond
        `filled` the length would wrap around. */
    method Write() returns (out: Option<string>)
      requires Fits()
      ensures filled == 0 ==> out == Some("")
      ensures 0 < filled < skip ==> out == None
      ensures skip <= filled ==> out == Some(Text()[skip..])
    {
      if filled == 0 {
        return Some("");
      }
      if skip > filled {
        return None;
      }
      return Some(buf[skip..filled]);
    }
  }
}
