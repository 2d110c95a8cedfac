/** Reads and writes that carry on until every byte is through, over a descriptor whose
    calls may be interrupted, transfer less than asked for, or fail. */
module HardenedIo {
  datatype IoResult = IorOk | IorError | IorEof

  /** What the next system call does: get interrupted, transfer up to so many bytes, or fail. */
  datatype Call = Interrupted | Upto(n: nat) | Failing

  /** A byte stream between two processes, and what the calls on it will do.  Calls past the
      end of `calls` transfer all they can. */
  class Fd {
    var stream: string
    var calls: seq<Call>

    constructor (calls: seq<Call>)
      ensures stream == "" && this.calls == calls
    {
      stream, this.calls := "", calls;
    }

    /** How many of `count` bytes the next call transfers. */
    function Transferred(count: nat): (n: nat)
      reads this
      ensures n <= count
    {
      if calls != [] && calls[0].Upto? && calls[0].n < count then calls[0].n else count
    }

    /** read(2): `error` says EINTR or worse; no byte only at the end of the stream. */
    method Read(count: nat) returns (error: Call, data: string)
      requires count > 0
      modifies this
      ensures calls == if old(calls) == [] then [] else old(calls)[1..]
      ensures error == if old(calls) == [] || old(calls)[0].Upto? then Upto(|data|) else old(calls)[0]
      ensures data + stream == old(stream) && |data| <= count
      ensures Later(calls, old(calls))
      ensures error.Upto? ==> (data == "" <==> old(stream) == "")
      ensures !error.Upto? ==> data == ""
    {
      if calls != [] && !calls[0].Upto? {
        error, data, calls := calls[0], "", calls[1..];
        return;
      }
      var n := Transferred(count);
      n := if n == 0 then 1 else n;
      n := if n < |stream| then n else |stream|;
      data, stream := stream[..n], stream[n..];
      calls := if calls == [] then [] else calls[1..];
      error := Upto(|data|);
    }

    /** write(2) and writev(2) of the bytes given. */
    method Write(data: string) returns (error: Call, n: nat)
      modifies this
      ensures calls == if old(calls) == [] then [] else old(calls)[1..]
      ensures error == if old(calls) == [] || old(calls)[0].Upto? then Upto(n) else old(calls)[0]
      ensures n <= |data| && stream == old(stream) + data[..n]
      ensures !error.Upto? ==> n == 0
      ensures old(calls) == [] ==> n == |data|
      ensures Later(calls, old(calls))
    {
      if calls != [] && !calls[0].Upto? {
        error, n, calls := calls[0], 0, calls[1..];
        return;
      }
      n := Transferred(|data|);
      stream := stream + data[..n];
      calls := if calls == [] then [] else calls[1..];
      error := Upto(n);
    }
  }

  /** The calls left are the last of those there were. */
  ghost predicate Later(now: seq<Call>, before: seq<Call>) {
    |now| <= |before| && now == before[|before| - |now|..]
  }

  lemma LaterHas(now: seq<Call>, before: seq<Call>, c: Call)
    requires Later(now, before) && c in now
    ensures c in before
  {
  }

  lemma Regrouped(a: string, b: string, c: string)
    ensures (a + b) + c == a + (b + c)
  {
  }

  lemma LaterSame(calls: seq<Call>)
    ensures Later(calls, calls)
  {
  }

  lemma LaterOn(now: seq<Call>, mid: seq<Call>, before: seq<Call>)
    requires Later(now, mid) && Later(mid, before)
    ensures Later(now, before)
  {
  }

  method Store(buf: array<char>, pos: nat, data: string)
    requires pos + |data| <= buf.Length
    modifies buf
    ensures buf[..pos + |data|] == old(buf[..pos]) + data
  {
    forall i | 0 <= i < |data| {
      buf[pos + i] := data[i];
    }
  }

  /** One read(2), and what it brings is put behind what is there. */
  method ReadSome(fd: Fd, buf: array<char>, pos: nat, left: nat, ghost got: string) returns (error: Call, data: string)
    requires 0 < left && pos + left <= buf.Length && got == buf[..pos]
    modifies fd, buf
    ensures data + fd.stream == old(fd.stream) && |data| <= left && got + data == buf[..pos + |data|]
    ensures Later(fd.calls, old(fd.calls)) && (error.Failing? ==> Failing in old(fd.calls))
    ensures error.Upto? && data == "" ==> old(fd.stream) == ""
    ensures data == "" && !error.Upto? ==> |fd.calls| < |old(fd.calls)|
  {
    hide Later;
    error, data := fd.Read(left);
    Store(buf, pos, data);
  }

  /** Read exactly `bytes` bytes into `buf`. */
  method ReadAll(fd: Fd, buf: array<char>, bytes: nat) returns (result: IoResult)
    requires bytes <= buf.Length
    modifies fd, buf
    ensures Later(fd.calls, old(fd.calls))
    ensures result == IorError ==> Failing in old(fd.calls)
    ensures result == IorOk ==> old(fd.stream) == buf[..bytes] + fd.stream
    ensures result == IorEof ==> |old(fd.stream)| < bytes && fd.stream == ""
  {
    hide Later;
    LaterSame(fd.calls);
    result := IorOk;
    var pos, left := 0, bytes;
    ghost var got: string := [];
    while left > 0
      invariant 0 <= pos <= bytes && left == bytes - pos && result == IorOk
      invariant Later(fd.calls, old(fd.calls)) && old(fd.stream) == got + fd.stream && got == buf[..pos]
      decreases left, |fd.calls|
    {
      ghost var before := fd.calls;
      var error, data := ReadSome(fd, buf, pos, left, got);
      Regrouped(got, data, fd.stream);
      LaterOn(fd.calls, before, old(fd.calls));
      if error.Failing? {
        LaterHas(before, old(fd.calls), Failing);
        result := IorError;
        break;
      } else if error.Upto? && data == "" {
        result := IorEof;
        break;
      }
      got := got + data;
      pos, left := pos + |data|, left - |data|;
    }
  }

  /** Write all of `data`. */
  method WriteAll(fd: Fd, data: string) returns (result: IoResult, ghost sent: nat)
    modifies fd
    ensures Later(fd.calls, old(fd.calls))
    ensures result == IorOk || (result == IorError && Failing in old(fd.calls))
    ensures sent <= |data| && fd.stream == old(fd.stream) + data[..sent] && (result == IorOk ==> sent == |data|)
  {
    hide Later;
    LaterSame(fd.calls);
    result := IorOk;
    var pos := 0;
    assert old(fd.stream) + data[..0] == old(fd.stream);
    while pos < |data|
      invariant 0 <= pos <= |data| && result == IorOk
      invariant Later(fd.calls, old(fd.calls)) && fd.stream == old(fd.stream) + data[..pos]
      decreases |fd.calls|, |data| - pos
    {
      ghost var before := fd.calls;
      var error, n := fd.Write(data[pos..]);
      LaterOn(fd.calls, before, old(fd.calls));
      Regrouped(old(fd.stream), data[..pos], data[pos..][..n]);
      assert data[..pos] + data[pos..][..n] == data[..pos + n];
      if error.Failing? {
        LaterHas(before, old(fd.calls), Failing);
        result := IorError;
        break;
      }
      pos := pos + n;
    }
    sent := pos;
  }

  function Joined(vec: seq<string>): string {
    if vec == [] then "" else vec[0] + Joined(vec[1..])
  }

  lemma JoinedDrop(vec: seq<string>, n: nat)
    requires vec != [] && n <= |vec[0]|
    ensures Joined(vec)[..n] == vec[0][..n] && Joined([vec[0][n..]] + vec[1..]) == Joined(vec)[n..]
  {
    assert ([vec[0][n..]] + vec[1..])[1..] == vec[1..];
  }

  /** Write the buffers of `vec` from `first` on.  An entry is the part of its buffer still
      to be written, rewritten after a partial transfer. */
  method WritevAll(fd: Fd, vec: array<string>, first: nat) returns (result: IoResult, ghost sent: nat)
    requires first <= vec.Length
    modifies fd, vec
    ensures Later(fd.calls, old(fd.calls))
    ensures result == IorOk || (result == IorError && Failing in old(fd.calls))
    ensures var all := Joined(old(vec[first..]));
            sent <= |all| && fd.stream == old(fd.stream) + all[..sent] && (result == IorOk ==> sent == |all|)
    decreases |fd.calls|
  {
    hide Joined;
    ghost var all := Joined(vec[first..]);
    var error, n := GatherWrite(fd, vec, first);
    ghost var mid := fd.calls;
    sent := n;
    if error.Failing? {
      return IorError, sent;
    }
    var at := SkipWritten(vec, first, n);
    result := IorOk;
    ghost var more := 0;
    if at + 1 < vec.Length {
      result, more := WritevAll(fd, vec, at);
    } else if at + 1 == vec.Length {
      result, more := WriteAll(fd, vec[at]);
    }
    LaterOn(fd.calls, mid, old(fd.calls));
    assert more <= |all[sent..]|;
    assert all[..sent] + all[sent..][..more] == all[..sent + more];
    sent := sent + more;
  }

  /** Pass over the entries `n` bytes have written, and cut the one they end in. */
  method SkipWritten(vec: array<string>, first: nat, n: nat) returns (at: nat)
    requires first <= vec.Length && n <= |Joined(vec[first..])|
    modifies vec
    ensures first <= at <= vec.Length
    ensures Joined(vec[at..]) == Joined(old(vec[first..]))[n..]
    ensures n == |Joined(old(vec[first..]))| <==> at == vec.Length
    ensures at + 1 == vec.Length ==> vec[at] == Joined(vec[at..])
  {
    var left := n;
    at := first;
    while at < vec.Length
      invariant first <= at <= vec.Length && 0 <= left <= |Joined(vec[at..])| && vec[..] == old(vec[..])
      invariant Joined(vec[at..])[left..] == Joined(old(vec[first..]))[n..]
    {
      assert vec[at..][1..] == vec[at + 1..];
      if left >= |vec[at]| {
        left, at := left - |vec[at]|, at + 1;
      } else {
        JoinedDrop(vec[at..], left);
        vec[at] := vec[at][left..];
        assert vec[at..] == [vec[at]] + vec[at + 1..] && vec[at] != "";
        break;
      }
    }
    LastEntry(vec[at..]);
  }

  lemma LastEntry(vec: seq<string>)
    ensures vec == [] ==> Joined(vec) == ""
    ensures |vec| == 1 ==> Joined(vec) == vec[0]
  {
    if |vec| == 1 {
      assert vec[1..] == [];
    }
  }

  /** writev(2), again while it is interrupted. */
  method GatherWrite(fd: Fd, vec: array<string>, first: nat) returns (error: Call, n: nat)
    requires first <= vec.Length
    modifies fd
    ensures Later(fd.calls, old(fd.calls)) && n <= |Joined(vec[first..])|
    ensures fd.stream == old(fd.stream) + Joined(vec[first..])[..n]
    ensures !error.Interrupted? && (error.Failing? ==> Failing in old(fd.calls))
    ensures old(fd.calls) == [] ==> n == |Joined(vec[first..])|
    ensures old(fd.calls) != [] ==> |fd.calls| < |old(fd.calls)|
  {
    hide Later;
    LaterSame(fd.calls);
    var data := Gathered(vec, first);
    error, n := fd.Write(data);
    while error.Interrupted?
      invariant Later(fd.calls, old(fd.calls)) && n <= |data| && fd.stream == old(fd.stream) + data[..n]
      invariant error.Interrupted? ==> n == 0
      invariant error.Failing? ==> Failing in old(fd.calls)
      invariant old(fd.calls) == [] ==> n == |data| && !error.Interrupted?
      invariant old(fd.calls) != [] ==> |fd.calls| < |old(fd.calls)|
      decreases |fd.calls|, error.Interrupted?
    {
      ghost var before := fd.calls;
      error, n := fd.Write(data);
      LaterOn(fd.calls, before, old(fd.calls));
      if error.Failing? {
        LaterHas(before, old(fd.calls), Failing);
      }
    }
  }

  method Gathered(vec: array<string>, first: nat) returns (data: string)
    requires first <= vec.Length
    ensures data == Joined(vec[first..])
  {
    data := "";
    var at := vec.Length;
    while at > first
      invariant first <= at <= vec.Length && data == Joined(vec[at..])
    {
      at := at - 1;
      assert vec[at..][1..] == vec[at + 1..];
      data := vec[at] + data;
    }
  }
}
