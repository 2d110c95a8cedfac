/** The framing every pair of processes speaks: a length of four bytes, then a parameter's
    name, a colon, its value, and two bytes 027 (octal) as a delimiter. */
module ParamIo {
  import opened Bytes
  import opened HardenedIo

  const BUFFER_SIZE := 102400
  const ETB := '\U{17}'
  const DELIMITER := [ETB, ETB]

  /** Names in the order of `enum parameter`. */
  const PARAMS: seq<string> := [
    "none", "purpose", "version", "term-title", "vgexpand-opts", "status", "pwd", "cmd", "mask",
    "developing-mask", "vgexpand-data", "order", "key", "file", "win-id", "reason", "eof"
  ]
  const P_COUNT := 17
  const P_NONE: Param := 0
  const P_EOF: Param := 16

  type Param = p: nat | p < 17

  // ----- the parameter table -----

  /** Length, first and last letter tell the names apart. */
  function Mark(s: string): (nat, char, char) {
    if s == "" then (0, NUL, NUL) else (|s|, s[0], s[|s| - 1])
  }

  const MARKS: seq<(nat, char, char)> := [
    (4, 'n', 'e'), (7, 'p', 'e'), (7, 'v', 'n'), (10, 't', 'e'), (13, 'v', 's'), (6, 's', 's'), (3, 'p', 'd'),
    (3, 'c', 'd'), (4, 'm', 'k'), (15, 'd', 'k'), (13, 'v', 'a'), (5, 'o', 'r'), (3, 'k', 'y'), (4, 'f', 'e'),
    (6, 'w', 'd'), (6, 'r', 'n'), (3, 'e', 'f')
  ]

  lemma NameMarks()
    ensures |PARAMS| == P_COUNT && |MARKS| == P_COUNT
    ensures forall p: Param :: Mark(PARAMS[p]) == MARKS[p]
  {
  }

  lemma NamesDiffer(p: Param, q: Param)
    requires PARAMS[p] == PARAMS[q]
    ensures p == q
  {
    NameMarks();
    MarksDiffer(p, q);
  }

  lemma MarksDiffer(p: Param, q: Param)
    requires MARKS[p] == MARKS[q]
    ensures p == q
  {
  }

  /** No name holds a colon or a NUL, and none is long. */
  lemma NamesPlain(p: Param)
    ensures ':' !in PARAMS[p] && NUL !in PARAMS[p] && |PARAMS[p]| <= 15
  {
    NameMarks();
  }

  method ParamToString(p: Param) returns (s: string)
    ensures s == PARAMS[p]
  {
    s := PARAMS[p];
  }

  /** An unknown name is taken for no parameter at all. */
  method StringToParam(s: string) returns (p: Param)
    ensures p == ParamOf(s)
  {
    p := P_NONE;
    var i := 0;
    ParamOfMeans(s);
    while i < P_COUNT
      invariant 0 <= i <= P_COUNT && p == P_NONE
      invariant forall j: Param :: j < i ==> PARAMS[j] != s
    {
      if s == PARAMS[i] {
        NamesDiffer(i, ParamOf(s));
        p := i;
        break;
      }
      i := i + 1;
    }
  }

  ghost function ParamOf(s: string): Param {
    if exists p: Param :: PARAMS[p] == s then
      var p: Param :| PARAMS[p] == s; p
    else P_NONE
  }

  lemma ParamOfMeans(s: string)
    ensures forall p: Param :: PARAMS[p] == s ==> ParamOf(s) == p
    ensures (forall p: Param :: PARAMS[p] != s) ==> ParamOf(s) == P_NONE
  {
    forall p: Param | PARAMS[p] == s ensures ParamOf(s) == p {
      NamesDiffer(p, ParamOf(s));
    }
  }

  // ----- searching -----

  predicate At(s: string, w: string, q: nat) {
    q + |w| <= |s| && s[q..q + |w|] == w
  }

  lemma AtOne(s: string, c: char, q: nat)
    ensures At(s, [c], q) <==> q < |s| && s[q] == c
  {
    if q < |s| {
      assert s[q..q + 1] == [s[q]];
    }
  }

  lemma AtTwo(s: string, c: char, d: char, q: nat)
    ensures At(s, [c, d], q) <==> q + 1 < |s| && s[q] == c && s[q + 1] == d
  {
    if q + 1 < |s| {
      assert s[q..q + 2] == [s[q], s[q + 1]];
    }
  }

  /** `g_strstr_len`: the first place of `w` from `p` on, not past a NUL; -1 when there is none. */
  function Find(s: string, w: string, p: nat): (r: int)
    ensures r >= 0 ==> p <= r && At(s, w, r) && forall q: nat :: p <= q < r ==> s[q] != NUL && !At(s, w, q)
    ensures r < 0 ==> forall q: nat :: p <= q < |s| && At(s, w, q) ==> exists i: nat :: p <= i <= q && s[i] == NUL
    decreases |s| - p
  {
    if p + |w| > |s| || (p < |s| && s[p] == NUL) then -1
    else if At(s, w, p) then p
    else Find(s, w, p + 1)
  }

  lemma SubSlice(t: string, a: nat, b: nat, p: nat, q: nat)
    requires a <= b <= |t| && p <= q <= b - a
    ensures t[a..b][p..q] == t[a + p..a + q]
  {
    var u, v := t[a..b][p..q], t[a + p..a + q];
    assert |u| == |v| && forall i :: 0 <= i < |v| ==> u[i] == t[a..b][p + i] == v[i];
  }

  lemma FindStep(s: string, w: string, p: nat)
    ensures Find(s, w, p) == if p + |w| > |s| || (p < |s| && s[p] == NUL) then -1 else if At(s, w, p) then p else Find(s, w, p + 1)
  {
  }

  method StrStr(buf: array<char>, start: nat, len: nat, w: string) returns (r: int)
    requires start + len <= buf.Length && w != ""
    ensures r == Find(buf[start..start + len], w, 0)
  {
    hide Find;
    ghost var s := buf[start..start + len];
    var p := 0;
    while p + |w| <= len && buf[start + p] != NUL
      invariant 0 <= p <= len && Find(s, w, 0) == Find(s, w, p)
    {
      var at := start + p;
      FindStep(s, w, p);
      assert buf[at..at + |w|] == s[p..p + |w|] by { SubSlice(buf[..], start, start + len, p, p + |w|); }
      if buf[at..at + |w|] == w {
        assert At(s, w, p);
        return p;
      }
      assert s[p] == buf[at] && !At(s, w, p);
      p := p + 1;
    }
    assert p < len ==> s[p] == buf[start + p];
    FindStep(s, w, p);
    r := -1;
  }

  // ----- lengths -----

  function BigEndian(n: nat): (s: string)
    requires n < 0x1_0000_0000
    ensures |s| == 4
  {
    [(n / 0x100_0000) as char, (n / 0x1_0000 % 0x100) as char, (n / 0x100 % 0x100) as char, (n % 0x100) as char]
  }

  /** Four bytes in network order; a byte is the low eight bits of its character. */
  function LengthOf(s: string): (n: nat)
    requires |s| == 4
    ensures n < 0x1_0000_0000
  {
    ((s[0] as nat % 0x100 * 0x100 + s[1] as nat % 0x100) * 0x100 + s[2] as nat % 0x100) * 0x100 + s[3] as nat % 0x100
  }

  lemma Halved(n: nat)
    ensures n / 0x100 / 0x100 == n / 0x1_0000 && n / 0x1_0000 / 0x100 == n / 0x100_0000
    ensures n == n / 0x100 * 0x100 + n % 0x100
  {
  }

  lemma LengthRoundTrip(n: nat)
    requires n < 0x1_0000_0000
    ensures LengthOf(BigEndian(n)) == n
  {
    var s := BigEndian(n);
    LengthBytes(s, n / 0x100_0000, n / 0x1_0000 % 0x100, n / 0x100 % 0x100, n % 0x100);
    Quarters(n);
  }

  /** The most significant byte comes first. */
  lemma NetworkOrder(a: nat, b: nat, c: nat, d: nat)
    requires a < 0x100 && b < 0x100 && c < 0x100 && d < 0x100
    ensures BigEndian(((a * 0x100 + b) * 0x100 + c) * 0x100 + d) == [a as char, b as char, c as char, d as char]
  {
    var p, q := a * 0x100 + b, (a * 0x100 + b) * 0x100 + c;
    var n := q * 0x100 + d;
    LowByte(q, d);
    LowByte(p, c);
    LowByte(a, b);
    Halved(n);
    Halved(q);
  }

  lemma LowByte(q: nat, r: nat)
    requires r < 0x100
    ensures (q * 0x100 + r) / 0x100 == q && (q * 0x100 + r) % 0x100 == r
  {
  }

  lemma LengthBytes(s: string, a: nat, b: nat, c: nat, d: nat)
    requires a < 0x100 && b < 0x100 && c < 0x100 && d < 0x100
    requires |s| == 4 && s[0] as nat == a && s[1] as nat == b && s[2] as nat == c && s[3] as nat == d
    ensures LengthOf(s) == ((a * 0x100 + b) * 0x100 + c) * 0x100 + d
  {
  }

  lemma Quarters(n: nat)
    ensures n == ((n / 0x100_0000 * 0x100 + n / 0x1_0000 % 0x100) * 0x100 + n / 0x100 % 0x100) * 0x100 + n % 0x100
  {
    var a, b := n / 0x100, n / 0x1_0000;
    Halved(n);
    Halved(a);
    Halved(b);
  }

  // ----- sending -----

  function Body(p: Param, value: string): string {
    PARAMS[p] + ":" + CStr(value) + DELIMITER
  }

  predicate Fits(p: Param, value: string) {
    |Body(p, value)| <= BUFFER_SIZE
  }

  function Frame(p: Param, value: string): string
    requires Fits(p, value)
  {
    BigEndian(|Body(p, value)|) + Body(p, value)
  }

  /** A frame, byte by byte. */
  lemma FrameExample()
    ensures Fits(7, "ls") && Frame(7, "ls") == [NUL, NUL, NUL, '\U{08}'] + "cmd:ls" + [ETB, ETB]
  {
    CStrId("ls");
    assert PARAMS[7] == "cmd" && Body(7, "ls") == "cmd:ls" + [ETB, ETB];
    NetworkOrder(0, 0, 0, 8);
  }

  lemma JoinedTwo(a: string, b: string)
    ensures Joined([a, b]) == a + b
  {
    assert [a, b][1..] == [b] && [b][1..] == [] && Joined([b]) == b + Joined([]);
  }

  method PutParam(fd: Fd, p: Param, value: string) returns (ok: bool)
    modifies fd
    ensures ok ==> Fits(p, value) && fd.stream == old(fd.stream) + Frame(p, value)
    ensures !ok ==> !Fits(p, value) || Failing in old(fd.calls)
    ensures !Fits(p, value) ==> fd.stream == old(fd.stream)
    ensures Fits(p, value) ==> exists n: nat :: n <= |Frame(p, value)| && fd.stream == old(fd.stream) + Frame(p, value)[..n]
    ensures Later(fd.calls, old(fd.calls))
  {
    var name := ParamToString(p);
    var v := new char[|value|](i requires 0 <= i < |value| => value[i]);
    assert v[..] == value;
    var text := CString(v, 0);
    assert v[0..] == value;
    var str := name + ":" + text + DELIMITER;
    if |str| > BUFFER_SIZE {
      return false;
    }
    var vec := new string[2];
    vec[0], vec[1] := BigEndian(|str|), str;
    assert vec[0..] == [BigEndian(|str|), str];
    JoinedTwo(BigEndian(|str|), str);
    var result, sent := WritevAll(fd, vec, 0);
    ok := result == IorOk;
    assert Frame(p, value)[..|Frame(p, value)|] == Frame(p, value);
  }

  // ----- receiving -----

  /** What a pair of name and value says. */
  ghost function Parse(body: string): Option<(Param, string)> {
    var colon := Find(body, ":", 0);
    if colon < 0 then None
    else
      var rest := body[colon + 1..];
      var end := Find(rest, DELIMITER, 0);
      if end < 0 then None else Some((ParamOf(body[..colon]), rest[..end]))
  }

  datatype Got = Pair(param: Param, value: string) | EndOfStream | Refused

  ghost predicate Short(stream: string) {
    |stream| < 4 || |stream| < 4 + LengthOf(stream[..4])
  }

  /** What the receiver makes of the stream, and what it leaves of it. */
  ghost function Next(stream: string): (Got, string) {
    if Short(stream) then (EndOfStream, "")
    else
      var n := LengthOf(stream[..4]);
      var got := match Parse(stream[4..4 + n]) case Some(pair) => Pair(pair.0, pair.1) case None => Refused;
      (got, stream[4 + n..])
  }

  /** The answer given: the end of the stream comes as a parameter of its own. */
  ghost predicate Answers(ok: bool, p: Param, value: string, got: Got) {
    match got
    case Pair(q, v) => ok && p == q && value == v
    case EndOfStream => ok && p == P_EOF && value == "EOF received"
    case Refused => !ok
  }

  /** The length a stream announces is more than the receiver's buffer holds. */
  predicate TooLong(stream: string) {
    |stream| >= 4 && LengthOf(stream[..4]) > BUFFER_SIZE
  }

  /** The receiver trusts the sender that a pair fits the buffer: `overrun` tells that it is
      about to read past it, beyond which nothing is said. */
  method GetParam(fd: Fd, buf: array<char>) returns (ok: bool, p: Param, value: string, overrun: bool)
    requires buf.Length == BUFFER_SIZE
    modifies fd, buf
    ensures Later(fd.calls, old(fd.calls))
    ensures overrun ==> TooLong(old(fd.stream))
    ensures Failing !in old(fd.calls) ==> (overrun <==> TooLong(old(fd.stream)))
    ensures Failing !in old(fd.calls) && !overrun ==> Answers(ok, p, value, Next(old(fd.stream)).0)
    ensures Failing !in old(fd.calls) && !overrun ==> fd.stream == Next(old(fd.stream)).1
  {
    hide LengthOf, Parse;
    ok, p, value, overrun := false, P_NONE, "", false;
    ghost var stream := fd.stream;
    var lengthBuf := new char[4];
    var result := ReadAll(fd, lengthBuf, 4);
    if result == IorEof {
      return true, P_EOF, "EOF received", false;
    } else if result == IorError {
      return;
    }
    var bytes := LengthOf(lengthBuf[..]);
    assert lengthBuf[..4] == lengthBuf[..] == stream[..4];
    if bytes > buf.Length {
      return false, P_NONE, "", true;
    }
    ghost var mid := fd.calls;
    result := ReadAll(fd, buf, bytes);
    LaterOn(fd.calls, mid, old(fd.calls));
    if result == IorEof {
      return true, P_EOF, "EOF received", false;
    } else if result == IorError {
      return;
    }
    assert stream[4..4 + bytes] == buf[..bytes] && stream[4 + bytes..] == fd.stream;
    ok, p, value := ParseBuffer(buf, bytes);
  }

  /** Find `w` and put a NUL in its place. */
  method Terminate(buf: array<char>, start: nat, len: nat, w: string) returns (end: int)
    requires start + len <= buf.Length && w != ""
    modifies buf
    ensures end == Find(old(buf[start..start + len]), w, 0)
    ensures end < 0 ==> buf[..] == old(buf[..])
    ensures end >= 0 ==> end + |w| <= len && buf[..] == old(buf[..])[start + end := NUL]
  {
    end := StrStr(buf, start, len, w);
    if end >= 0 {
      buf[start + end] := NUL;
    }
  }

  /** Cut the buffer in place into two C strings. */
  method ParseBuffer(buf: array<char>, bytes: nat) returns (ok: bool, p: Param, value: string)
    requires bytes <= buf.Length
    modifies buf
    ensures ok <==> Parse(old(buf[..bytes])).Some?
    ensures ok ==> Parse(old(buf[..bytes])) == Some((p, value))
  {
    hide Find, ParamOf, At, CStr;
    ok, p, value := false, P_NONE, "";
    ghost var all, body := buf[..], buf[..bytes];
    assert buf[0..0 + bytes] == body;
    var end := Terminate(buf, 0, bytes, ":");
    if end < 0 {
      return;
    }
    var start, left := end + 1, bytes - (end + 1);
    assert buf[start..start + left] == body[start..];
    var last := Terminate(buf, start, left, DELIMITER);
    if last < 0 {
      return;
    }
    CutTwice(all, bytes, end, last);
    var name := CString(buf, 0);
    value := CString(buf, start);
    p := StringToParam(name);
    ok := true;
  }

  lemma CutTwice(all: string, bytes: nat, end: nat, last: nat)
    requires bytes <= |all| && end == Find(all[..bytes], ":", 0)
    requires last == Find(all[..bytes][end + 1..], DELIMITER, 0)
    ensures var cut := all[end := NUL][end + 1 + last := NUL];
            && CStr(cut[0..]) == all[..bytes][..end]
            && CStr(cut[end + 1..]) == all[..bytes][end + 1..][..last]
  {
    hide Find, CStr;
    var cut := all[end := NUL][end + 1 + last := NUL];
    var name, value := all[..bytes][..end], all[..bytes][end + 1..][..last];
    FoundClear(all[..bytes], ":", end);
    FoundClear(all[..bytes][end + 1..], DELIMITER, last);
    assert name <= cut[0..] && value <= cut[end + 1..];
    CStrIs(cut[0..], name);
    CStrIs(cut[end + 1..], value);
  }

  lemma FoundClear(s: string, w: string, r: nat)
    requires w != "" && r == Find(s, w, 0)
    ensures r < |s| && NUL !in s[..r]
  {
  }

  // ----- the round trip -----

  /** What is left of a value: all before the first delimiter. */
  function Cut(value: string): string
    requires NUL !in value
  {
    CutPoint(value);
    (value + DELIMITER)[..Find(value + DELIMITER, DELIMITER, 0)]
  }

  lemma CutPoint(value: string)
    requires NUL !in value
    ensures 0 <= Find(value + DELIMITER, DELIMITER, 0) <= |value|
  {
    var s := value + DELIMITER;
    AtTwo(s, ETB, ETB, |value|);
    assert forall i: nat :: i <= |value| ==> s[i] != NUL;
  }

  /** A value comes through whole exactly when it holds no delimiter and does not end in
      half of one. */
  lemma SurvivesIff(value: string)
    requires NUL !in value
    ensures Cut(value) == value <==> Clean(value)
  {
    CutPoint(value);
    var s := value + DELIMITER;
    var r := Find(s, DELIMITER, 0);
    forall i: nat ensures At(s, DELIMITER, i) <==> i + 1 < |s| && s[i] == ETB && s[i + 1] == ETB {
      AtTwo(s, ETB, ETB, i);
    }
    assert Cut(value) == value[..r];
    if r < |value| {
      assert At(s, DELIMITER, r) && s[r] == value[r];
      assert r + 1 < |value| ==> s[r + 1] == value[r + 1];
    }
    if r == |value| {
      forall i: nat | i < |value| - 1 ensures value[i] != ETB || value[i + 1] != ETB {
        assert !At(s, DELIMITER, i);
      }
      assert value != "" ==> !At(s, DELIMITER, |value| - 1);
    }
  }

  predicate Clean(value: string) {
    && (value != "" ==> value[|value| - 1] != ETB)
    && forall i: nat :: i < |value| - 1 ==> value[i] != ETB || value[i + 1] != ETB
  }

  lemma BodyParses(p: Param, value: string)
    ensures Parse(Body(p, value)) == Some((p, Cut(CStr(value))))
  {
    NamesPlain(p);
    var name, body := PARAMS[p], Body(p, value);
    var rest := CStr(value) + DELIMITER;
    assert body == name + ":" + rest;
    ColonFound(name, rest);
    CutPoint(CStr(value));
    ParamOfMeans(name);
    assert rest[..Find(rest, DELIMITER, 0)] == Cut(CStr(value));
  }

  lemma ColonFound(name: string, rest: string)
    requires NUL !in name && ':' !in name
    ensures var body := name + ":" + rest;
            Find(body, ":", 0) == |name| && body[|name| + 1..] == rest && body[..|name|] == name
  {
    var body := name + ":" + rest;
    forall i: nat ensures At(body, ":", i) <==> i < |body| && body[i] == ':' {
      AtOne(body, ':', i);
    }
    assert At(body, ":", |name|);
    assert forall i: nat :: i < |name| ==> body[i] == name[i];
  }

  /** No frame that is sent makes the receiver read past its buffer. */
  lemma FrameInBounds(p: Param, value: string, more: string)
    requires Fits(p, value)
    ensures !TooLong(Frame(p, value) + more)
  {
    assert (Frame(p, value) + more)[..4] == BigEndian(|Body(p, value)|);
    LengthRoundTrip(|Body(p, value)|);
  }

  lemma FrameNext(p: Param, value: string, more: string)
    requires Fits(p, value)
    ensures Next(Frame(p, value) + more) == (Pair(p, Cut(CStr(value))), more)
  {
    var body, stream := Body(p, value), Frame(p, value) + more;
    LengthRoundTrip(|body|);
    BodyParses(p, value);
    assert stream[..4] == BigEndian(|body|) && stream[4..4 + |body|] == body && stream[4 + |body|..] == more;
  }

  lemma FrameShort(p: Param, value: string, n: nat)
    requires Fits(p, value) && n < |Frame(p, value)|
    ensures Next(Frame(p, value)[..n]) == (EndOfStream, "")
  {
    if n >= 4 {
      assert Frame(p, value)[..n][..4] == BigEndian(|Body(p, value)|);
      LengthRoundTrip(|Body(p, value)|);
    }
  }

  lemma NextEmpty()
    ensures Next("") == (EndOfStream, "")
  {
  }

  /** The bytes a list of pairs makes; pairs too long are never sent. */
  function Sent(pairs: seq<(Param, string)>): string {
    if pairs == [] then ""
    else (if Fits(pairs[0].0, pairs[0].1) then Frame(pairs[0].0, pairs[0].1) else "") + Sent(pairs[1..])
  }

  /** All a receiver gets until the stream ends or a pair cannot be read. */
  ghost function Received(stream: string): seq<Got>
    decreases |stream|
  {
    var (got, rest) := Next(stream);
    if got.Pair? then [got] + Received(rest) else [got]
  }

  /** The pairs whose frames lie within the first `n` bytes, as they are received. */
  function Whole(pairs: seq<(Param, string)>, n: nat): seq<Got> {
    if pairs == [] then []
    else if !Fits(pairs[0].0, pairs[0].1) then Whole(pairs[1..], n)
    else
      var frame := Frame(pairs[0].0, pairs[0].1);
      if n < |frame| then [] else [Pair(pairs[0].0, Cut(CStr(pairs[0].1)))] + Whole(pairs[1..], n - |frame|)
  }

  /** However many bytes of a conversation get through before the sender dies, the receiver
      gets exactly the pairs sent whole, in order, and then the end of the stream. */
  lemma {:induction false} StreamRoundTrip(pairs: seq<(Param, string)>, n: nat)
    requires n <= |Sent(pairs)|
    ensures Received(Sent(pairs)[..n]) == Whole(pairs, n) + [EndOfStream]
  {
    hide Next, Frame, Fits, Cut;
    if pairs == [] {
      NextEmpty();
    } else if !Fits(pairs[0].0, pairs[0].1) {
      assert Sent(pairs) == Sent(pairs[1..]);
      StreamRoundTrip(pairs[1..], n);
    } else {
      var (p, v) := pairs[0];
      var frame := Frame(p, v);
      if n < |frame| {
        assert Sent(pairs)[..n] == frame[..n];
        FrameShort(p, v, n);
      } else {
        var more := Sent(pairs[1..])[..n - |frame|];
        assert Sent(pairs)[..n] == frame + more;
        FrameNext(p, v, more);
        StreamRoundTrip(pairs[1..], n - |frame|);
      }
    }
  }
}
