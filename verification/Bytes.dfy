/** Bytes of the C strings, and the few libc and GLib string searches the
    modelled code relies on.  A byte is a `char`; a C string is a `string`
    whose first NUL, if any, ends what the C library sees of it. */
module Bytes {
  const NUL := '\U{00}'
  const BEL := '\U{07}'
  const BS := '\U{08}'
  const LF := '\U{0A}'
  const VT := '\U{0B}'
  const CR := '\U{0D}'
  const ESC := '\U{1B}'
  const DEL := '\U{7F}'

  datatype Option<+T> = None | Some(value: T)

  predicate IsDigit(c: char) {
    '0' <= c <= '9'
  }

  /** `iscntrl` in the C locale. */
  predicate IsCntrl(c: char) {
    c < ' ' || c == DEL
  }

  /** What a NUL-terminated search sees of `s`. */
  function CStr(s: string): (r: string)
    ensures r <= s && NUL !in r
    ensures |r| < |s| ==> s[|r|] == NUL
  {
    if s == "" || s[0] == NUL then "" else [s[0]] + CStr(s[1..])
  }

  lemma CStrId(s: string)
    requires NUL !in s
    ensures CStr(s) == s
  {
  }

  /** Index of the first `c` in `s`, or -1. */
  function FirstOf(s: string, c: char): (r: int)
    ensures -1 <= r < |s|
    ensures r >= 0 ==> s[r] == c && c !in s[..r]
    ensures r < 0 ==> c !in s
  {
    if s == "" then -1
    else if s[0] == c then 0
    else
      var r := FirstOf(s[1..], c);
      if r < 0 then -1 else
        assert s[..r + 1] == [s[0]] + s[1..][..r];
        r + 1
  }

  /** Index of the last `c` in `s`, or -1. */
  function LastOf(s: string, c: char): (r: int)
    ensures -1 <= r < |s|
    ensures r >= 0 ==> s[r] == c && c !in s[r + 1..]
    ensures r < 0 ==> c !in s
  {
    if s == "" then -1
    else if s[|s| - 1] == c then |s| - 1
    else
      var t := s[..|s| - 1];
      var r := LastOf(t, c);
      assert s == t + [s[|s| - 1]];
      assert r >= 0 ==> s[r + 1..] == t[r + 1..] + [s[|s| - 1]];
      r
  }

  lemma {:induction false} CStrIs(s: string, t: string)
    requires t <= s && NUL !in t && (|t| < |s| ==> s[|t|] == NUL)
    ensures CStr(s) == t
  {
    if t != "" {
      assert s[0] == t[0] && t == [t[0]] + t[1..];
      CStrIs(s[1..], t[1..]);
    }
  }

  /** The C string at a place in a buffer. */
  method CString(buf: array<char>, start: nat) returns (s: string)
    requires start <= buf.Length
    ensures s == CStr(buf[start..])
  {
    s := "";
    var i := start;
    while i < buf.Length && buf[i] != NUL
      invariant start <= i <= buf.Length && s == buf[start..i] && NUL !in s
    {
      s, i := s + [buf[i]], i + 1;
    }
    CStrIs(buf[start..], s);
  }

  lemma {:induction false} FirstOfIs(a: string, c: char, b: string)
    requires c !in a
    ensures FirstOf(a + b, c) == if FirstOf(b, c) < 0 then -1 else |a| + FirstOf(b, c)
    decreases |a|
  {
    if a == "" {
      assert a + b == b;
    } else {
      assert (a + b)[1..] == a[1..] + b;
      assert a[0] in a;
      FirstOfIs(a[1..], c, b);
    }
  }

  /** The first occurrence is where there is one and none before it. */
  lemma FirstOfAt(s: string, c: char, i: nat)
    requires i < |s| && s[i] == c && c !in s[..i]
    ensures FirstOf(s, c) == i
  {
    assert s == s[..i] + s[i..];
    FirstOfIs(s[..i], c, s[i..]);
  }

  /** What comes before a NUL is seen. */
  lemma {:induction false} CStrKeeps(s: string, n: nat)
    requires n < |s| && NUL !in s[..n + 1]
    ensures n < |CStr(s)| && CStr(s)[..n + 1] == s[..n + 1]
  {
    assert s[0] == s[..n + 1][0];
    if n > 0 {
      assert s[1..][..n] == s[..n + 1][1..];
      CStrKeeps(s[1..], n - 1);
      assert s[..n + 1] == [s[0]] + s[1..][..n];
    }
  }
}
