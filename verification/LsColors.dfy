/** Decoding LS_COLORS: strings with escapes are decoded one after another into a single
    buffer no larger than the variable itself. */
module LsColors {
  import opened Bytes

  datatype FunkyState = StGnd | StBackslash | StOctal | StHex | StCaret | StEnd | StError

  /** Where decoding stopped: whether it went well, the decoded bytes, and the place. */
  datatype Decoded = Decoded(ok: bool, text: string, at: nat)

  /** The character at a place of a C string. */
  function CharAt(s: string, p: nat): char {
    if p < |s| then s[p] else NUL
  }

  lemma EndAt(s: string, p: nat)
    requires NUL !in s && p <= |s|
    ensures CharAt(s, p) == NUL <==> p == |s|
  {
    if p < |s| {
      assert s[p] in s;
    }
  }

  predicate IsOctal(c: char) {
    '0' <= c <= '7'
  }

  /** The value of a hexadecimal digit, or -1. */
  function HexValue(c: char): int {
    if '0' <= c <= '9' then (c - '0') as int
    else if 'a' <= c <= 'f' then (c - 'a') as int + 10
    else if 'A' <= c <= 'F' then (c - 'A') as int + 10
    else -1
  }

  /** What `\` and a character that begins no number stand for. */
  function Escaped(c: char): nat {
    if c == 'a' then 7
    else if c == 'b' then 8
    else if c == 'e' then 27
    else if c == 'f' then 12
    else if c == 'n' then 10
    else if c == 'r' then 13
    else if c == 't' then 9
    else if c == 'v' then 11
    else if c == '?' then 127
    else if c == '_' then 32
    else c as nat
  }

  /** The low eight bits. */
  function Byte(n: nat): char {
    (n % 256) as char
  }

  function Digit(c: char): nat {
    if IsOctal(c) then (c - '0') as nat else 0
  }

  datatype Move = Stop(ok: bool, advance: nat) | Go(state: FunkyState, num: nat, advance: nat, put: string)

  /** What one character does in a state: on to another state, one place further or not, with
      a byte put out or not.  DEL written `^?` leaves its question mark to be read again. */
  function Step(c: char, st: FunkyState, num: nat, equalsEnd: bool): (m: Move)
    ensures m.Go? ==> (m.advance == 1 && c != NUL) || (m.advance == 0 && !st.StGnd? && m.state.StGnd?)
    ensures m.Go? ==> !m.state.StEnd? && !m.state.StError? && |m.put| <= 1 && (m.put != "" ==> m.state.StGnd?)
    ensures m.Go? && m.put == "" ==> !m.state.StGnd? && m.advance == 1
  {
    match st
    case StGnd =>
      if c == ':' || c == NUL || (c == '=' && equalsEnd) then Stop(true, 0)
      else if c == '\\' then Go(StBackslash, num, 1, "")
      else if c == '^' then Go(StCaret, num, 1, "")
      else Go(StGnd, num, 1, [c])
    case StBackslash =>
      if c == NUL then Stop(false, 1)
      else if IsOctal(c) then Go(StOctal, Digit(c), 1, "")
      else if c == 'x' || c == 'X' then Go(StHex, 0, 1, "")
      else Go(StGnd, num, 1, [Byte(Escaped(c))])
    case StOctal =>
      if IsOctal(c) then Go(StOctal, num * 8 + Digit(c), 1, "") else Go(StGnd, num, 0, [Byte(num)])
    case StHex =>
      if HexValue(c) >= 0 then Go(StHex, num * 16 + HexValue(c), 1, "") else Go(StGnd, num, 0, [Byte(num)])
    case StCaret =>
      if '@' <= c <= '~' then Go(StGnd, num, 1, [Byte(c as nat % 32)])
      else if c == '?' then Go(StGnd, num, 0, [DEL])
      else Stop(false, 0)
    case StEnd => Stop(true, 0)
    case StError => Stop(false, 0)
  }

  /** Decode from a place on, up to a colon, the end, or an equals sign if that ends it. */
  function Decode(s: string, p: nat, st: FunkyState, num: nat, equalsEnd: bool): Decoded
    requires p <= |s|
    decreases |s| - p, if st.StGnd? then 0 else 1
  {
    match Step(CharAt(s, p), st, num, equalsEnd)
    case Stop(ok, n) => Decoded(ok, "", p + n)
    case Go(next, m, n, put) =>
      var d := Decode(s, p + n, next, m, equalsEnd);
      d.(text := put + d.text)
  }

  /** Never more bytes come out than went in, in any state; decoding that goes well stops at
      a terminator. */
  lemma {:induction false} DecodeBounds(s: string, p: nat, st: FunkyState, num: nat, equalsEnd: bool)
    requires p <= |s| && NUL !in s && !st.StEnd? && !st.StError?
    ensures var d := Decode(s, p, st, num, equalsEnd); var owed := if st.StGnd? then 0 else 1;
            && p <= d.at && p + |d.text| <= d.at + owed && p + |d.text| <= |s| + owed
            && (d.ok ==> d.at <= |s| && (d.at == |s| || s[d.at] == ':' || (equalsEnd && s[d.at] == '=')))
    decreases |s| - p, if st.StGnd? then 0 else 1
  {
    var m := Step(CharAt(s, p), st, num, equalsEnd);
    if m.Go? {
      DecodeBounds(s, p + m.advance, m.state, m.num, equalsEnd);
    } else if p < |s| {
      assert s[p] in s;
    }
  }

  /** What has been decoded, and what decoding on from here gives. */
  function Onwards(text: string, s: string, p: nat, st: FunkyState, num: nat, equalsEnd: bool): Decoded
    requires p <= |s|
  {
    var d := Decode(s, p, st, num, equalsEnd);
    d.(text := text + d.text)
  }

  lemma OnwardsStep(text: string, s: string, p: nat, st: FunkyState, num: nat, equalsEnd: bool)
    requires p <= |s|
    ensures match Step(CharAt(s, p), st, num, equalsEnd)
            case Stop(ok, n) => Onwards(text, s, p, st, num, equalsEnd) == Decoded(ok, text, p + n)
            case Go(next, m, n, put) =>
              Onwards(text, s, p, st, num, equalsEnd) == Onwards(text + put, s, p + n, next, m, equalsEnd)
  {
    hide Step;
    var m := Step(CharAt(s, p), st, num, equalsEnd);
    if m.Go? {
      var d := Decode(s, p + m.advance, m.state, m.num, equalsEnd);
      assert text + (m.put + d.text) == (text + m.put) + d.text;
    } else {
      assert text + "" == text;
    }
  }

  predicate Running(st: FunkyState) {
    !st.StEnd? && !st.StError?
  }

  /** One character: the next state and place, and a byte to put out, if any. */
  method Switch(c: char, st: FunkyState, n: nat, from: nat, equalsEnd: bool)
    returns (state: FunkyState, num: nat, p: nat, put: string)
    requires Running(st)
    ensures from <= p && Step(c, st, n, equalsEnd)
                         == if Running(state) then Go(state, num, p - from, put) else Stop(state.StEnd?, p - from)
    ensures |put| <= 1 && (!Running(state) ==> put == "")
  {
    hide Byte, Escaped, Digit, HexValue;
    state, num, p, put := st, n, from, "";
    match st {
      case StGnd =>
        if c == ':' || c == NUL || (c == '=' && equalsEnd) {
          state := StEnd;
        } else if c == '\\' {
          state, p := StBackslash, p + 1;
        } else if c == '^' {
          state, p := StCaret, p + 1;
        } else {
          put, p := [c], p + 1;
        }
      case StBackslash =>
        if IsOctal(c) {
          state, num := StOctal, Digit(c);
        } else if c == 'x' || c == 'X' {
          state, num := StHex, 0;
        } else if c == NUL {
          state := StError;
        } else {
          put, state := [Byte(Escaped(c))], StGnd;
        }
        p := p + 1;
      case StOctal =>
        if !IsOctal(c) {
          put, state := [Byte(num)], StGnd;
        } else {
          num, p := num * 8 + Digit(c), p + 1;
        }
      case StHex =>
        var h := HexValue(c);
        if h >= 0 {
          num, p := num * 16 + h, p + 1;
        } else {
          put, state := [Byte(num)], StGnd;
        }
      case StCaret =>
        state := StGnd;
        if '@' <= c <= '~' {
          put, p := [Byte(c as nat % 32)], p + 1;
        } else if c == '?' {
          put := [DEL];
        } else {
          state := StError;
        }
    }
  }

  /** Decode into the buffer from `at` on.  A NUL ends the source. */
  method GetFunkyString(src: string, from: nat, buf: array<char>, at: nat, equalsEnd: bool)
    returns (ok: bool, p: nat, q: nat, count: nat)
    requires at <= from <= |src| <= buf.Length && NUL !in src
    modifies buf
    ensures q == at + count <= |src| && buf[..at] == old(buf[..at])
    ensures Decoded(ok, buf[at..q], p) == Decode(src, from, StGnd, 0, equalsEnd)
  {
    hide Decode;
    var num: nat, state := 0, StGnd;
    p, q, count := from, at, 0;
    ghost var text := "";
    ghost var whole := Decode(src, from, StGnd, 0, equalsEnd);
    assert "" + whole.text == whole.text;
    while Running(state)
      invariant from <= p && (!state.StError? ==> p <= |src|) && q == at + count && q <= |src|
      invariant Running(state) ==> q + (if state.StGnd? then 0 else 1) <= p
      invariant text == buf[at..q] && buf[..at] == old(buf[..at])
      invariant whole == if Running(state) then Onwards(text, src, p, state, num, equalsEnd) else Decoded(state.StEnd?, text, p)
      decreases if Running(state) then 1 else 0, |src| - p, if state.StGnd? then 0 else 1
    {
      OnwardsStep(text, src, p, state, num, equalsEnd);
      var c := CharAt(src, p);
      var put;
      EndAt(src, p);
      state, num, p, put := Switch(c, state, num, p, equalsEnd);
      if put != "" {
        buf[q] := put[0];
        q, count := q + 1, count + 1;
      }
      assert put == "" ==> text + put == text;
      text := text + put;
    }
    ok := state != StError;
  }

  // ----- every byte string can be written -----

  /** A byte that means something else is written with an escape. */
  function EscapeByte(c: char): string {
    if c == NUL then "^@" else if c == ':' || c == '=' || c == '\\' || c == '^' then ['\\', c] else [c]
  }

  function Escape(t: string): string {
    if t == "" then "" else EscapeByte(t[0]) + Escape(t[1..])
  }

  lemma EscapedByte(c: char, s: string, p: nat, num: nat, equalsEnd: bool)
    requires p + |EscapeByte(c)| <= |s| && s[p..p + |EscapeByte(c)|] == EscapeByte(c)
    ensures Decode(s, p, StGnd, num, equalsEnd)
            == var d := Decode(s, p + |EscapeByte(c)|, StGnd, num, equalsEnd); d.(text := [c] + d.text)
  {
    hide Decode;
    var e := EscapeByte(c);
    assert CharAt(s, p) == s[p..p + |e|][0] == e[0];
    Unfold(s, p, StGnd, num, equalsEnd);
    if |e| == 2 {
      assert CharAt(s, p + 1) == s[p..p + |e|][1] == e[1];
      EscapedSecond(c, s, p + 1, num, equalsEnd);
      var d := Decode(s, p + 2, StGnd, num, equalsEnd);
      assert "" + ([c] + d.text) == [c] + d.text;
    }
  }

  lemma EscapedSecond(c: char, s: string, p: nat, num: nat, equalsEnd: bool)
    requires p < |s| && |EscapeByte(c)| == 2 && CharAt(s, p) == EscapeByte(c)[1]
    ensures var d := Decode(s, p + 1, StGnd, num, equalsEnd);
            Decode(s, p, if c == NUL then StCaret else StBackslash, num, equalsEnd) == d.(text := [c] + d.text)
  {
    hide Decode;
    Unfold(s, p, if c == NUL then StCaret else StBackslash, num, equalsEnd);
  }

  lemma Unfold(s: string, p: nat, st: FunkyState, num: nat, equalsEnd: bool)
    requires p <= |s|
    ensures Decode(s, p, st, num, equalsEnd)
            == match Step(CharAt(s, p), st, num, equalsEnd)
               case Stop(ok, n) => Decoded(ok, "", p + n)
               case Go(next, m, n, put) =>
                 var d := Decode(s, p + n, next, m, equalsEnd);
                 d.(text := put + d.text)
  {
  }

  /** Decoding undoes escaping: any bytes at all, NUL included, can be the value of an
      indicator or an extension. */
  lemma {:induction false} EscapeRoundTrip(before: string, t: string, after: string, num: nat, equalsEnd: bool)
    requires after == "" || after[0] == ':' || (equalsEnd && after[0] == '=') || after[0] == NUL
    ensures Decode(before + Escape(t) + after, |before|, StGnd, num, equalsEnd) == Decoded(true, t, |before| + |Escape(t)|)
    decreases |t|
  {
    hide Decode, Step;
    var s := before + Escape(t) + after;
    if t == "" {
      assert CharAt(s, |before|) == if after == "" then NUL else after[0];
      StopsHere(s, |before|, num, equalsEnd);
    } else {
      var e := EscapeByte(t[0]);
      assert s == (before + e) + Escape(t[1..]) + after;
      assert s[|before|..|before| + |e|] == e;
      EscapedByte(t[0], s, |before|, num, equalsEnd);
      EscapeRoundTrip(before + e, t[1..], after, num, equalsEnd);
      assert t == [t[0]] + t[1..];
    }
  }

  lemma StopsHere(s: string, p: nat, num: nat, equalsEnd: bool)
    requires p <= |s|
    requires var c := CharAt(s, p); c == ':' || c == NUL || (c == '=' && equalsEnd)
    ensures Decode(s, p, StGnd, num, equalsEnd) == Decoded(true, "", p)
  {
  }

  // ----- the definitions -----

  const INDICATOR_NAMES: seq<string> := ["fi", "ex", "di", "bd", "cd", "pi", "so", "ln", "lc", "rc", "ec", "no", "mi", "or", "do"]

  datatype Def = ExtDef(ext: string, value: string) | IndDef(k: nat, value: string)

  /** Which indicator a label names, or -1. */
  function IndicatorFrom(name: string, k: nat): (r: int)
    requires k <= |INDICATOR_NAMES|
    ensures -1 <= r < |INDICATOR_NAMES| && (r >= 0 ==> INDICATOR_NAMES[r] == name)
    decreases |INDICATOR_NAMES| - k
  {
    if k == |INDICATOR_NAMES| then -1 else if INDICATOR_NAMES[k] == name then k else IndicatorFrom(name, k + 1)
  }

  function Before(d: Def, rest: Option<seq<Def>>): Option<seq<Def>> {
    if rest.None? then None else Some([d] + rest.value)
  }

  /** What a string defines from a place on; nothing if it cannot be parsed. */
  function Defs(s: string, p: nat): Option<seq<Def>>
    requires p <= |s| && NUL !in s
    decreases |s| - p
  {
    var c := CharAt(s, p);
    if p == |s| then Some([])
    else if c == ':' then Defs(s, p + 1)
    else if c == '*' then
      DecodeBounds(s, p + 1, StGnd, 0, true);
      var ext := Decode(s, p + 1, StGnd, 0, true);
      if !ext.ok || CharAt(s, ext.at) != '=' then None else DefsValue(s, p, ext.at + 1, e => ExtDef(ext.text, e))
    else if p + 1 >= |s| || CharAt(s, p + 2) != '=' then None
    else
      var k := IndicatorFrom(s[p..p + 2], 0);
      if k < 0 then None else DefsValue(s, p, p + 3, e => IndDef(k, e))
  }

  /** The value from `at` on completes a definition that began at `p`. */
  function DefsValue(s: string, p: nat, at: nat, define: string -> Def): Option<seq<Def>>
    requires p < at <= |s| && NUL !in s
    decreases |s| - p, 0
  {
    DecodeBounds(s, at, StGnd, 0, false);
    var d := Decode(s, at, StGnd, 0, false);
    if d.ok then Before(define(d.text), Defs(s, d.at)) else None
  }

  /** A definition written out. */
  function DefText(d: Def): string
    requires Known(d)
  {
    match d
    case ExtDef(ext, value) => "*" + Escape(ext) + "=" + Escape(value) + ":"
    case IndDef(k, value) => INDICATOR_NAMES[k] + "=" + Escape(value) + ":"
  }

  function DefsText(ds: seq<Def>): string
    requires forall d :: d in ds ==> Known(d)
  {
    if ds == [] then "" else DefText(ds[0]) + DefsText(ds[1..])
  }

  lemma {:induction false} EscapePlain(t: string)
    ensures NUL !in Escape(t)
  {
    if t != "" {
      EscapePlain(t[1..]);
    }
  }

  lemma NamesPlain(k: nat)
    requires k < |INDICATOR_NAMES|
    ensures var n := INDICATOR_NAMES[k]; |n| == 2 && NUL !in n && n[0] != ':' && n[0] != '*'
    ensures forall j: nat :: j < |INDICATOR_NAMES| && j != k ==> INDICATOR_NAMES[j] != INDICATOR_NAMES[k]
  {
    forall j: nat | j < |INDICATOR_NAMES| && j != k ensures INDICATOR_NAMES[j] != INDICATOR_NAMES[k] {
      assert INDICATOR_NAMES[j][0] != INDICATOR_NAMES[k][0] || INDICATOR_NAMES[j][1] != INDICATOR_NAMES[k][1];
    }
  }

  lemma {:induction false} IndicatorIs(k: nat, from: nat)
    requires from <= k < |INDICATOR_NAMES|
    ensures IndicatorFrom(INDICATOR_NAMES[k], from) == k
    decreases k - from
  {
    NamesPlain(k);
    if from < k {
      IndicatorIs(k, from + 1);
    }
  }

  predicate Known(d: Def) {
    d.IndDef? ==> d.k < |INDICATOR_NAMES|
  }

  lemma {:induction false} DefsTextPlain(ds: seq<Def>)
    requires forall d :: d in ds ==> Known(d)
    ensures NUL !in DefsText(ds)
  {
    if ds != [] {
      var d := ds[0];
      assert Known(d);
      DefsTextPlain(ds[1..]);
      EscapePlain(d.value);
      if d.ExtDef? {
        EscapePlain(d.ext);
      } else {
        NamesPlain(d.k);
      }
    }
  }

  lemma Middle(a: string, b: string, c: string)
    ensures (a + b + c)[|a|..|a| + |b|] == b && forall i :: 0 <= i < |b| ==> (a + b + c)[|a| + i] == b[i]
  {
  }

  /** An escaped string within another. */
  lemma FieldRead(s: string, p: nat, t: string, num: nat, equalsEnd: bool)
    requires p + |Escape(t)| < |s| && s[p..p + |Escape(t)|] == Escape(t)
    requires s[p + |Escape(t)|] == ':' || (equalsEnd && s[p + |Escape(t)|] == '=')
    ensures Decode(s, p, StGnd, num, equalsEnd) == Decoded(true, t, p + |Escape(t)|)
  {
    hide Decode, Escape;
    var n := p + |Escape(t)|;
    assert s == s[..p] + Escape(t) + s[n..];
    EscapeRoundTrip(s[..p], t, s[n..], num, equalsEnd);
  }

  lemma ExtShape(e: string, v: string)
    ensures var d := "*" + e + "=" + v + ":"; var j := |e| + 2;
            d[0] == '*' && d[1..j - 1] == e && d[j - 1] == '=' && d[j..j + |v|] == v && d[j + |v|] == ':'
  {
    var d, j := "*" + e + "=" + v + ":", |e| + 2;
    assert d == "*" + e + ("=" + v + ":");
    assert d == ("*" + e + "=") + v + ":";
  }

  lemma ExtRead(s: string, p: nat, ext: string, value: string)
    requires NUL !in s
    requires var d := DefText(ExtDef(ext, value)); p + |d| <= |s| && s[p..p + |d|] == d
    ensures var n := p + |DefText(ExtDef(ext, value))| - 1;
            Defs(s, p) == Before(ExtDef(ext, value), Defs(s, n)) && s[n] == ':'
  {
    hide Decode, Defs, Escape;
    var e, v := Escape(ext), Escape(value);
    ExtShape(e, v);
    var d, i := DefText(ExtDef(ext, value)), p + 1;
    var j := i + |e| + 1;
    Within(s, p, d);
    assert s[i..i + |e|] == d[1..1 + |e|] && s[j..j + |v|] == d[|e| + 2..|e| + 2 + |v|];
    FieldRead(s, i, ext, 0, true);
    FieldRead(s, j, value, 0, false);
    DefsStar(s, p);
  }

  lemma Within(s: string, p: nat, d: string)
    requires p + |d| <= |s| && s[p..p + |d|] == d
    ensures forall i :: 0 <= i < |d| ==> s[p + i] == d[i]
    ensures forall i, j :: 0 <= i <= j <= |d| ==> s[p + i..p + j] == d[i..j]
  {
    var t := s[p..p + |d|];
    assert forall i :: 0 <= i < |d| ==> s[p + i] == t[i];
  }

  lemma IndShape(name: string, v: string)
    requires |name| == 2
    ensures var d := name + "=" + v + ":";
            d[0] == name[0] && d[0..2] == name && d[2] == '=' && d[3..3 + |v|] == v && d[3 + |v|] == ':'
  {
    assert name + "=" + v + ":" == (name + "=") + v + ":";
  }

  lemma IndRead(s: string, p: nat, k: nat, value: string)
    requires k < |INDICATOR_NAMES| && NUL !in s
    requires var d := DefText(IndDef(k, value)); p + |d| <= |s| && s[p..p + |d|] == d
    ensures var n := p + |DefText(IndDef(k, value))| - 1;
            Defs(s, p) == Before(IndDef(k, value), Defs(s, n)) && s[n] == ':'
  {
    hide Decode, Defs, Escape, IndicatorFrom;
    var name, v := INDICATOR_NAMES[k], Escape(value);
    NamesPlain(k);
    IndicatorIs(k, 0);
    IndShape(name, v);
    var d := DefText(IndDef(k, value));
    Within(s, p, d);
    assert s[p + 0..p + 2] == d[0..2] && s[p + 3..p + (3 + |v|)] == d[3..3 + |v|] && s[p + 0] == d[0];
    FieldRead(s, p + 3, value, 0, false);
    DefsLabel(s, p);
  }

  /** One definition, wherever it stands. */
  lemma DefRead(s: string, p: nat, d: Def)
    requires Known(d) && NUL !in s && p + |DefText(d)| <= |s| && s[p..p + |DefText(d)|] == DefText(d)
    ensures Defs(s, p) == Before(d, Defs(s, p + |DefText(d)|))
  {
    hide Defs;
    if d.ExtDef? {
      ExtRead(s, p, d.ext, d.value);
    } else {
      IndRead(s, p, d.k, d.value);
    }
    DefsColon(s, p + |DefText(d)| - 1);
  }

  lemma DefsColon(s: string, p: nat)
    requires p < |s| && NUL !in s && s[p] == ':'
    ensures Defs(s, p) == Defs(s, p + 1)
  {
  }

  /** Any definitions at all, written out and parsed, come back. */
  lemma {:induction false} DefsRoundTrip(before: string, ds: seq<Def>)
    requires NUL !in before && forall d :: d in ds ==> Known(d)
    ensures NUL !in before + DefsText(ds) && Defs(before + DefsText(ds), |before|) == Some(ds)
    decreases |ds|
  {
    hide DefText, Defs;
    DefsTextPlain(ds);
    var s := before + DefsText(ds);
    if ds == [] {
      assert s == before;
      DefsEnd(s);
    } else {
      var d, rest := ds[0], ds[1..];
      assert Known(d);
      assert s == before + DefText(d) + DefsText(rest);
      Middle(before, DefText(d), DefsText(rest));
      DefRead(s, |before|, d);
      assert s == (before + DefText(d)) + DefsText(rest);
      DefsRoundTrip(before + DefText(d), rest);
      assert ds == [d] + rest;
    }
  }

  lemma DefsEnd(s: string)
    requires NUL !in s
    ensures Defs(s, |s|) == Some([])
  {
  }

  // ----- the parser -----

  /** A string in the buffer. */
  datatype Span = Span(at: nat, len: nat)

  ghost predicate Reads(buf: seq<char>, s: Span, text: string, end: nat) {
    s.at + s.len <= end <= |buf| && buf[s.at..s.at + s.len] == text
  }

  function ExtsOf(ds: seq<Def>): seq<(string, string)> {
    if ds == [] then []
    else
      var d, rest := ds[|ds| - 1], ExtsOf(ds[..|ds| - 1]);
      if d.ExtDef? then [(d.ext, d.value)] + rest else rest
  }

  /** The last value given to an indicator. */
  function ValueOf(ds: seq<Def>, k: nat): Option<string> {
    if ds == [] then None
    else
      var d := ds[|ds| - 1];
      if d.IndDef? && d.k == k then Some(d.value) else ValueOf(ds[..|ds| - 1], k)
  }

  /** One string after another, up to `end`. */
  predicate InOrder(spans: seq<Span>, end: nat) {
    && (forall i, j :: 0 <= i < j < |spans| ==> spans[i].at + spans[i].len <= spans[j].at)
    && forall i :: 0 <= i < |spans| ==> spans[i].at + spans[i].len <= end
  }

  class Colors {
    const buf: array<char>
    /** The file extensions, the latest first. */
    var exts: seq<(Span, Span)>
    /** The indicators, where they have been given a value. */
    var indicators: seq<Option<Span>>
    /** Every string put into the buffer, in order. */
    ghost var spans: seq<Span>

    constructor (size: nat)
      ensures fresh(buf) && buf.Length == size && exts == [] && spans == []
      ensures indicators == seq(|INDICATOR_NAMES|, _ => None)
    {
      buf := new char[size];
      exts, indicators, spans := [], seq(|INDICATOR_NAMES|, _ => None), [];
    }

    /** The definitions so far lie in the buffer before `end`. */
    ghost predicate Holds(ds: seq<Def>, end: nat)
      reads this, buf
    {
      && end <= buf.Length && |indicators| == |INDICATOR_NAMES| && |exts| == |ExtsOf(ds)| && InOrder(spans, end)
      && (forall i :: 0 <= i < |exts| ==>
            && Reads(buf[..], exts[i].0, ExtsOf(ds)[i].0, end) && Reads(buf[..], exts[i].1, ExtsOf(ds)[i].1, end)
            && exts[i].0 in spans && exts[i].1 in spans)
      && forall k :: 0 <= k < |indicators| ==>
           && indicators[k].None? == ValueOf(ds, k).None?
           && (indicators[k].Some? ==> Reads(buf[..], indicators[k].value, ValueOf(ds, k).value, end) && indicators[k].value in spans)
    }

    /** Decode one string into the buffer, after those that are there. */
    method TakeString(env: string, from: nat, q: nat, equalsEnd: bool, ghost ds: seq<Def>)
      returns (ok: bool, p: nat, s: Span)
      requires Holds(ds, q) && q <= from <= |env| <= buf.Length && NUL !in env
      modifies buf, this`spans
      ensures var d := Decode(env, from, StGnd, 0, equalsEnd);
              ok == d.ok && p == d.at && s.at == q && s.len == |d.text| && q + s.len <= buf.Length
              && (ok ==> from <= p <= |env| && q + s.len <= p && Reads(buf[..], s, d.text, q + s.len))
      ensures buf[..q] == old(buf[..q]) && spans == old(spans) + [s] && Holds(ds, q + s.len)
    {
      hide Decode;
      var end, count;
      ok, p, end, count := GetFunkyString(env, from, buf, q, equalsEnd);
      s := Span(q, count);
      DecodeBounds(env, from, StGnd, 0, equalsEnd);
      spans := spans + [s];
      StillHolds(ds, q, s);
    }

    twostate lemma StillHolds(new ds: seq<Def>, new q: nat, new s: Span)
      requires q <= buf.Length && buf[..q] == old(buf[..q]) && exts == old(exts) && indicators == old(indicators)
      requires spans == old(spans) + [s] && s.at == q && q + s.len <= buf.Length
      ensures old(Holds(ds, q)) ==> Holds(ds, q + s.len)
    {
      hide ExtsOf, ValueOf, Reads;
      assert buf[..][..q] == buf[..q] && old(buf[..])[..q] == old(buf[..q]);
      forall x: Span, text | Reads(old(buf[..]), x, text, q) ensures Reads(buf[..], x, text, q + s.len) {
        ReadsOn(old(buf[..]), buf[..], x, text, q, q + s.len);
      }
    }

    method AddExt(e: Span, v: Span, ghost ds: seq<Def>, ghost ext: string, ghost value: string, ghost q: nat)
      requires Holds(ds, q) && e in spans && v in spans && Reads(buf[..], e, ext, q) && Reads(buf[..], v, value, q)
      modifies this`exts
      ensures Holds(ds + [ExtDef(ext, value)], q)
    {
      hide Reads;
      exts := [(e, v)] + exts;
      assert (ds + [ExtDef(ext, value)])[..|ds|] == ds;
    }

    method AddIndicator(k: nat, v: Span, ghost ds: seq<Def>, ghost value: string, ghost q: nat)
      requires Holds(ds, q) && k < |INDICATOR_NAMES| && v in spans && Reads(buf[..], v, value, q)
      modifies this`indicators
      ensures Holds(ds + [IndDef(k, value)], q)
    {
      hide Reads;
      indicators := indicators[k := Some(v)];
      assert (ds + [IndDef(k, value)])[..|ds|] == ds;
    }

    /** Parse the variable's value: a loop over five states, the last for errors. */
    method Parse(env: string) returns (ok: bool)
      requires NUL !in env && buf.Length == |env| + 1
      requires exts == [] && spans == [] && indicators == seq(|INDICATOR_NAMES|, _ => None)
      modifies this, buf
      ensures ok <==> Defs(env, 0).Some?
      ensures ok ==> Holds(Defs(env, 0).value, |env|)
    {
      hide Decode, Defs, Reads, IndicatorFrom, Colors.Holds;
      var p: nat, q: nat, state := 0, 0, 1;
      var ext, c := Span(0, 0), NUL;
      ghost var done: seq<Def>, from: nat, extText := [], 0, "";
      ghost var whole := Defs(env, 0);
      PrefixNothing(whole);
      NothingHeld();
      while state > 0
        invariant -1 <= state <= 4 && Holds(done, q) && buf.Length == |env| + 1
        invariant state == 0 ==> whole == Some(done) && q <= |env|
        invariant state == -1 ==> whole == None
        invariant state > 0 ==> from <= p <= |env| && q <= p && whole == Prefix(done, Defs(env, from))
        invariant state == 1 ==> p == from
        invariant state == 2 ==> p == from + 1 && IsLabel(c) && c == env[from]
        invariant state == 3 ==> p == from + 2 && IsLabel(env[from])
        invariant state == 4 ==> from < p && env[from] == '*' && Decode(env, from + 1, StGnd, 0, true) == Decoded(true, extText, p)
        invariant state == 4 ==> ext in spans && Reads(buf[..], ext, extText, q)
        decreases if state > 0 then 1 else 0, |env| - p
      {
        match state {
          case 1 =>
            c := CharAt(env, p);
            EndAt(env, p);
            if c == ':' {
              DefsColon(env, p);
              p := p + 1;
              from := p;
            } else if c == '*' {
              DefsStar(env, from);
              var good;
              extText := Decode(env, p + 1, StGnd, 0, true).text;
              good, p, ext := TakeString(env, p + 1, q, true, done);
              q := q + ext.len;
              state := if good then 4 else -1;
            } else if c == NUL {
              DefsEnd(env);
              assert done + [] == done;
              state := 0;
            } else {
              p, state := p + 1, 2;
            }
          case 2 =>
            if CharAt(env, p) != NUL {
              p, state := p + 1, 3;
            } else {
              EndAt(env, p);
              DefsLabel(env, from);
              state := -1;
            }
          case 3 =>
            DefsLabel(env, from);
            state, c := -1, CharAt(env, p);
            p := p + 1;
            if c == '=' {
              var k := FindIndicator(env[p - 3..p - 1]);
              if k >= 0 {
                ghost var value := Decode(env, p, StGnd, 0, false);
                var good, v;
                good, p, v := TakeString(env, p, q, false, done);
                q := q + v.len;
                if good {
                  AddIndicator(k, v, done, value.text, q);
                  PrefixNext(done, IndDef(k, value.text), Defs(env, p));
                  done, from, state := done + [IndDef(k, value.text)], p, 1;
                }
              }
            }
          case 4 =>
            DefsStar(env, from);
            state, c := -1, CharAt(env, p);
            p := p + 1;
            if c == '=' {
              ghost var value := Decode(env, p, StGnd, 0, false);
              ghost var was := buf[..];
              var good, v;
              good, p, v := TakeString(env, p, q, false, done);
              ReadsOn(was, buf[..], ext, extText, q, q + v.len);
              q := q + v.len;
              if good {
                AddExt(ext, v, done, extText, value.text, q);
                PrefixNext(done, ExtDef(extText, value.text), Defs(env, p));
                done, from, state := done + [ExtDef(extText, value.text)], p, 1;
              }
            }
        }
      }
      ok := state == 0;
      if ok {
        HoldsOn(done, q, |env|);
      }
    }

    lemma NothingHeld()
      requires exts == [] && spans == [] && indicators == seq(|INDICATOR_NAMES|, _ => None)
      ensures Holds([], 0)
    {
    }

    lemma HoldsOn(ds: seq<Def>, q: nat, end: nat)
      requires Holds(ds, q) && q <= end <= buf.Length
      ensures Holds(ds, end)
    {
    }
  }

  lemma IndicatorStep(name: string, k: nat)
    requires k <= |INDICATOR_NAMES|
    ensures IndicatorFrom(name, k)
            == if k == |INDICATOR_NAMES| then -1 else if INDICATOR_NAMES[k] == name then k else IndicatorFrom(name, k + 1)
  {
  }

  method FindIndicator(name: string) returns (k: int)
    ensures k == IndicatorFrom(name, 0)
  {
    hide IndicatorFrom;
    k := 0;
    while k < |INDICATOR_NAMES|
      invariant 0 <= k <= |INDICATOR_NAMES| && IndicatorFrom(name, 0) == IndicatorFrom(name, k)
    {
      IndicatorStep(name, k);
      if name == INDICATOR_NAMES[k] {
        return;
      }
      k := k + 1;
    }
    IndicatorStep(name, k);
    k := -1;
  }

  /** The first character of a label. */
  predicate IsLabel(c: char) {
    c != ':' && c != '*' && c != NUL
  }

  lemma ReadsOn(was: seq<char>, buf: seq<char>, s: Span, text: string, q: nat, end: nat)
    requires Reads(was, s, text, q) && q <= end <= |buf| && |buf| == |was| && buf[..q] == was[..q]
    ensures Reads(buf, s, text, end)
  {
    assert buf[s.at..s.at + s.len] == buf[..q][s.at..s.at + s.len] && was[s.at..s.at + s.len] == was[..q][s.at..s.at + s.len];
  }

  lemma DefsStar(s: string, p: nat)
    requires p < |s| && NUL !in s && s[p] == '*'
    ensures var ext := Decode(s, p + 1, StGnd, 0, true);
            && (!ext.ok || CharAt(s, ext.at) != '=' ==> Defs(s, p) == None)
            && (ext.ok && CharAt(s, ext.at) == '=' ==> ext.at < |s|)
            && (ext.ok && CharAt(s, ext.at) == '=' ==>
                  (var d := Decode(s, ext.at + 1, StGnd, 0, false);
                   && (d.ok ==> d.at <= |s|)
                   && Defs(s, p) == if d.ok then Before(ExtDef(ext.text, d.text), Defs(s, d.at)) else None))
  {
    hide Decode;
    DecodeBounds(s, p + 1, StGnd, 0, true);
    var ext := Decode(s, p + 1, StGnd, 0, true);
    if ext.ok && CharAt(s, ext.at) == '=' {
      DecodeBounds(s, ext.at + 1, StGnd, 0, false);
    }
  }

  lemma DefsLabel(s: string, p: nat)
    requires p < |s| && NUL !in s && IsLabel(s[p])
    ensures p + 1 >= |s| || CharAt(s, p + 2) != '=' ==> Defs(s, p) == None
    ensures p + 1 < |s| && CharAt(s, p + 2) == '=' ==> p + 3 <= |s|
    ensures p + 1 < |s| && CharAt(s, p + 2) == '=' ==>
              (var k, d := IndicatorFrom(s[p..p + 2], 0), Decode(s, p + 3, StGnd, 0, false);
               && (d.ok ==> d.at <= |s|)
               && Defs(s, p) == if k >= 0 && d.ok then Before(IndDef(k, d.text), Defs(s, d.at)) else None)
  {
    hide Decode, IndicatorFrom;
    if p + 1 < |s| && CharAt(s, p + 2) == '=' {
      DecodeBounds(s, p + 3, StGnd, 0, false);
    }
  }

  lemma PrefixNext(done: seq<Def>, d: Def, rest: Option<seq<Def>>)
    ensures Prefix(done, Before(d, rest)) == Prefix(done + [d], rest)
  {
    if rest.Some? {
      assert done + ([d] + rest.value) == (done + [d]) + rest.value;
    }
  }

  function Prefix(done: seq<Def>, rest: Option<seq<Def>>): Option<seq<Def>> {
    if rest.None? then None else Some(done + rest.value)
  }

  lemma PrefixNothing(rest: Option<seq<Def>>)
    ensures Prefix([], rest) == rest
  {
    if rest.Some? {
      assert [] + rest.value == rest.value;
    }
  }
}
