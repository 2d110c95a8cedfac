/** All the ways LS_COLORS has of writing a byte: as it stands, behind a backslash, by a
    letter, as an octal or hexadecimal number, and as a control character behind a caret. */
module LsEscapes {
  import opened Bytes
  import opened LsColors

  const OCTAL_DIGITS := "01234567"
  const LOWER_DIGITS := "0123456789abcdef"
  const UPPER_DIGITS := "0123456789ABCDEF"

  /** The letters with a meaning, and what they mean. */
  const LETTERS := "abefnrtv?_"
  const LETTER_BYTES: seq<char> := [BEL, BS, ESC, '\U{0C}', LF, CR, '\t', VT, DEL, ' ']

  datatype Piece =
    | Itself(c: char)
    | Behind(c: char)            // behind a backslash
    | Letter(k: nat)
    | Octal(n: nat)
    | Hex(n: nat, upper: bool)
    | Control(c: char)           // behind a caret
    | Rubout                     // the caret and question mark

  /** A number in a base, most significant digit first. */
  function InBase(n: nat, digits: string): string
    requires |digits| >= 2
  {
    if n < |digits| then [digits[n]] else InBase(n / |digits|, digits) + [digits[n % |digits|]]
  }

  /** Pieces a byte can be written as. */
  predicate Proper(p: Piece) {
    match p
    case Itself(c) => c != NUL && c != ':' && c != '=' && c != '\\' && c != '^'
    case Behind(c) => c != NUL && c < '\U{100}' && !IsOctal(c) && c != 'x' && c != 'X' && c !in LETTERS
    case Letter(k) => k < |LETTERS|
    case Octal(_) => true
    case Hex(_, _) => true
    case Control(c) => '@' <= c <= '~'
    case Rubout => true
  }

  function Spelling(p: Piece): string
    requires Proper(p)
  {
    match p
    case Itself(c) => [c]
    case Behind(c) => ['\\', c]
    case Letter(k) => ['\\', LETTERS[k]]
    case Octal(n) => "\\" + InBase(n, OCTAL_DIGITS)
    case Hex(n, upper) => "\\x" + InBase(n, if upper then UPPER_DIGITS else LOWER_DIGITS)
    case Control(c) => ['^', c]
    case Rubout => "^?"
  }

  /** What a piece means.  Numbers keep their low eight bits, and the question mark of a
      rubout is read once more. */
  function Meaning(p: Piece): string
    requires Proper(p)
  {
    match p
    case Itself(c) => [c]
    case Behind(c) => [c]
    case Letter(k) => [LETTER_BYTES[k]]
    case Octal(n) => [(n % 256) as char]
    case Hex(n, _) => [(n % 256) as char]
    case Control(c) => [if c < '`' then c - '@' else c - '`']
    case Rubout => [DEL, '?']
  }

  /** A number must not run on into what follows it. */
  predicate Ends(p: Piece, rest: string) {
    && (p.Octal? && rest != "" ==> !IsOctal(rest[0]))
    && (p.Hex? && rest != "" ==> HexValue(rest[0]) < 0)
  }

  function Spelled(ps: seq<Piece>): string
    requires forall p :: p in ps ==> Proper(p)
  {
    if ps == [] then "" else Spelling(ps[0]) + Spelled(ps[1..])
  }

  function Meant(ps: seq<Piece>): string
    requires forall p :: p in ps ==> Proper(p)
  {
    if ps == [] then "" else Meaning(ps[0]) + Meant(ps[1..])
  }

  predicate Apart(ps: seq<Piece>, after: string)
    requires forall p :: p in ps ==> Proper(p)
  {
    ps == [] || (Ends(ps[0], Spelled(ps[1..]) + after) && Apart(ps[1..], after))
  }

  // ----- numbers -----

  /** The value of a digit in octal and hexadecimal numbers. */
  function DigitValue(st: FunkyState, c: char): int {
    if st.StOctal? then (if IsOctal(c) then Digit(c) else -1) else HexValue(c)
  }

  function BaseOf(st: FunkyState): nat {
    if st.StOctal? then 8 else 16
  }

  predicate AreDigits(st: FunkyState, ds: string) {
    forall c :: c in ds ==> DigitValue(st, c) >= 0
  }

  function Accumulated(st: FunkyState, ds: string, num: nat): nat
    requires AreDigits(st, ds)
  {
    if ds == "" then num
    else
      assert ds[0] in ds;
      Accumulated(st, ds[1..], num * BaseOf(st) + DigitValue(st, ds[0]))
  }

  lemma {:induction false} AccumulatedLast(st: FunkyState, ds: string, d: char, num: nat)
    requires AreDigits(st, ds) && DigitValue(st, d) >= 0
    ensures AreDigits(st, ds + [d])
    ensures Accumulated(st, ds + [d], num) == Accumulated(st, ds, num) * BaseOf(st) + DigitValue(st, d)
    decreases |ds|
  {
    if ds == "" {
      assert ds + [d] == [d] && [d][1..] == "";
    } else {
      assert ds[0] in ds && (ds + [d])[1..] == ds[1..] + [d];
      AccumulatedLast(st, ds[1..], d, num * BaseOf(st) + DigitValue(st, ds[0]));
    }
  }

  predicate DigitsOf(st: FunkyState, digits: string) {
    |digits| == BaseOf(st) && forall i :: 0 <= i < |digits| ==> DigitValue(st, digits[i]) == i
  }

  lemma {:induction false} NumberAccumulated(st: FunkyState, n: nat, digits: string)
    requires DigitsOf(st, digits)
    ensures AreDigits(st, InBase(n, digits)) && Accumulated(st, InBase(n, digits), 0) == n && InBase(n, digits) != ""
    decreases n
  {
    hide DigitValue;
    if n < |digits| {
      AccumulatedLast(st, "", digits[n], 0);
      assert "" + [digits[n]] == InBase(n, digits);
    } else {
      NumberAccumulated(st, n / |digits|, digits);
      AccumulatedLast(st, InBase(n / |digits|, digits), digits[n % |digits|], 0);
    }
  }

  lemma DigitTables()
    ensures DigitsOf(StOctal, OCTAL_DIGITS) && DigitsOf(StHex, LOWER_DIGITS) && DigitsOf(StHex, UPPER_DIGITS)
  {
  }

  /** Digits are taken up one after another, and the byte is put out at the first character
      that is none. */
  lemma {:induction false} DigitsDecode(s: string, p: nat, st: FunkyState, ds: string, num: nat, equalsEnd: bool)
    requires (st.StOctal? || st.StHex?) && AreDigits(st, ds)
    requires p + |ds| <= |s| && s[p..p + |ds|] == ds && DigitValue(st, CharAt(s, p + |ds|)) < 0
    ensures var n := Accumulated(st, ds, num);
            Decode(s, p, st, num, equalsEnd)
            == var d := Decode(s, p + |ds|, StGnd, n, equalsEnd); d.(text := [Byte(n)] + d.text)
    decreases |ds|
  {
    hide Decode, Byte;
    Unfold(s, p, st, num, equalsEnd);
    if ds != "" {
      assert ds[0] in ds && CharAt(s, p) == s[p..p + |ds|][0] == ds[0];
      assert s[p + 1..p + 1 + |ds[1..]|] == s[p..p + |ds|][1..] == ds[1..];
      DigitsDecode(s, p + 1, st, ds[1..], num * BaseOf(st) + DigitValue(st, ds[0]), equalsEnd);
      OneOn(Decode(s, p + 1, st, num * BaseOf(st) + DigitValue(st, ds[0]), equalsEnd));
    }
  }

  lemma OneOn(d: Decoded)
    ensures d.(text := "" + d.text) == d
  {
    assert "" + d.text == d.text;
  }

  // ----- every spelling is decoded -----

  /** The piece is decoded, and decoding goes on behind it. */
  ghost predicate Through(s: string, p: nat, q: nat, num: nat, equalsEnd: bool, out: string)
    requires p <= |s| && q <= |s|
  {
    exists n: nat :: Decode(s, p, StGnd, num, equalsEnd) == Prefixed(out, Decode(s, q, StGnd, n, equalsEnd))
  }

  function Prefixed(out: string, d: Decoded): Decoded {
    d.(text := out + d.text)
  }

  lemma PrefixedTwice(a: string, b: string, d: Decoded)
    ensures Prefixed(a, Prefixed(b, d)) == Prefixed(a + b, d)
  {
    assert a + (b + d.text) == (a + b) + d.text;
  }

  lemma OctalThrough(s: string, p: nat, n: nat, num: nat, equalsEnd: bool)
    requires var e := InBase(n, OCTAL_DIGITS);
             && p + 1 + |e| <= |s| && s[p] == '\\' && s[p + 1..p + 1 + |e|] == e && !IsOctal(CharAt(s, p + 1 + |e|))
    ensures Through(s, p, p + 1 + |InBase(n, OCTAL_DIGITS)|, num, equalsEnd, [Byte(n)])
  {
    hide Decode, Byte, InBase;
    DigitTables();
    NumberAccumulated(StOctal, n, OCTAL_DIGITS);
    var e := InBase(n, OCTAL_DIGITS);
    assert e[0] in e && s[p + 1] == s[p + 1..p + 1 + |e|][0] == e[0];
    assert s[p + 2..p + 2 + |e[1..]|] == s[p + 1..p + 1 + |e|][1..] == e[1..];
    Unfold(s, p, StGnd, num, equalsEnd);
    Unfold(s, p + 1, StBackslash, num, equalsEnd);
    DigitsDecode(s, p + 2, StOctal, e[1..], Digit(e[0]), equalsEnd);
    OneOn(Decode(s, p + 1, StBackslash, num, equalsEnd));
    OneOn(Decode(s, p + 2, StOctal, Digit(e[0]), equalsEnd));
    assert Decode(s, p, StGnd, num, equalsEnd) == Prefixed([Byte(n)], Decode(s, p + 1 + |e|, StGnd, n, equalsEnd));
  }

  lemma HexThrough(s: string, p: nat, n: nat, digits: string, num: nat, equalsEnd: bool)
    requires digits == UPPER_DIGITS || digits == LOWER_DIGITS
    requires var e := InBase(n, digits);
             && p + 2 + |e| <= |s| && s[p] == '\\' && s[p + 1] == 'x' && s[p + 2..p + 2 + |e|] == e
             && HexValue(CharAt(s, p + 2 + |e|)) < 0
    ensures Through(s, p, p + 2 + |InBase(n, digits)|, num, equalsEnd, [Byte(n)])
  {
    hide Decode, Byte, InBase;
    DigitTables();
    NumberAccumulated(StHex, n, digits);
    var e := InBase(n, digits);
    Unfold(s, p, StGnd, num, equalsEnd);
    Unfold(s, p + 1, StBackslash, num, equalsEnd);
    DigitsDecode(s, p + 2, StHex, e, 0, equalsEnd);
    OneOn(Decode(s, p + 1, StBackslash, num, equalsEnd));
    OneOn(Decode(s, p + 2, StHex, 0, equalsEnd));
    assert Decode(s, p, StGnd, num, equalsEnd) == Prefixed([Byte(n)], Decode(s, p + 2 + |e|, StGnd, n, equalsEnd));
  }

  lemma LetterMeans(k: nat)
    requires k < |LETTERS|
    ensures var c := LETTERS[k]; Byte(Escaped(c)) == LETTER_BYTES[k] && !IsOctal(c) && c != 'x' && c != 'X' && c != NUL
  {
  }

  lemma ByteOf(c: char)
    requires c < '\U{100}'
    ensures Byte(c as nat) == c
  {
  }

  lemma NoLetter(c: char, k: nat)
    requires c !in LETTERS && k < |LETTERS|
    ensures c != LETTERS[k]
  {
  }

  lemma NoLetterMeans(c: char)
    requires Proper(Behind(c))
    ensures Byte(Escaped(c)) == c
  {
    hide Byte;
    ByteOf(c);
    NoLetter(c, 0);
    NoLetter(c, 1);
    NoLetter(c, 2);
    NoLetter(c, 3);
    NoLetter(c, 4);
    NoLetter(c, 5);
    NoLetter(c, 6);
    NoLetter(c, 7);
    NoLetter(c, 8);
    NoLetter(c, 9);
  }

  function Introduced(e: Piece): FunkyState {
    if e.Control? || e.Rubout? then StCaret else StBackslash
  }

  predicate TwoLong(e: Piece) {
    e.Behind? || e.Letter? || e.Control? || e.Rubout?
  }

  lemma TwoSteps(e: Piece, num: nat, equalsEnd: bool)
    requires Proper(e) && TwoLong(e)
    ensures Step(Spelling(e)[0], StGnd, num, equalsEnd) == Go(Introduced(e), num, 1, "")
    ensures Step(Spelling(e)[1], Introduced(e), num, equalsEnd)
            == if e.Rubout? then Go(StGnd, num, 0, [DEL]) else Go(StGnd, num, 1, Meaning(e))
  {
    hide Escaped, Byte;
    match e
    case Behind(c) => NoLetterMeans(c);
    case Letter(k) => LetterMeans(k);
    case Control(c) => ControlMeans(c);
    case Rubout =>
  }

  lemma ControlMeans(c: char)
    requires '@' <= c <= '~'
    ensures [Byte(c as nat % 32)] == Meaning(Control(c))
  {
  }

  lemma TwoThrough(s: string, p: nat, e: Piece, num: nat, equalsEnd: bool)
    requires Proper(e) && TwoLong(e)
    requires p + 2 <= |s| && s[p] == Spelling(e)[0] && s[p + 1] == Spelling(e)[1]
    ensures Through(s, p, p + 2, num, equalsEnd, Meaning(e))
  {
    hide Decode, Step;
    TwoSteps(e, num, equalsEnd);
    Unfold(s, p, StGnd, num, equalsEnd);
    Unfold(s, p + 1, Introduced(e), num, equalsEnd);
    OneOn(Decode(s, p + 1, Introduced(e), num, equalsEnd));
    if e.Rubout? {
      QuestionRead(s, p + 1, num, equalsEnd);
      PrefixedTwice([DEL], ['?'], Decode(s, p + 2, StGnd, num, equalsEnd));
    }
    assert Decode(s, p, StGnd, num, equalsEnd) == Prefixed(Meaning(e), Decode(s, p + 2, StGnd, num, equalsEnd));
  }

  lemma QuestionRead(s: string, p: nat, num: nat, equalsEnd: bool)
    requires p < |s| && s[p] == '?'
    ensures Decode(s, p, StGnd, num, equalsEnd) == Prefixed(['?'], Decode(s, p + 1, StGnd, num, equalsEnd))
  {
    hide Decode;
    Unfold(s, p, StGnd, num, equalsEnd);
  }

  lemma Inside(before: string, mark: string, digits: string, rest: string)
    ensures var s, p := before + (mark + digits) + rest, |before|;
            && s[p..p + |mark|] == mark && s[p + |mark|..p + |mark| + |digits|] == digits
            && CharAt(s, p + |mark| + |digits|) == CharAt(rest, 0)
  {
  }

  lemma OctalPiece(before: string, n: nat, rest: string, num: nat, equalsEnd: bool)
    requires !IsOctal(CharAt(rest, 0))
    ensures var e := "\\" + InBase(n, OCTAL_DIGITS);
            Through(before + e + rest, |before|, |before| + |e|, num, equalsEnd, [Byte(n)])
  {
    hide InBase, Through, Byte, CharAt;
    var ds := InBase(n, OCTAL_DIGITS);
    var s := before + ("\\" + ds) + rest;
    Inside(before, "\\", ds, rest);
    assert s[|before|] == s[|before|..|before| + 1][0];
    OctalThrough(s, |before|, n, num, equalsEnd);
  }

  lemma HexPiece(before: string, n: nat, digits: string, rest: string, num: nat, equalsEnd: bool)
    requires digits == UPPER_DIGITS || digits == LOWER_DIGITS
    requires HexValue(CharAt(rest, 0)) < 0
    ensures var e := "\\x" + InBase(n, digits);
            Through(before + e + rest, |before|, |before| + |e|, num, equalsEnd, [Byte(n)])
  {
    hide InBase, Through, Byte, CharAt, HexValue;
    var ds := InBase(n, digits);
    var s, p := before + ("\\x" + ds) + rest, |before|;
    Inside(before, "\\x", ds, rest);
    assert s[p] == s[p..p + 2][0] && s[p + 1] == s[p..p + 2][1];
    HexThrough(s, p, n, digits, num, equalsEnd);
  }

  lemma TwoPiece(before: string, e: Piece, rest: string, num: nat, equalsEnd: bool)
    requires Proper(e) && TwoLong(e)
    ensures |Spelling(e)| == 2 && Through(before + Spelling(e) + rest, |before|, |before| + 2, num, equalsEnd, Meaning(e))
  {
    hide Through, Proper, Meaning;
    TwoThrough(before + Spelling(e) + rest, |before|, e, num, equalsEnd);
  }

  lemma PieceThrough(before: string, e: Piece, rest: string, num: nat, equalsEnd: bool)
    requires Proper(e) && Ends(e, rest)
    ensures Through(before + Spelling(e) + rest, |before|, |before| + |Spelling(e)|, num, equalsEnd, Meaning(e))
  {
    hide Decode, InBase, Through, HexValue, Byte;
    NoDigit();
    match e
    case Octal(n) => OctalPiece(before, n, rest, num, equalsEnd); ByteIs(n);
    case Hex(n, upper) => HexPiece(before, n, if upper then UPPER_DIGITS else LOWER_DIGITS, rest, num, equalsEnd); ByteIs(n);
    case Itself(c) => ItselfThrough(before + Spelling(e) + rest, |before|, c, num, equalsEnd);
    case _ => TwoPiece(before, e, rest, num, equalsEnd);
  }

  lemma ByteIs(n: nat)
    ensures Byte(n) == (n % 256) as char
  {
  }

  lemma NoDigit()
    ensures HexValue(NUL) < 0
  {
  }

  lemma ItselfThrough(s: string, p: nat, c: char, num: nat, equalsEnd: bool)
    requires Proper(Itself(c)) && p < |s| && s[p] == c
    ensures Through(s, p, p + 1, num, equalsEnd, [c])
  {
    hide Decode;
    Unfold(s, p, StGnd, num, equalsEnd);
    assert Decode(s, p, StGnd, num, equalsEnd) == Prefixed([c], Decode(s, p + 1, StGnd, num, equalsEnd));
  }

  /** However a string is spelled, piece by piece, it decodes to what its pieces mean. */
  lemma {:induction false} SpelledDecodes(before: string, ps: seq<Piece>, after: string, num: nat, equalsEnd: bool)
    requires (forall p :: p in ps ==> Proper(p)) && Apart(ps, after)
    requires after == "" || after[0] == ':' || (equalsEnd && after[0] == '=') || after[0] == NUL
    ensures Decode(before + Spelled(ps) + after, |before|, StGnd, num, equalsEnd)
            == Decoded(true, Meant(ps), |before| + |Spelled(ps)|)
    decreases |ps|
  {
    hide Decode, Spelling, Meaning, Proper, Ends;
    var s := before + Spelled(ps) + after;
    if ps == [] {
      assert CharAt(s, |before|) == if after == "" then NUL else after[0];
      StopsHere(s, |before|, num, equalsEnd);
    } else {
      var e := Spelling(ps[0]);
      var rest := Spelled(ps[1..]) + after;
      assert s == before + e + rest == (before + e) + Spelled(ps[1..]) + after;
      PieceThrough(before, ps[0], rest, num, equalsEnd);
      var n: nat :| Decode(s, |before|, StGnd, num, equalsEnd)
                    == Prefixed(Meaning(ps[0]), Decode(s, |before| + |e|, StGnd, n, equalsEnd));
      SpelledDecodes(before + e, ps[1..], after, n, equalsEnd);
    }
  }

  // ----- one bad definition -----

  /** No definition begins here: an extension without its equals sign, or no label of two
      letters that names an indicator. */
  ghost predicate Malformed(bad: string) {
    && bad != "" && bad[0] != ':' && NUL !in bad
    && if bad[0] == '*' then exists ext, more :: bad == "*" + Escape(ext) + more && (more == "" || more[0] == ':')
       else |bad| < 3 || bad[2] != '=' || bad[..2] !in INDICATOR_NAMES
  }

  lemma NoEquals(before: string, ext: string, more: string)
    requires NUL !in before + ("*" + Escape(ext) + more) && (more == "" || more[0] == ':')
    ensures Defs(before + ("*" + Escape(ext) + more), |before|) == None
  {
    hide Decode, Escape, Defs;
    var s, p := before + ("*" + Escape(ext) + more), |before|;
    assert s == (before + "*") + Escape(ext) + more;
    EscapeRoundTrip(before + "*", ext, more, 0, true);
    assert s[p] == '*';
    DefsStar(s, p);
  }

  lemma NoLabel(before: string, bad: string)
    requires NUL !in before + bad && Malformed(bad) && bad[0] != '*'
    ensures Defs(before + bad, |before|) == None
  {
    hide Decode, Defs, IndicatorFrom, INDICATOR_NAMES, Escape;
    var s, p := before + bad, |before|;
    assert s[p] == bad[0];
    if |bad| >= 3 {
      assert CharAt(s, p + 2) == bad[2] && s[p..p + 2] == bad[..2];
    }
    DefsLabel(s, p);
  }

  lemma BadHere(before: string, bad: string)
    requires NUL !in before && Malformed(bad)
    ensures NUL !in before + bad && Defs(before + bad, |before|) == None
  {
    hide Defs, Escape;
    if bad[0] == '*' {
      var ext, more :| bad == "*" + Escape(ext) + more && (more == "" || more[0] == ':');
      NoEquals(before, ext, more);
    } else {
      NoLabel(before, bad);
    }
  }

  /** One malformed definition spoils them all, however many stand before it. */
  lemma {:induction false} BadSpoilsAll(before: string, ds: seq<Def>, bad: string)
    requires NUL !in before && (forall d :: d in ds ==> Known(d)) && Malformed(bad)
    ensures NUL !in before + (DefsText(ds) + bad) && Defs(before + (DefsText(ds) + bad), |before|) == None
    decreases |ds|
  {
    hide Defs, DefText, Malformed;
    DefsTextPlain(ds);
    var s := before + (DefsText(ds) + bad);
    if ds == [] {
      BadHere(before, bad);
      assert "" + bad == bad;
    } else {
      var d, rest := ds[0], DefsText(ds[1..]) + bad;
      assert DefsText(ds) == DefText(d) + DefsText(ds[1..]);
      assert s == before + DefText(d) + rest == (before + DefText(d)) + rest;
      BadHere(before, bad);
      Middle(before, DefText(d), rest);
      DefRead(s, |before|, d);
      BadSpoilsAll(before + DefText(d), ds[1..], bad);
    }
  }
}
