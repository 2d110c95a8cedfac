/** The mask splitter of vgexpand: it cuts a mask into words in place, trusting the
    sanitiser for balanced quotes. */
module Split {
  import opened Bytes
  import opened Sanitize

  datatype Mask = Mask(pattern: string, dirsOnly: bool)

  /** ASCII white space, which to GLib does not include the vertical tab. */
  predicate IsSpace(c: char) {
    c == ' ' || ('\t' <= c <= '\r' && c != VT)
  }

  /** Leading white space goes first. */
  function Chugged(m: string): (r: string)
    ensures |r| <= |m| && m[|m| - |r|..] == r && forall i :: 0 <= i < |m| - |r| ==> IsSpace(m[i])
    ensures r != "" ==> !IsSpace(r[0])
  {
    if m != "" && IsSpace(m[0]) then Chugged(m[1..]) else m
  }

  // ----- what splitting means -----

  datatype Mode = Plain | Escape | InSingle | InDouble

  /** Reading a mask one character at a time: the words finished and the one begun. */
  datatype Reading = Reading(mode: Mode, words: seq<string>, word: string)

  function ModeAfter(m: Mode, c: char): Mode {
    match m
    case Escape => Plain
    case InSingle => if c == '\'' then Plain else InSingle
    case InDouble => if c == '\"' then Plain else InDouble
    case Plain =>
      if c == '\\' then Escape else if c == '\'' then InSingle else if c == '\"' then InDouble else Plain
  }

  function Read(r: Reading, c: char): Reading {
    if r.mode == Plain && c == ' ' then
      if r.word == "" then r else Reading(Plain, r.words + [r.word], "")
    else Reading(ModeAfter(r.mode, c), r.words, r.word + [c])
  }

  function ReadAll(m: string): Reading {
    if m == "" then Reading(Plain, [], "") else Read(ReadAll(m[..|m| - 1]), m[|m| - 1])
  }

  /** The words between runs of bare spaces, provided the mask ends outside quotes. */
  function Words(m: string): Option<seq<string>> {
    var r := ReadAll(m);
    if r.mode != Plain then None else Some(if r.word == "" then r.words else r.words + [r.word])
  }

  /** Only a trailing slash moves into the flag. */
  function MaskOf(w: string): Mask {
    if w != "" && w[|w| - 1] == '/' then Mask(w[..|w| - 1], true) else Mask(w, false)
  }

  predicate Slashed(w: string) {
    w != "" && w[|w| - 1] == '/'
  }

  /** One mask for each word, in order: the word's text, with the one trailing slash taken off
      those that mean directories only. */
  ghost predicate SplitInto(mask: string, masks: seq<Mask>) {
    && Words(Chugged(mask)).Some? && |masks| == |Words(Chugged(mask)).value|
    && forall i :: 0 <= i < |masks| ==>
         var w := Words(Chugged(mask)).value[i];
         masks[i].pattern + (if masks[i].dirsOnly then "/" else "") == w && masks[i].dirsOnly == Slashed(w)
  }

  lemma ReadAppend(m: string, c: char)
    ensures ReadAll(m + [c]) == Read(ReadAll(m), c)
  {
    assert (m + [c])[..|m|] == m;
  }

  lemma ReadNext(m: string, i: nat)
    requires i < |m|
    ensures ReadAll(m[..i + 1]) == Read(ReadAll(m[..i]), m[i])
  {
    assert m[..i + 1] == m[..i] + [m[i]];
    ReadAppend(m[..i], m[i]);
  }

  // ----- the splitter -----

  /** The buffer from `from` on still holds the mask and its terminator. */
  ghost predicate Intact(buf: array<char>, m: string, from: int)
    reads buf
  {
    buf.Length == |m| + 1 && forall i :: 0 <= from <= i < buf.Length ==> buf[i] == if i < |m| then m[i] else NUL
  }

  /** Step over a quoted stretch to its closing quote; past the terminator without one. */
  method SkipQuoted(buf: array<char>, ghost m: string, from: nat, q: char) returns (end: int)
    requires Intact(buf, m, from) && from <= |m| && (q == '\'' || q == '\"')
    requires ReadAll(m[..from]).mode == if q == '\'' then InSingle else InDouble
    ensures -1 <= end <= |m|
    ensures end >= 0 ==> from <= end < |m| && ReadAll(m[..end + 1]).mode == Plain
                         && ReadAll(m[..end + 1]) == Reading(Plain, ReadAll(m[..from]).words, ReadAll(m[..from]).word + m[from..end + 1])
    ensures end < 0 ==> ReadAll(m).mode != Plain
  {
    end := from;
    assert m[from..from] == "";
    while true
      invariant from <= end <= |m|
      invariant ReadAll(m[..end]) == Reading(ReadAll(m[..from]).mode, ReadAll(m[..from]).words, ReadAll(m[..from]).word + m[from..end])
      decreases |m| - end
    {
      if end == buf.Length - 1 {
        assert m[..end] == m;
        return -1;
      }
      ReadNext(m, end);
      assert m[from..end + 1] == m[from..end] + [m[end]];
      if buf[end] == q {
        return end;
      }
      end := end + 1;
    }
  }

  method SkipSpaces(buf: array<char>, ghost m: string, from: nat) returns (start: nat)
    requires Intact(buf, m, from) && from <= |m| && NUL !in m
    requires ReadAll(m[..from]).mode == Plain && ReadAll(m[..from]).word == ""
    ensures from <= start <= |m| && ReadAll(m[..start]) == ReadAll(m[..from])
    ensures start < |m| ==> m[start] != ' '
  {
    start := from;
    while buf[start] == ' '
      invariant from <= start <= |m| && ReadAll(m[..start]) == ReadAll(m[..from])
      decreases |m| - start
    {
      ReadNext(m, start);
      start := start + 1;
    }
  }

  /** Step over one character, escaped pair or quoted stretch of a word. */
  method SkipItem(buf: array<char>, ghost m: string, start: nat, from: nat) returns (end: int)
    requires Intact(buf, m, start) && NUL !in m && start <= from < |m|
    requires ReadAll(m[..from]).mode == Plain && ReadAll(m[..from]).word == m[start..from] && m[from] != ' '
    ensures -1 <= end <= |m|
    ensures end < 0 ==> ReadAll(m).mode != Plain
    ensures end >= 0 ==> from < end && ReadAll(m[..end]) == Reading(Plain, ReadAll(m[..from]).words, m[start..end])
  {
    hide ReadAll;
    ReadNext(m, from);
    assert m[start..from + 1] == m[start..from] + [m[from]];
    end := from;
    if buf[end] == '\\' {
      end := end + 1;
      if end == buf.Length - 1 {
        assert m[..end] == m;
        return -1;
      }
      ReadNext(m, end);
      assert m[start..end + 1] == m[start..end] + [m[end]];
    } else if buf[end] == '\"' || buf[end] == '\'' {
      end := end + 1;
      var close := SkipQuoted(buf, m, end, buf[from]);
      if close < 0 {
        return -1;
      }
      assert m[start..close + 1] == m[start..end] + m[end..close + 1];
      end := close;
    }
    end := end + 1;
  }

  lemma WordsAtEnd(m: string, start: nat)
    requires start < |m| && ReadAll(m).mode == Plain && ReadAll(m).word == m[start..]
    ensures Words(m) == Some(ReadAll(m).words + [m[start..]])
  {
  }

  /** Cut the chugged mask into words; None when a quote or an escape runs past the
      terminator. */
  method CutWords(m: string) returns (r: Option<seq<string>>)
    requires NUL !in m && (m != "" ==> !IsSpace(m[0]))
    ensures r == Words(m)
  {
    hide ReadAll, Words;
    var buf := new char[|m| + 1](i requires 0 <= i => if i < |m| then m[i] else NUL);
    var start, end, words := 0, 0, [];
    ReadNothing(m);
    while buf[start] != NUL
      invariant 0 <= start <= end <= |m| && Intact(buf, m, start)
      invariant start < |m| ==> m[start] != ' '
      invariant ReadAll(m[..end]) == Reading(Plain, words, m[start..end])
      invariant start == |m| ==> Words(m) == Some(words)
      decreases |m| - start, |m| - end
    {
      if buf[end] == NUL {
        assert m[..end] == m && buf[start..end] == m[start..end] == m[start..];
        WordsAtEnd(m, start);
        words := words + [buf[start..end]];
        return Some(words);
      } else if buf[end] == ' ' {
        assert buf[start..end] == m[start..end];
        words := words + [buf[start..end]];
        buf[end] := NUL;
        ReadNext(m, end);
        start := SkipSpaces(buf, m, end + 1);
        end := start;
        WordsSoFar(m, start);
      } else {
        end := SkipItem(buf, m, start, end);
        if end < 0 {
          NoWords(m);
          return None;
        }
      }
    }
    return Some(words);
  }

  lemma ReadNothing(m: string)
    ensures ReadAll(m[..0]) == Reading(Plain, [], "") && (m == "" ==> Words(m) == Some([]))
  {
  }

  lemma WordsSoFar(m: string, start: nat)
    requires start <= |m| && ReadAll(m[..start]).mode == Plain && ReadAll(m[..start]).word == ""
    ensures start == |m| ==> Words(m) == Some(ReadAll(m[..start]).words)
  {
    if start == |m| { assert m[..start] == m; }
  }

  lemma NoWords(m: string)
    requires ReadAll(m).mode != Plain
    ensures Words(m) == None
  {
  }

  lemma ChuggedWithin(m: string)
    ensures forall c :: c in Chugged(m) ==> c in m
  {
    var r := Chugged(m);
    hide Chugged;
    forall c | c in r ensures c in m {
      var i :| 0 <= i < |r| && r[i] == c;
      assert m[|m| - |r|..][i] == c;
    }
  }

  method SplitMask(mask: string) returns (r: Option<seq<Mask>>)
    requires NUL !in mask
    ensures r.Some? <==> Words(Chugged(mask)).Some?
    ensures r.Some? ==> SplitInto(mask, r.value)
  {
    hide Chugged, ReadAll, Words;
    ChuggedWithin(mask);
    var m := Chugged(mask);
    var words := CutWords(m);
    if words.None? {
      return None;
    }
    var masks: seq<Mask> := [];
    for i := 0 to |words.value|
      invariant |masks| == i && forall j :: 0 <= j < i ==> masks[j] == MaskOf(words.value[j])
    {
      masks := masks + [MaskOf(words.value[i])];
    }
    return Some(masks);
  }

  // ----- the words, in place -----

  predicate OnlySpaces(s: string) {
    forall i :: 0 <= i < |s| ==> s[i] == ' '
  }

  /** Words laid out between gaps. */
  function Woven(gaps: seq<string>, words: seq<string>): string
    requires |gaps| == |words| + 1
    decreases |words|
  {
    if words == [] then gaps[0]
    else
      var n := |words| - 1;
      Woven(gaps[..n + 1], words[..n]) + words[n] + gaps[n + 1]
  }

  /** A whole word: not empty, balanced, and every space in it quoted or escaped. */
  predicate Solid(w: string) {
    w != "" && forall i :: 0 <= i < |w| && w[i] == ' ' ==> ReadAll(w[..i]).mode != Plain
  }

  predicate Gaps(gaps: seq<string>) {
    gaps != [] && (forall i :: 0 <= i < |gaps| ==> OnlySpaces(gaps[i]))
    && forall i :: 0 < i < |gaps| - 1 ==> gaps[i] != ""
  }

  function AllWords(r: Reading): seq<string> {
    if r.word == "" then r.words else r.words + [r.word]
  }

  /** The reading so far is a weave: the gap after an unfinished word is empty, the gap
      after a finished one is not. */
  ghost predicate Laid(m: string, gaps: seq<string>) {
    var r := ReadAll(m);
    && |gaps| == |AllWords(r)| + 1 && Gaps(gaps) && m == Woven(gaps, AllWords(r))
    && (forall i :: 0 <= i < |AllWords(r)| ==> Solid(AllWords(r)[i]))
    && (forall i :: 0 <= i < |r.words| ==> ReadAll(r.words[i]).mode == Plain)
    && ReadAll(r.word).mode == r.mode
    && (r.word != "" ==> gaps[|gaps| - 1] == "")
    && (r.word == "" && r.words != [] ==> gaps[|gaps| - 1] != "")
  }

  lemma WovenLast(gaps: seq<string>, words: seq<string>, gap: string)
    requires |gaps| == |words| + 1
    ensures Woven(gaps[|gaps| - 1 := gap], words)
            == (if words == [] then "" else Woven(gaps[..|words|], words[..|words| - 1]) + words[|words| - 1]) + gap
  {
    if words != [] {
      assert gaps[|gaps| - 1 := gap][..|words|] == gaps[..|words|];
    }
  }

  lemma WovenGrows(gaps: seq<string>, words: seq<string>, w: string, c: char)
    requires |gaps| == |words| + 1 && words != [] && words[|words| - 1] == w && gaps[|gaps| - 1] == ""
    ensures Woven(gaps, words[|words| - 1 := w + [c]]) == Woven(gaps, words) + [c]
  {
    var n := |words| - 1;
    assert words[n := w + [c]][..n] == words[..n];
  }

  lemma WovenBegins(gaps: seq<string>, words: seq<string>, w: string)
    requires |gaps| == |words| + 1
    ensures Woven(gaps + [""], words + [w]) == Woven(gaps, words) + w
  {
    assert (gaps + [""])[..|words| + 1] == gaps && (words + [w])[..|words|] == words;
  }

  lemma SolidGrows(w: string, c: char)
    requires w == "" || Solid(w)
    requires c == ' ' ==> w != "" && ReadAll(w).mode != Plain
    ensures Solid(w + [c])
  {
    var x := w + [c];
    forall i | 0 <= i < |x| && x[i] == ' ' ensures ReadAll(x[..i]).mode != Plain {
      assert x[..i] == w[..i];
      if i == |w| { assert x[..i] == w; }
    }
  }

  lemma WovenWidens(gaps: seq<string>, words: seq<string>)
    requires |gaps| == |words| + 1
    ensures Woven(gaps[|words| := gaps[|words|] + [' ']], words) == Woven(gaps, words) + [' ']
  {
    WovenLast(gaps, words, gaps[|words|]);
    WovenLast(gaps, words, gaps[|words|] + [' ']);
    assert gaps[|words| := gaps[|words|]] == gaps;
  }

  lemma GapsWiden(gaps: seq<string>)
    requires Gaps(gaps)
    ensures Gaps(gaps[|gaps| - 1 := gaps[|gaps| - 1] + [' ']])
  {
  }

  /** A bare space widens the last gap. */
  lemma SpaceLays(m: string, gaps: seq<string>) returns (gaps': seq<string>)
    requires Laid(m, gaps) && ReadAll(m).mode == Plain
    ensures Laid(m + [' '], gaps')
  {
    hide ReadAll, Solid, Woven, Gaps;
    var n := |gaps| - 1;
    gaps' := gaps[n := gaps[n] + [' ']];
    ReadAppend(m, ' ');
    var r, r' := ReadAll(m), ReadAll(m + [' ']);
    assert r'.word == "" && r'.words == AllWords(r) == AllWords(r');
    WovenWidens(gaps, AllWords(r));
    GapsWiden(gaps);
    EmptyRead();
  }

  lemma EmptyRead()
    ensures ReadAll("") == Reading(Plain, [], "")
  {
  }

  /** Anything else goes on with the word, or begins one. */
  lemma OtherLays(m: string, gaps: seq<string>, c: char) returns (gaps': seq<string>)
    requires Laid(m, gaps) && !(ReadAll(m).mode == Plain && c == ' ')
    ensures Laid(m + [c], gaps')
  {
    hide ReadAll, Solid;
    ReadAppend(m, c);
    var r, r' := ReadAll(m), ReadAll(m + [c]);
    ReadAppend(r.word, c);
    EmptyRead();
    SolidGrows(r.word, c);
    var ws := AllWords(r);
    if r.word == "" {
      gaps' := gaps + [""];
      assert ws == r.words && r'.words == r.words && r'.word == "" + [c] == [c];
      WovenBegins(gaps, ws, [c]);
    } else {
      gaps' := gaps;
      assert r'.words == r.words && r'.word == r.word + [c];
      assert ws[|ws| - 1 := r.word + [c]] == r.words + [r.word + [c]];
      WovenGrows(gaps, ws, r.word, c);
    }
  }

  lemma {:induction false} ReadLays(m: string) returns (gaps: seq<string>)
    ensures Laid(m, gaps)
    decreases |m|
  {
    if m == "" {
      gaps := [""];
    } else {
      var t, c := m[..|m| - 1], m[|m| - 1];
      hide ReadAll, Laid;
      gaps := ReadLays(t);
      assert t + [c] == m;
      if ReadAll(t).mode == Plain && c == ' ' {
        gaps := SpaceLays(t, gaps);
      } else {
        gaps := OtherLays(t, gaps, c);
      }
    }
  }

  /** The words are exactly the pieces of the mask between runs of bare spaces: laid out
      with those runs between them they are the mask, none is empty, and no space inside
      one is bare. */
  lemma WordsAreThePieces(m: string) returns (gaps: seq<string>)
    requires Words(m).Some?
    ensures var ws := Words(m).value;
            && |gaps| == |ws| + 1 && Gaps(gaps) && m == Woven(gaps, ws)
            && forall i :: 0 <= i < |ws| ==> Solid(ws[i]) && ReadAll(ws[i]).mode == Plain
  {
    gaps := ReadLays(m);
    hide ReadAll, Solid, Woven, Gaps;
  }

  // ----- what the sanitiser sends is always split -----

  function ModeOf(l: Lex): Mode {
    if l.esc then Escape
    else if In(l.stack, Single) then InSingle
    else if In(l.stack, Double) then InDouble
    else Plain
  }

  /** The two programs agree on where quotes and escapes are. */
  lemma {:induction false} SameModes(w: string)
    ensures ReadAll(w).mode == ModeOf(LexOf(w))
    ensures var l := LexOf(w); (l.esc ==> !Quoted(l.stack)) && forall i :: 1 <= i < |l.stack| ==> l.stack[i] == Paren
    decreases |w|
  {
    if w != "" {
      SameModes(w[..|w| - 1]);
    }
  }

  lemma {:induction false} SpaceFirst(c: char, w: string)
    requires IsSpace(c)
    ensures LexOf([c] + w) == LexOf(w)
    decreases |w|
  {
    if w == "" {
      assert [c] + w == "" + [c];
      LexAppend("", c);
    } else {
      var t, d := w[..|w| - 1], w[|w| - 1];
      SpaceFirst(c, t);
      assert [c] + w == ([c] + t) + [d];
      LexAppend([c] + t, d);
    }
  }

  lemma ChugStep(m: string)
    ensures Chugged(m) == if m != "" && IsSpace(m[0]) then Chugged(m[1..]) else m
  {
  }

  lemma {:induction false} ChugLex(m: string)
    ensures LexOf(Chugged(m)) == LexOf(m)
    decreases |m|
  {
    hide LexOf, Chugged;
    ChugStep(m);
    if m != "" && IsSpace(m[0]) {
      ChugLex(m[1..]);
      SpaceFirst(m[0], m[1..]);
      assert [m[0]] + m[1..] == m;
    }
  }

  /** Every closed mask is split without a look past its terminator; so is whatever the
      sanitiser makes of a line without a slip. */
  lemma ClosedSplits(m: string)
    requires Balanced(m)
    ensures Words(Chugged(m)).Some?
  {
    hide LexOf, ReadAll;
    ChugLex(m);
    SameModes(Chugged(m));
  }

  lemma SanitizedSplits(input: string)
    requires !Slips(START, input)
    ensures Words(Chugged(Sanitized(input))).Some?
  {
    OutputBalanced(input);
    ClosedSplits(Sanitized(input));
  }
}
