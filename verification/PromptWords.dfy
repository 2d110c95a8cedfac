/** The shapes a segment can have while it is still open at the prompt, and the lemma
    drawn from the table: no sequence completes wholly inside such a segment. */
module PromptWords {
  import opened Bytes
  import opened Patterns
  import opened Connections
  import opened Sequences
  import opened ShellMachine

  ghost predicate Literal(p: string) {
    forall i :: 0 <= i < |p| ==> !IsRun(p[i]) && p[i] !in {ANY, NOT_LF, NOT_LF_CR}
  }

  lemma {:induction false} LiteralWord(p: string, w: string)
    requires Literal(p) && Word(p, w)
    ensures w == p
    decreases |p|
  {
    if p != "" {
      LiteralWord(p[1..], w[1..]);
      assert w == [w[0]] + w[1..] && p == [p[0]] + p[1..];
    }
  }

  ghost predicate AllDigits(s: string) {
    forall i :: 0 <= i < |s| ==> IsDigit(s[i])
  }

  ghost predicate AllPrintable(s: string) {
    forall i :: 0 <= i < |s| ==> !IsCntrl(s[i])
  }

  /** A control sequence: introducer, digits, final byte. */
  ghost predicate IsCsi(w: string, final: char) {
    |w| >= 3 && w[0] == ESC && w[1] == '[' && AllDigits(w[2..|w| - 1]) && w[|w| - 1] == final
  }

  /** A directory announcement: introducer, path, terminator. */
  ghost predicate IsPwd(w: string) {
    |w| >= 4 && w[0] == ESC && w[1] == 'P' && AllPrintable(w[2..|w| - 2]) && w[|w| - 2] == ESC && w[|w| - 1] == '\\'
  }

  lemma WordCons(c: char, p: string, w: string)
    requires !IsRun(c) && c !in {ANY, NOT_LF, NOT_LF_CR}
    ensures Word([c] + p, w) <==> w != "" && w[0] == c && Word(p, w[1..])
  {
    assert ([c] + p)[1..] == p;
  }

  lemma WordRun(kind: char, delim: char, p: string, w: string)
    requires IsRun(kind)
    ensures Word([kind, delim] + p, w) <==>
            exists k :: 0 <= k < |w| && RunThen(kind, delim, w, k) && Word(p, w[k + 1..])
  {
    var q := [kind, delim] + p;
    assert q[2..] == p && q[0] == kind && q[1] == delim;
    assert Word(q, w) <==> exists k :: 0 <= k < |w| && RunThen(q[0], q[1], w, k) && Word(q[2..], w[k + 1..]);
  }

  /** The digits and the final byte of a control sequence. */
  lemma CsiTail(t: string, final: char)
    requires !IsRun(final)
    ensures Word([DIGITS, final], t) <==> |t| >= 1 && AllDigits(t[..|t| - 1]) && t[|t| - 1] == final
  {
    assert [DIGITS, final] == [DIGITS, final] + "";
    WordRun(DIGITS, final, "", t);
    assert forall s :: Word("", s) <==> s == "";
    hide Word;
    if Word([DIGITS, final] + "", t) {
      var k :| 0 <= k < |t| && RunThen(DIGITS, final, t, k) && Word("", t[k + 1..]);
      assert k == |t| - 1;
    }
    if |t| >= 1 && AllDigits(t[..|t| - 1]) && t[|t| - 1] == final {
      var k := |t| - 1;
      assert forall i :: 0 <= i < k ==> t[i] == t[..k][i];
      assert RunThen(DIGITS, final, t, k) && t[k + 1..] == "";
      assert Word("", t[k + 1..]);
    }
  }

  lemma CsiWord(w: string, final: char)
    requires final in {'A', 'C', 'D', 'K', 'P', '@'}
    ensures Word([ESC, '[', DIGITS, final], w) <==> IsCsi(w, final)
  {
    hide Word;
    var q := [DIGITS, final];
    assert [ESC, '[', DIGITS, final] == [ESC] + (['['] + q);
    WordCons(ESC, ['['] + q, w);
    if w != "" {
      WordCons('[', q, w[1..]);
    }
    if |w| >= 2 {
      var t := w[2..];
      assert w[1..][1..] == t;
      CsiTail(t, final);
      if |t| >= 1 {
        assert t[..|t| - 1] == w[2..|w| - 1] && t[|t| - 1] == w[|w| - 1];
      }
    }
  }

  /** The path and the terminator of an announcement. */
  lemma PwdTail(t: string)
    ensures Word([PRINTABLES, ESC, '\\'], t) <==> IsPwdTail(t)
  {
    hide Word, RunThen, IsPwdTail;
    assert [PRINTABLES, ESC, '\\'] == [PRINTABLES, ESC] + ['\\'];
    WordRun(PRINTABLES, ESC, ['\\'], t);
    if Word([PRINTABLES, ESC] + ['\\'], t) {
      var k :| 0 <= k < |t| && RunThen(PRINTABLES, ESC, t, k) && Word(['\\'], t[k + 1..]);
      PwdTailRead(t, k);
    }
    if IsPwdTail(t) {
      PwdTailWritten(t);
      var k := |t| - 2;
      assert RunThen(PRINTABLES, ESC, t, k) && Word(['\\'], t[k + 1..]);
    }
  }

  ghost predicate IsPwdTail(t: string) {
    |t| >= 2 && AllPrintable(t[..|t| - 2]) && t[|t| - 2] == ESC && t[|t| - 1] == '\\'
  }

  lemma PwdTailRead(t: string, k: nat)
    requires k < |t| && RunThen(PRINTABLES, ESC, t, k) && Word(['\\'], t[k + 1..])
    ensures IsPwdTail(t)
  {
    LiteralIs(['\\'], t[k + 1..]);
    hide Word;
    assert k == |t| - 2 && t[k + 1..][0] == t[|t| - 1];
    assert forall i :: 0 <= i < k ==> t[i] == t[..k][i];
  }

  lemma PwdTailWritten(t: string)
    requires IsPwdTail(t)
    ensures |t| >= 2 && RunThen(PRINTABLES, ESC, t, |t| - 2) && Word(['\\'], t[|t| - 1..])
  {
    LiteralIs(['\\'], t[|t| - 1..]);
    hide Word;
    assert forall i :: 0 <= i < |t| - 2 ==> t[i] == t[..|t| - 2][i];
  }

  lemma PwdWord(w: string)
    ensures Word([ESC, 'P', PRINTABLES, ESC, '\\'], w) <==> IsPwd(w)
  {
    hide Word;
    var q := [PRINTABLES, ESC, '\\'];
    assert [ESC, 'P', PRINTABLES, ESC, '\\'] == [ESC] + (['P'] + q);
    WordCons(ESC, ['P'] + q, w);
    if w != "" {
      WordCons('P', q, w[1..]);
    }
    if |w| >= 2 {
      var t := w[2..];
      assert w[1..][1..] == t;
      PwdTail(t);
      if |t| >= 2 {
        assert t[..|t| - 2] == w[2..|w| - 2] && t[|t| - 2] == w[|w| - 2] && t[|t| - 1] == w[|w| - 1];
      }
    }
  }

  /** The words of the sequences active at the prompt, each in closed form. */
  ghost predicate IsWord(id: SeqId, w: string) {
    match id
    case Ps1Separator => w == Pattern(Ps1Separator)
    case RpromptStart => w == Pattern(RpromptStart)
    case NewPwd => IsPwd(w)
    case CmdWrapped => |w| == 3 && w[..2] == " \r" && w[2] != LF && w[2] != CR
    case CarriageReturn => |w| == 2 && w[0] == CR && w[1] != LF
    case Newline => w == "\r\n"
    case Backspace => w == [BS]
    case Bell => w == [BEL]
    case CursorForward => IsCsi(w, 'C')
    case CursorBackward => IsCsi(w, 'D')
    case CursorUp => IsCsi(w, 'A')
    case EraseInLine => IsCsi(w, 'K')
    case DeleteChars => IsCsi(w, 'P')
    case InsertBlanks => IsCsi(w, '@')
    case RpromptEnd => Word(Pattern(RpromptEnd), w)
    case ZshCompletionDone => Word(Pattern(ZshCompletionDone), w)
  }

  lemma WrapWord(w: string)
    ensures Word(" \r\U{13}", w) <==> IsWord(CmdWrapped, w)
  {
    hide Pattern;
    assert " \r\U{13}" == [' '] + (['\r'] + "\U{13}");
    WordCons(' ', ['\r'] + "\U{13}", w);
    if w != "" {
      WordCons('\r', "\U{13}", w[1..]);
      if |w| >= 2 {
        LastWord(NOT_LF_CR, w[2..]);
        assert w[1..][1..] == w[2..] && w[..2] == [w[0], w[1]];
      }
    }
  }

  lemma ReturnWord(w: string)
    ensures Word("\r\U{14}", w) <==> IsWord(CarriageReturn, w)
  {
    hide Pattern;
    assert "\r\U{14}" == ['\r'] + "\U{14}";
    WordCons('\r', "\U{14}", w);
    if w != "" {
      LastWord(NOT_LF, w[1..]);
    }
  }

  lemma LastWord(p: char, w: string)
    requires !IsRun(p)
    ensures Word([p], w) <==> |w| == 1 && Accepts(p, w[0])
  {
    assert [p][1..] == "";
  }

  lemma WordIs(id: SeqId, w: string)
    ensures Word(Pattern(id), w) <==> IsWord(id, w)
  {
    match id
    case Ps1Separator => LiteralIs(Pattern(id), w);
    case RpromptStart => LiteralIs(Pattern(id), w);
    case Backspace => LiteralIs(Pattern(id), w);
    case Bell => LiteralIs(Pattern(id), w);
    case NewPwd => PwdWord(w);
    case CmdWrapped => WrapWord(w);
    case CarriageReturn => ReturnWord(w);
    case Newline => LiteralIs(Pattern(id), w);
    case CursorForward => CsiWord(w, 'C');
    case CursorBackward => CsiWord(w, 'D');
    case CursorUp => CsiWord(w, 'A');
    case EraseInLine => CsiWord(w, 'K');
    case DeleteChars => CsiWord(w, 'P');
    case InsertBlanks => CsiWord(w, '@');
    case RpromptEnd =>
    case ZshCompletionDone =>
  }

  lemma LiteralIs(p: string, w: string)
    requires Literal(p)
    ensures Word(p, w) <==> w == p
  {
    if Word(p, w) { LiteralWord(p, w); }
    LiteralDenotes(p);
  }

  lemma {:induction false} LiteralDenotes(p: string)
    requires Literal(p)
    ensures Word(p, p)
    decreases |p|
  {
    if p != "" { LiteralDenotes(p[1..]); }
  }

  const FINALS: set<char> := {'A', 'C', 'D', 'K', 'P', '@'}

  predicate AtThePrompt(id: SeqId) {
    id != RpromptEnd && id != ZshCompletionDone
  }

  /** Every word of a prompt sequence carries one of these marks. */
  ghost predicate Marked(w: string) {
    || BS in w || BEL in w || LF in w
    || (exists k :: 0 <= k < |w| - 1 && w[k] == CR)
    || (|w| >= 3 && w[0] == ESC && w[1] == '[' && AllDigits(w[2..|w| - 1]) && w[|w| - 1] in FINALS)
    || (|w| >= 2 && w[|w| - 2] == ESC && w[|w| - 1] == '\\')
    || (|w| == 22 && w[0] == ESC && w[1] == '[' && w[21] == 'm')
  }

  lemma WordsMarked(id: SeqId, w: string)
    requires AtThePrompt(id) && IsWord(id, w)
    ensures Marked(w)
  {
    if id == CmdWrapped {
      assert w[..2][1] == w[1] == CR;
    }
  }

  /** No part of an unfinished word carries a mark. */
  lemma ShortUnmarked(id: SeqId, w: string, i: nat, j: nat)
    requires id in {CmdWrapped, CarriageReturn, Newline, Backspace, Bell} && IsWord(id, w) && i < j < |w|
    ensures !Marked(w[i..j])
  {
    if id == CmdWrapped {
      assert w[0] == ' ' == w[..2][0] && w[1] == CR == w[..2][1];
    }
    var x := w[i..j];
    assert forall k :: 0 <= k < |x| ==> x[k] == w[i + k];
  }

  lemma CsiUnmarked(final: char, w: string, i: nat, j: nat)
    requires final in FINALS && IsCsi(w, final) && i < j < |w|
    ensures !Marked(w[i..j])
  {
    var x := w[i..j];
    assert forall k :: 0 <= k < |x| ==> x[k] == w[i + k];
    assert forall k :: 2 <= k < |w| - 1 ==> w[k] == w[2..|w| - 1][k - 2];
    assert forall k :: 0 <= k < |x| && i + k >= 2 ==> IsDigit(x[k]);
  }

  lemma PwdUnmarked(w: string, i: nat, j: nat)
    requires IsPwd(w) && i < j < |w|
    ensures !Marked(w[i..j])
  {
    var x := w[i..j];
    assert forall k :: 0 <= k < |x| ==> x[k] == w[i + k];
    assert forall k :: 2 <= k < |w| - 2 ==> w[k] == w[2..|w| - 2][k - 2];
    assert forall k :: 0 <= k < |x| ==> !IsCntrl(x[k]) || (x[k] == ESC && (i + k == 0 || i + k == |w| - 2));
  }

  /** Both separators are runs of colour settings, 22 bytes long. */
  ghost predicate Colours(p: string) {
    |p| == 22 && ColourBytes(p) && ColourParts(p)
  }

  ghost predicate ColourBytes(p: string) {
    forall k :: 0 <= k < |p| ==> p[k] in {ESC, '[', ';', 'm'} || IsDigit(p[k])
  }

  ghost predicate ColourParts(p: string) {
    forall k :: 0 <= k < |p| - 3 && p[k] == ESC ==> IsDigit(p[k + 2]) && p[k + 3] in {';', 'm'}
  }

  lemma Ps1Bytes()
    ensures ColourBytes(Pattern(Ps1Separator))
  {
  }

  lemma RpromptBytes()
    ensures ColourBytes(Pattern(RpromptStart))
  {
  }

  /** One colour setting. */
  ghost predicate Setting(c: string) {
    |c| >= 4 && c[0] == ESC && IsDigit(c[2]) && c[3] in {';', 'm'} && forall k :: 1 <= k < |c| ==> c[k] != ESC
  }

  lemma PartsJoin(c: string, p: string)
    requires Setting(c) && ColourParts(p)
    ensures ColourParts(c + p) && |c + p| == |c| + |p|
  {
  }

  /** Both separators are four settings, the second and the last of them a reset. */
  lemma FourSettings(a: string, b: string)
    requires Setting(a) && Setting(b)
    ensures var r := "\U{1B}[0m";
            ColourParts(a + (r + (b + (r + "")))) && |a + (r + (b + (r + "")))| == |a| + |b| + 8
  {
    var r := "\U{1B}[0m";
    PartsJoin(r, "");
    PartsJoin(b, r + "");
    PartsJoin(r, b + (r + ""));
    PartsJoin(a, r + (b + (r + "")));
  }

  lemma Ps1Parts()
    ensures |Pattern(Ps1Separator)| == 22 && ColourParts(Pattern(Ps1Separator))
  {
    hide ColourParts;
    var a, b, r := "\U{1B}[0;30m", "\U{1B}[1;37m", "\U{1B}[0m";
    FourSettings(a, b);
    assert Pattern(Ps1Separator) == a + (r + (b + (r + "")));
  }

  lemma Ps1Colours()
    ensures Colours(Pattern(Ps1Separator))
  {
    hide Pattern, ColourBytes, ColourParts;
    Ps1Bytes();
    Ps1Parts();
  }

  lemma RpromptParts()
    ensures |Pattern(RpromptStart)| == 22 && ColourParts(Pattern(RpromptStart))
  {
    hide ColourParts;
    var a, b, r := "\U{1B}[0;34m", "\U{1B}[0;31m", "\U{1B}[0m";
    FourSettings(a, b);
    assert Pattern(RpromptStart) == a + (r + (b + (r + "")));
  }

  lemma RpromptColours()
    ensures Colours(Pattern(RpromptStart))
  {
    hide Pattern, ColourBytes, ColourParts;
    RpromptBytes();
    RpromptParts();
  }

  lemma ColoursUnmarked(p: string, i: nat, j: nat)
    requires Colours(p) && i < j < |p|
    ensures !Marked(p[i..j])
  {
    var x := p[i..j];
    assert forall k :: 0 <= k < |x| ==> x[k] == p[i + k];
    if |x| >= 5 {
      assert x[2..|x| - 1][1] == x[3];
    }
  }

  lemma OpenUnmarked(id: SeqId, h: string, i: nat, j: nat)
    requires AtThePrompt(id) && Opens(Pattern(id), h) && i < j <= |h|
    ensures !Marked(h[i..j])
  {
    hide Pattern, Marked;
    var v :| v != "" && Word(Pattern(id), h + v);
    var w := h + v;
    WordIs(id, w);
    assert h[i..j] == w[i..j];
    match id
    case Ps1Separator => Ps1Colours(); ColoursUnmarked(w, i, j);
    case RpromptStart => RpromptColours(); ColoursUnmarked(w, i, j);
    case NewPwd => PwdUnmarked(w, i, j);
    case CursorForward => CsiUnmarked('C', w, i, j);
    case CursorBackward => CsiUnmarked('D', w, i, j);
    case CursorUp => CsiUnmarked('A', w, i, j);
    case EraseInLine => CsiUnmarked('K', w, i, j);
    case DeleteChars => CsiUnmarked('P', w, i, j);
    case InsertBlanks => CsiUnmarked('@', w, i, j);
    case _ => ShortUnmarked(id, w, i, j);
  }

  /** Table lemma: while a segment is open at the prompt, no sequence of the prompt is
      complete anywhere inside it. */
  lemma NothingInside(sh: Shell, h: string, i: nat, j: nat)
    requires Alive(Group(sh, AtPrompt), h) && i < j <= |h|
    ensures Fires(Group(sh, AtPrompt), h[i..j]) == None
  {
    var g := Group(sh, AtPrompt);
    assert forall id :: id in g ==> AtThePrompt(id);
    hide Pattern, Group, Marked;
    var id :| id in g && Opens(Pattern(id), h);
    OpenUnmarked(id, h, i, j);
    if Fires(g, h[i..j]).Some? {
      var q := Fires(g, h[i..j]).value;
      WordIs(q, h[i..j]);
      WordsMarked(q, h[i..j]);
    }
  }

  // ----- where an announcement can begin -----

  lemma CsiEscape(final: char, w: string, i: nat)
    requires final in FINALS && IsCsi(w, final) && i < |w| && w[i] == ESC
    ensures i == 0 && w[1] == '['
  {
    assert forall k :: 2 <= k < |w| - 1 ==> w[k] == w[2..|w| - 1][k - 2];
  }

  lemma PwdEscape(w: string, i: nat)
    requires IsPwd(w) && i + 1 < |w| && w[i] == ESC && w[i + 1] == 'P'
    ensures i == 0
  {
    assert forall k :: 2 <= k < |w| - 2 ==> w[k] == w[2..|w| - 2][k - 2];
  }

  lemma WrapBytes(w: string)
    requires IsWord(CmdWrapped, w)
    ensures w[0] == ' ' && w[1] == CR
  {
    assert w[0] == w[..2][0] && w[1] == w[..2][1];
  }

  /** Only an announcement holds an escape before a P, and only in front. */
  lemma EscapeP(id: SeqId, w: string, i: nat)
    requires AtThePrompt(id) && IsWord(id, w) && i + 1 < |w| && w[i] == ESC && w[i + 1] == 'P'
    ensures i == 0 && id == NewPwd
  {
    hide Pattern, IsCsi, IsPwd;
    match id
    case Ps1Separator => Ps1Bytes();
    case RpromptStart => RpromptBytes();
    case NewPwd => PwdEscape(w, i);
    case CmdWrapped => WrapBytes(w);
    case CursorForward => CsiEscape('C', w, i);
    case CursorBackward => CsiEscape('D', w, i);
    case CursorUp => CsiEscape('A', w, i);
    case EraseInLine => CsiEscape('K', w, i);
    case DeleteChars => CsiEscape('P', w, i);
    case InsertBlanks => CsiEscape('@', w, i);
    case _ =>
  }

  lemma EscapePOpen(id: SeqId, h: string, i: nat)
    requires AtThePrompt(id) && Opens(Pattern(id), h) && i + 1 < |h| && h[i] == ESC && h[i + 1] == 'P'
    ensures i == 0 && id == NewPwd
  {
    hide Pattern, Word, IsWord;
    var v :| v != "" && Word(Pattern(id), h + v);
    WordIs(id, h + v);
    EscapeP(id, h + v, i);
  }

  lemma PwdIsWord(w: string)
    ensures Word(Pattern(NewPwd), w) <==> IsPwd(w)
  {
    hide Pattern;
    WordIs(NewPwd, w);
  }

  lemma BeginsSo(h: string)
    requires h != "" && Opens(Pattern(NewPwd), h)
    ensures h[0] == ESC && (|h| >= 2 ==> h[1] == 'P')
  {
    hide Pattern, Word;
    var v :| v != "" && Word(Pattern(NewPwd), h + v);
    PwdIsWord(h + v);
    assert h[0] == (h + v)[0] && (|h| >= 2 ==> h[1] == (h + v)[1]);
  }

  lemma EscapeBegins()
    ensures Opens(Pattern(NewPwd), [ESC])
  {
    hide Pattern, Word;
    var v := ['P', ESC, '\\'];
    assert [ESC] + v == [ESC, 'P', ESC, '\\'];
    PwdIsWord([ESC] + v);
  }

  /** Neither the beginning of an announcement nor ending in an escape. */
  predicate Quiet(h: string) {
    (|h| >= 2 ==> !(h[0] == ESC && h[1] == 'P')) && (h != "" ==> h[|h| - 1] != ESC)
  }

  lemma LoudBegins(id: SeqId, h: string)
    requires AtThePrompt(id) && Opens(Pattern(id), h) && !Quiet(h)
    ensures exists i :: 0 <= i < |h| && Opens(Pattern(NewPwd), h[i..])
  {
    hide Pattern, Opens;
    if h[|h| - 1] == ESC {
      EscapeBegins();
      assert h[|h| - 1..] == [ESC];
    } else {
      EscapePOpen(id, h, 0);
      assert h[0..] == h;
    }
  }

  lemma BeginningLoud(id: SeqId, h: string, i: nat)
    requires AtThePrompt(id) && Opens(Pattern(id), h) && i < |h| && Opens(Pattern(NewPwd), h[i..])
    ensures !Quiet(h)
  {
    hide Pattern, Opens;
    BeginsSo(h[i..]);
    if i < |h| - 1 {
      EscapePOpen(id, h, i);
    }
  }

  lemma QuietNothing()
    ensures Quiet("")
  {
  }

  lemma PromptGroup(sh: Shell)
    ensures forall id :: id in Group(sh, AtPrompt) ==> AtThePrompt(id)
  {
  }

  /** No announcement begins within a segment open at the prompt exactly when it is quiet. */
  lemma QuietIff(sh: Shell, h: string)
    requires h == "" || Alive(Group(sh, AtPrompt), h)
    ensures Quiet(h) <==> forall i :: 0 <= i < |h| ==> !Opens(Pattern(NewPwd), h[i..])
  {
    hide Pattern, Group, Opens, Quiet;
    QuietNothing();
    if h != "" {
      PromptGroup(sh);
      var id :| id in Group(sh, AtPrompt) && Opens(Pattern(id), h);
      if !Quiet(h) {
        LoudBegins(id, h);
      }
      forall i | 0 <= i < |h| && Opens(Pattern(NewPwd), h[i..]) ensures !Quiet(h) {
        BeginningLoud(id, h, i);
      }
    }
  }
}
