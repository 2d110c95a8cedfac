/** The sequences vgseer looks for in a shell's output, which of them are active at
    which process level, and what each does to the command line when it completes. */
module Sequences {
  import opened Bytes
  import opened Patterns
  import opened CmdLines
  import opened Connections

  datatype Shell = Bash | Zsh

  datatype SeqId =
    | Ps1Separator | RpromptStart | RpromptEnd | NewPwd | ZshCompletionDone
    | CmdWrapped | CarriageReturn | Newline | Backspace | CursorForward | CursorBackward
    | CursorUp | EraseInLine | DeleteChars | InsertBlanks | Bell

  datatype Effect = Error | NoEffect | CmdExecuted | CmdStarted | CmdRebuild | PwdChanged | RpromptStarted

  function Pattern(id: SeqId): string {
    match id
    case Ps1Separator => "\U{1B}[0;30m\U{1B}[0m\U{1B}[1;37m\U{1B}[0m"
    case RpromptStart => "\U{1B}[0;34m\U{1B}[0m\U{1B}[0;31m\U{1B}[0m"
    case RpromptEnd => "\U{1B}[0;34m\U{1B}[0m\U{1B}[0;31m\U{1B}[0m\U{1B}[\U{16}D"
    case NewPwd => "\U{1B}P\U{12}\U{1B}\\"
    case ZshCompletionDone => "\U{1B}[0m\U{1B}[27m\U{1B}[24m\r\U{1B}[\U{16}C"
    case CmdWrapped => " \r\U{13}"
    case CarriageReturn => "\r\U{14}"
    case Newline => "\r\n"
    case Backspace => "\U{08}"
    case CursorForward => "\U{1B}[\U{16}C"
    case CursorBackward => "\U{1B}[\U{16}D"
    case CursorUp => "\U{1B}[\U{16}A"
    case EraseInLine => "\U{1B}[\U{16}K"
    case DeleteChars => "\U{1B}[\U{16}P"
    case InsertBlanks => "\U{1B}[\U{16}@"
    case Bell => "\U{07}"
  }

  /** The only run byte of a pattern, if any, stands before a proper delimiter; a class
      of single bytes ends a pattern, and no byte is NUL. */
  ghost predicate OneRun(p: string, i: int) {
    && p != ""
    && (forall j :: 0 <= j < |p| && j != i ==> !IsRun(p[j]))
    && (0 <= i < |p| && p[i] == DIGITS ==> i + 1 < |p| && p[i + 1] in {'A', 'C', 'D', 'K', 'P', '@'})
    && (0 <= i < |p| && p[i] == PRINTABLES ==> i + 1 < |p| && p[i + 1] == ESC)
    && (forall j :: 0 <= j < |p| ==> p[j] != NUL && (p[j] in {ANY, NOT_LF, NOT_LF_CR} ==> j == |p| - 1))
  }

  function RunIndex(id: SeqId): int {
    if id == RpromptEnd then 24 else if id == ZshCompletionDone then 17 else 2
  }

  lemma Ps1Pattern()
    ensures OneRun(Pattern(Ps1Separator), 2)
  {
  }

  lemma RpromptStartPattern()
    ensures OneRun(Pattern(RpromptStart), 2)
  {
  }

  lemma RpromptEndPattern()
    ensures OneRun(Pattern(RpromptEnd), 24)
  {
  }

  lemma ZshPattern()
    ensures OneRun(Pattern(ZshCompletionDone), 17)
  {
  }

  lemma PatternsShape(id: SeqId)
    ensures OneRun(Pattern(id), RunIndex(id))
  {
    match id
    case Ps1Separator => Ps1Pattern();
    case RpromptStart => RpromptStartPattern();
    case RpromptEnd => RpromptEndPattern();
    case ZshCompletionDone => ZshPattern();
    case _ =>
  }

  lemma PatternsWellFormed(id: SeqId)
    ensures WellFormed(Pattern(id))
  {
    PatternsShape(id);
    hide Pattern;
  }

  /** No sequence can take a NUL before its last byte. */
  lemma NoPatternHoldsNul(id: SeqId)
    ensures Avoids(Pattern(id), NUL)
  {
    PatternsShape(id);
    hide Pattern;
  }

  /** The sequences checked at a level, in order. */
  function Group(sh: Shell, pl: Level): seq<SeqId> {
    match (sh, pl)
    case (Bash, AtPrompt) =>
      [Ps1Separator, NewPwd, CmdWrapped, CursorForward, Backspace, EraseInLine, DeleteChars,
       InsertBlanks, CursorBackward, Bell, CursorUp, CarriageReturn, Newline]
    case (Bash, Executing) => [Ps1Separator, NewPwd]
    case (Bash, AtRprompt) => []
    case (Zsh, AtPrompt) =>
      [Ps1Separator, RpromptStart, CmdWrapped, CursorForward, Backspace, EraseInLine, DeleteChars,
       InsertBlanks, CursorBackward, Bell, CursorUp, CarriageReturn, Newline, NewPwd]
    case (Zsh, Executing) => [Ps1Separator, RpromptEnd, NewPwd, ZshCompletionDone]
    case (Zsh, AtRprompt) => [RpromptEnd]
  }

  // ----- reading a completed segment -----

  function Atoi(s: string, acc: nat): nat {
    if s != "" && IsDigit(s[0]) then Atoi(s[1..], 10 * acc + (s[0] - '0') as nat) else acc
  }

  /** The first run of digits, as a number; 0 when there is none. */
  function ParseDigits(w: string): nat {
    if w == "" then 0 else if IsDigit(w[0]) then Atoi(w, 0) else ParseDigits(w[1..])
  }

  /** A count argument, where none or zero means one. */
  function Count(w: string): nat {
    if ParseDigits(w) == 0 then 1 else ParseDigits(w)
  }

  /** The text after the two-byte introducer, up to the next escape. */
  function ParsePwd(w: string): string
    requires |w| >= 2
  {
    var e := FirstOf(w[2..], ESC);
    if e < 0 then w[2..] else w[2..2 + e]
  }

  // ----- what each sequence does -----

  /** `taken` bytes of the segment are stepped over; an eaten segment leaves the buffer. */
  datatype Outcome = Outcome(cmd: Cmd, effect: Effect, taken: nat, eaten: bool)

  /** Offset of the n-th carriage return left of `p`, counting leftwards, or -1. */
  function NthCrLeft(data: string, p: nat, n: nat): (r: int)
    requires p <= |data|
    ensures -1 <= r <= p
  {
    if n == 0 then p
    else
      var q := CrLeft(data, p);
      if q < 0 then -1 else NthCrLeft(data, q, n - 1)
  }

  /** Cursor position `n` rows up, or -1 when the row cannot be found. */
  function RowUp(c: Cmd, n: nat): (r: int)
    requires Ok(c)
    ensures -1 <= r <= c.pos
  {
    var left := CrLeft(c.data, c.pos);
    var right := CrRight(c);
    var start := NthCrLeft(c.data, c.pos, n + 1);
    if left >= 0 && start >= 0 then
      NthCrAtMost(c.data, c.pos, n);
      start + (c.pos - left)
    else
      var end := NthCrLeft(c.data, c.pos, n);
      if right >= 0 && end >= 0 && end - (right - c.pos) >= 0 then end - (right - c.pos) else -1
  }

  lemma NthCrAtMost(data: string, p: nat, n: nat)
    requires p <= |data| && NthCrLeft(data, p, n + 1) >= 0
    ensures NthCrLeft(data, p, n + 1) <= CrLeft(data, p)
  {
  }

  function NewlineAt(c: Cmd): (Cmd, Effect)
    requires Ok(c)
  {
    if CrRight(c) >= 0 then (c.(pos := CrRight(c) + 1), NoEffect)
    else if c.expectNewline then (c, CmdExecuted)
    else (Overwritten(c.(pos := |c.data|), CR), NoEffect)
  }

  function ForwardBy(sh: Shell, c: Cmd, n: nat): (Cmd, Effect)
    requires Ok(c) && n > 0
  {
    if c.pos + n <= |c.data| then (c.(pos := c.pos + n), NoEffect)
    else if sh == Bash then (c, CmdExecuted)
    else if c.pos + (n - 1) <= |c.data| then (Overwritten(c, ' '), NoEffect)
    else (c.(rebuilding := true), RpromptStarted)
  }

  /** The two sequences ending in a byte that need not belong to them. */
  predicate PeeksOne(id: SeqId) {
    id == CmdWrapped || id == CarriageReturn
  }

  function Handle(sh: Shell, id: SeqId, c: Cmd, w: string): (o: Outcome)
    requires Ok(c) && w != "" && (PeeksOne(id) || id == NewPwd ==> |w| >= 2)
    ensures Ok(o.cmd) && 1 <= o.taken && |w| - 1 <= o.taken <= |w|
    ensures o.eaten <==> id == NewPwd
    ensures o.eaten ==> o.taken == |w|
  {
    match id
    case Ps1Separator => Outcome(c, CmdStarted, |w|, false)
    case RpromptStart => Outcome(c, RpromptStarted, |w|, false)
    case RpromptEnd => Outcome(c, CmdStarted, |w|, false)
    case NewPwd => Outcome(c.(pwd := Some(ParsePwd(w))), PwdChanged, |w|, true)
    case ZshCompletionDone => Outcome(c.(rebuilding := true), NoEffect, |w|, false)
    case CmdWrapped =>
      if c.expectNewline then Outcome(c, CmdExecuted, |w| - 1, false)
      else Outcome(Overwritten(c, CR), NoEffect, |w| - 1, false)
    case CarriageReturn =>
      if c.expectNewline then Outcome(c, CmdExecuted, |w|, false)
      else if CrLeft(c.data, c.pos) < 0 then Outcome(c.(pos := 0), CmdRebuild, |w| - 1, false)
      else Outcome(c.(pos := CrLeft(c.data, c.pos) + 1), NoEffect, |w| - 1, false)
    case Newline => var (d, e) := NewlineAt(c); Outcome(d, e, |w|, false)
    case Backspace =>
      if c.pos >= 1 then Outcome(c.(pos := c.pos - 1), NoEffect, |w|, false) else Outcome(c, Error, |w|, false)
    case CursorForward => var (d, e) := ForwardBy(sh, c, Count(w)); Outcome(d, e, |w|, false)
    case CursorBackward =>
      if c.pos >= Count(w) then Outcome(c.(pos := c.pos - Count(w)), NoEffect, |w|, false)
      else Outcome(c, Error, |w|, false)
    case CursorUp =>
      var r := RowUp(c, Count(w));
      if r >= 0 then Outcome(c.(pos := r), NoEffect, |w|, false)
      else Outcome(c.(pos := 0), CmdRebuild, |w|, false)
    case EraseInLine =>
      var n := ParseDigits(w);
      if n == 0 then Outcome(WipedRight(c), NoEffect, |w|, false)
      else if n == 2 then Outcome(WipedAll(c), NoEffect, |w|, false)
      else Outcome(c, Error, |w|, false)
    case DeleteChars =>
      if c.pos + Count(w) <= |c.data| then Outcome(Deleted(c, Count(w)), NoEffect, |w|, false)
      else Outcome(c, Error, |w|, false)
    case InsertBlanks => Outcome(Inserted(c, ' ', Count(w)), NoEffect, |w|, false)
    case Bell => Outcome(c, NoEffect, |w|, false)
  }

  /** What a scan carries besides the bytes still open. */
  datatype Core = Core(pl: Level, ss: ShellStatus, cmd: Cmd)

  /** The reaction to an effect: the next level and status, and the line cleared when a
      prompt starts afresh or the scan is lost. */
  function Reacted(effect: Effect, s: Core): Core {
    match effect
    case Error => Core(Executing, SsLost, Cleared(s.cmd))
    case NoEffect => s
    case CmdExecuted => s.(pl := Executing, ss := SsExecuting)
    case CmdStarted =>
      var c := if s.cmd.rebuilding then s.cmd.(rebuilding := false) else Cleared(s.cmd);
      Core(AtPrompt, SsPrompt, c)
    case CmdRebuild => Core(Executing, SsExecuting, s.cmd.(rebuilding := true))
    case PwdChanged => s
    case RpromptStarted => s.(pl := AtRprompt, cmd := s.cmd.(rebuilding := true))
  }

  // ----- the handlers -----

  ghost function SegmentOf(b: Connection): (w: string)
    requires b.Valid() && b.pos + b.seglen < b.filled
    reads b, b.buf
    ensures |w| == b.seglen + 1
  {
    b.Text()[b.pos..b.pos + b.seglen + 1]
  }

  /** The contract every handler meets: its effect, the new line, and the segment either
      stepped over or cut out of the buffer. */
  twostate predicate Handled(sh: Shell, id: SeqId, b: Connection, cmd: CmdLine, effect: Effect)
    requires old(b.Valid() && b.pos + b.seglen < b.filled && Ok(cmd.Value()))
    requires old(PeeksOne(id) || id == NewPwd ==> b.seglen >= 1)
    reads b, b.buf, cmd
  {
    var o := old(Handle(sh, id, cmd.Value(), SegmentOf(b)));
    && b.Valid() && b.seglen == 0
    && cmd.Value() == o.cmd && effect == o.effect
    && b.pl == old(b.pl) && b.ss == old(b.ss)
    && if o.eaten then b.pos == old(b.pos) && b.Text() == old(b.Text()[..b.pos] + b.Text()[b.pos + b.seglen + 1..])
       else b.pos == old(b.pos) + o.taken && b.Text() == old(b.Text())
  }

  method SeqPwd(b: Connection, cmd: CmdLine, sh: Shell) returns (effect: Effect)
    requires b.Valid() && 1 <= b.seglen && b.pos + b.seglen < b.filled && Ok(cmd.Value())
    modifies b`filled, b`seglen, b.buf, cmd`pwd
    ensures Handled(sh, NewPwd, b, cmd, effect)
  {
    hide WipedRight, WipedAll, ParseDigits, CrRight, CrLeft, RowUp, ParsePwd, Inserted, Deleted, Overwritten, Pattern;
    var w := b.buf[b.pos..b.pos + b.seglen + 1];
    assert w == SegmentOf(b);
    cmd.pwd := Some(ParsePwd(w));
    b.EatSegment();
    return PwdChanged;
  }

  /** A wrapped row adds a carriage return at the cursor, unless a newline is awaited. */
  method SeqCmdWrapped(b: Connection, cmd: CmdLine, sh: Shell) returns (effect: Effect)
    requires b.Valid() && 1 <= b.seglen && b.pos + b.seglen < b.filled && Ok(cmd.Value())
    modifies b`pos, b`seglen, cmd
    ensures Handled(sh, CmdWrapped, b, cmd, effect)
  {
    hide WipedRight, WipedAll, ParseDigits, CrRight, CrLeft, RowUp, ParsePwd, Inserted, Deleted, Overwritten, Pattern;
    if cmd.expectNewline {
      effect := CmdExecuted;
    } else {
      cmd.OverwriteChar(CR);
      effect := NoEffect;
    }
    b.seglen := b.seglen - 1;
    b.PassSegment();
  }

  method SeqBackspace(b: Connection, cmd: CmdLine, sh: Shell) returns (effect: Effect)
    requires b.Valid() && b.pos + b.seglen < b.filled && Ok(cmd.Value())
    modifies b`pos, b`seglen, cmd`pos
    ensures Handled(sh, Backspace, b, cmd, effect)
  {
    hide WipedRight, WipedAll, ParseDigits, CrRight, CrLeft, RowUp, ParsePwd, Inserted, Deleted, Overwritten, Pattern;
    var ok := cmd.Backward(1, true);
    effect := if ok then NoEffect else Error;
    b.PassSegment();
  }

  method SeqCursorForward(b: Connection, cmd: CmdLine, sh: Shell) returns (effect: Effect)
    requires b.Valid() && b.pos + b.seglen < b.filled && Ok(cmd.Value())
    modifies b`pos, b`seglen, cmd
    ensures Handled(sh, CursorForward, b, cmd, effect)
  {
    hide WipedRight, WipedAll, ParseDigits, CrRight, CrLeft, RowUp, ParsePwd, Inserted, Deleted, Overwritten, Pattern;
    var w := b.buf[b.pos..b.pos + b.seglen + 1];
    assert w == SegmentOf(b);
    var n := Count(w);
    effect := NoEffect;
    var ok := cmd.Forward(n, true);
    if !ok {
      if sh == Zsh {
        ok := cmd.Forward(n - 1, false);
        if ok {
          cmd.OverwriteChar(' ');
        } else {
          cmd.rebuilding := true;
          effect := RpromptStarted;
        }
      } else {
        effect := CmdExecuted;
      }
    }
    b.PassSegment();
  }

  method SeqCursorBackward(b: Connection, cmd: CmdLine, sh: Shell) returns (effect: Effect)
    requires b.Valid() && b.pos + b.seglen < b.filled && Ok(cmd.Value())
    modifies b`pos, b`seglen, cmd`pos
    ensures Handled(sh, CursorBackward, b, cmd, effect)
  {
    hide WipedRight, WipedAll, ParseDigits, CrRight, CrLeft, RowUp, ParsePwd, Inserted, Deleted, Overwritten, Pattern;
    var w := b.buf[b.pos..b.pos + b.seglen + 1];
    assert w == SegmentOf(b);
    var ok := cmd.Backward(Count(w), true);
    effect := if ok then NoEffect else Error;
    b.PassSegment();
  }

  method SeqDeleteChars(b: Connection, cmd: CmdLine, sh: Shell) returns (effect: Effect)
    requires b.Valid() && b.pos + b.seglen < b.filled && Ok(cmd.Value())
    modifies b`pos, b`seglen, cmd`data
    ensures Handled(sh, DeleteChars, b, cmd, effect)
  {
    hide WipedRight, WipedAll, ParseDigits, CrRight, CrLeft, RowUp, ParsePwd, Inserted, Deleted, Overwritten, Pattern;
    var w := b.buf[b.pos..b.pos + b.seglen + 1];
    assert w == SegmentOf(b);
    var ok := cmd.DelChars(Count(w));
    effect := if ok then NoEffect else Error;
    b.PassSegment();
  }

  method SeqInsertBlanks(b: Connection, cmd: CmdLine, sh: Shell) returns (effect: Effect)
    requires b.Valid() && b.pos + b.seglen < b.filled && Ok(cmd.Value())
    modifies b`pos, b`seglen, cmd`data
    ensures Handled(sh, InsertBlanks, b, cmd, effect)
  {
    hide WipedRight, WipedAll, ParseDigits, CrRight, CrLeft, RowUp, ParsePwd, Inserted, Deleted, Overwritten, Pattern;
    var w := b.buf[b.pos..b.pos + b.seglen + 1];
    assert w == SegmentOf(b);
    var ok := cmd.InsertChars(' ', Count(w));
    effect := if ok then NoEffect else Error;
    b.PassSegment();
  }

  method SeqEraseInLine(b: Connection, cmd: CmdLine, sh: Shell) returns (effect: Effect)
    requires b.Valid() && b.pos + b.seglen < b.filled && Ok(cmd.Value())
    modifies b`pos, b`seglen, cmd`data, cmd`pos
    ensures Handled(sh, EraseInLine, b, cmd, effect)
  {
    hide WipedRight, WipedAll, ParseDigits, CrRight, CrLeft, RowUp, ParsePwd, Inserted, Deleted, Overwritten, Pattern;
    var w := b.buf[b.pos..b.pos + b.seglen + 1];
    assert w == SegmentOf(b);
    var ok := cmd.WipeInLine(ParseDigits(w));
    effect := if ok then NoEffect else Error;
    b.PassSegment();
  }

  method CrBack(data: string, p: nat, n: nat) returns (r: int)
    requires p <= |data|
    ensures r == NthCrLeft(data, p, n)
  {
    r := p;
    var i := 0;
    while i < n && r >= 0
      invariant 0 <= i <= n && -1 <= r <= p
      invariant NthCrLeft(data, p, n) == if r < 0 then -1 else NthCrLeft(data, r, n - i)
    {
      r := CrLeft(data, r);
      i := i + 1;
    }
  }

  /** Look for the carriage return before the wanted row, and failing that for the one
      after it. */
  method FindRowUp(cmd: CmdLine, n: nat) returns (target: int)
    requires Ok(cmd.Value())
    ensures target == RowUp(cmd.Value(), n)
  {
    var last := CrLeft(cmd.data, cmd.pos);
    var next := CrRight(cmd.Value());
    if last < 0 && next < 0 {
      return -1;
    }
    if last >= 0 {
      var start := CrBack(cmd.data, cmd.pos, n + 1);
      if start >= 0 {
        return start + (cmd.pos - last);
      }
    }
    if next >= 0 {
      var end := CrBack(cmd.data, cmd.pos, n);
      if end >= 0 && end - (next - cmd.pos) >= 0 {
        return end - (next - cmd.pos);
      }
    }
    return -1;
  }

  method SeqCursorUp(b: Connection, cmd: CmdLine, sh: Shell) returns (effect: Effect)
    requires b.Valid() && b.pos + b.seglen < b.filled && Ok(cmd.Value())
    modifies b`pos, b`seglen, cmd`pos
    ensures Handled(sh, CursorUp, b, cmd, effect)
  {
    hide WipedRight, WipedAll, ParseDigits, CrRight, CrLeft, RowUp, ParsePwd, Inserted, Deleted, Overwritten, Pattern;
    var w := b.buf[b.pos..b.pos + b.seglen + 1];
    assert w == SegmentOf(b);
    var target := FindRowUp(cmd, Count(w));
    if target >= 0 {
      effect := NoEffect;
      cmd.pos := target;
    } else {
      effect := CmdRebuild;
      cmd.pos := 0;
    }
    b.PassSegment();
  }

  method SeqCarriageReturn(b: Connection, cmd: CmdLine, sh: Shell) returns (effect: Effect)
    requires b.Valid() && 1 <= b.seglen && b.pos + b.seglen < b.filled && Ok(cmd.Value())
    modifies b`pos, b`seglen, cmd`pos
    ensures Handled(sh, CarriageReturn, b, cmd, effect)
  {
    hide WipedRight, WipedAll, ParseDigits, CrRight, CrLeft, RowUp, ParsePwd, Inserted, Deleted, Overwritten, Pattern;
    if cmd.expectNewline {
      effect := CmdExecuted;
      b.PassSegment();
    } else {
      var p := CrLeft(cmd.data, cmd.pos);
      if p < 0 {
        cmd.pos := 0;
        effect := CmdRebuild;
      } else {
        cmd.pos := p + 1;
        effect := NoEffect;
      }
      b.seglen := b.seglen - 1;
      b.PassSegment();
    }
  }

  /** A newline past the end of the line is a wrap, unless one is awaited. */
  method SeqNewline(b: Connection, cmd: CmdLine, sh: Shell) returns (effect: Effect)
    requires b.Valid() && b.pos + b.seglen < b.filled && Ok(cmd.Value())
    modifies b`pos, b`seglen, cmd
    ensures Handled(sh, Newline, b, cmd, effect)
  {
    hide WipedRight, WipedAll, ParseDigits, CrRight, CrLeft, RowUp, ParsePwd, Inserted, Deleted, Overwritten, Pattern;
    var p := CrRight(cmd.Value());
    if p < 0 {
      if cmd.expectNewline {
        effect := CmdExecuted;
      } else {
        cmd.pos := |cmd.data|;
        cmd.OverwriteChar(CR);
        effect := NoEffect;
      }
    } else {
      cmd.pos := p + 1;
      effect := NoEffect;
    }
    b.PassSegment();
  }

  method RunHandler(sh: Shell, id: SeqId, b: Connection, cmd: CmdLine) returns (effect: Effect)
    requires b.Valid() && b.pos + b.seglen < b.filled && Ok(cmd.Value())
    requires PeeksOne(id) || id == NewPwd ==> b.seglen >= 1
    modifies b`filled, b`pos, b`seglen, b.buf, cmd
    ensures Handled(sh, id, b, cmd, effect)
  {
    match id
    case Ps1Separator => b.PassSegment(); effect := CmdStarted;
    case RpromptStart => b.PassSegment(); effect := RpromptStarted;
    case RpromptEnd => b.PassSegment(); effect := CmdStarted;
    case NewPwd => effect := SeqPwd(b, cmd, sh);
    case ZshCompletionDone => cmd.rebuilding := true; b.PassSegment(); effect := NoEffect;
    case CmdWrapped => effect := SeqCmdWrapped(b, cmd, sh);
    case CarriageReturn => effect := SeqCarriageReturn(b, cmd, sh);
    case Newline => effect := SeqNewline(b, cmd, sh);
    case Backspace => effect := SeqBackspace(b, cmd, sh);
    case CursorForward => effect := SeqCursorForward(b, cmd, sh);
    case CursorBackward => effect := SeqCursorBackward(b, cmd, sh);
    case CursorUp => effect := SeqCursorUp(b, cmd, sh);
    case EraseInLine => effect := SeqEraseInLine(b, cmd, sh);
    case DeleteChars => effect := SeqDeleteChars(b, cmd, sh);
    case InsertBlanks => effect := SeqInsertBlanks(b, cmd, sh);
    case Bell => b.PassSegment(); effect := NoEffect;
  }

  method AnalyzeEffect(effect: Effect, b: Connection, cmd: CmdLine)
    modifies b`pl, b`ss, cmd
    ensures Core(b.pl, b.ss, cmd.Value()) == Reacted(effect, old(Core(b.pl, b.ss, cmd.Value())))
  {
    match effect
    case Error =>
      cmd.Clear();
      b.pl := Executing;
      b.ss := SsLost;
    case NoEffect =>
    case CmdExecuted =>
      b.pl := Executing;
      b.ss := SsExecuting;
    case CmdStarted =>
      if cmd.rebuilding {
        cmd.rebuilding := false;
      } else {
        cmd.Clear();
      }
      b.pl := AtPrompt;
      b.ss := SsPrompt;
    case CmdRebuild =>
      cmd.rebuilding := true;
      b.pl := Executing;
      b.ss := SsExecuting;
    case PwdChanged =>
    case RpromptStarted =>
      cmd.rebuilding := true;
      b.pl := AtRprompt;
  }
}
