/** What a shell echoes while a line is edited, from the bytes it writes to the row they
    draw on the terminal (ECMA-48, section 8.3). */
module Echoes {
  import opened Bytes
  import opened Patterns
  import opened CmdLines
  import opened Connections
  import opened Sequences
  import opened Scanning
  import opened ShellMachine
  import opened PromptWords
  import opened ShellRuns
  import opened Announcements
  import opened TerminalRow
  import opened RowMoves
  import opened Levels
  import Listings

  /** The bytes that ask a terminal for an edit. */
  function Written(e: Edit): string {
    match e
    case Print(ch) => [ch]
    case Bs => [BS]
    case Cub(n) => Numbered(0, n, 'D')
    case Cuf(n) => Numbered(0, n, 'C')
    case Ich(n) => Numbered(0, n, '@')
    case Dch(n) => Numbered(0, n, 'P')
    case El0 => [ESC, '[', 'K']
  }

  function WrittenAll(es: seq<Edit>): string {
    if es == [] then "" else Written(es[0]) + WrittenAll(es[1..])
  }

  /** What is printed begins no sequence, and a control function is asked for at least
      once. */
  predicate Echoed(e: Edit) {
    match e
    case Print(ch) => Typeable([ch])
    case Bs => true
    case Cub(n) => n > 0
    case Cuf(n) => n > 0
    case Ich(n) => n > 0
    case Dch(n) => n > 0
    case El0 => true
  }

  function SequenceOf(e: Edit): SeqId
    requires !e.Print?
  {
    match e
    case Bs => Backspace
    case Cub(_) => CursorBackward
    case Cuf(_) => CursorForward
    case Ich(_) => InsertBlanks
    case Dch(_) => DeleteChars
    case El0 => EraseInLine
  }

  lemma InGroup(sh: Shell, e: Edit)
    requires !e.Print?
    ensures SequenceOf(e) in Group(sh, AtPrompt) && AtThePrompt(SequenceOf(e))
  {
  }

  lemma NumberedCsi(n: nat, final: char)
    ensures IsCsi(Numbered(0, n, final), final) && IsCsi([ESC, '[', final], final)
  {
    hide Listings.Digits;
    var w, ds := Numbered(0, n, final), Copies('0', 0) + Listings.Digits(n);
    assert w[2..|w| - 1] == ds == Listings.Digits(n);
    forall i | 0 <= i < |ds| ensures IsDigit(ds[i]) {
      assert ds[i] in Listings.Digits(n);
    }
  }

  predicate IsControl(e: Edit) {
    !e.Print? && !e.Bs?
  }

  function FinalOf(e: Edit): char
    requires IsControl(e)
  {
    match e
    case Cub(_) => 'D'
    case Cuf(_) => 'C'
    case Ich(_) => '@'
    case Dch(_) => 'P'
    case El0 => 'K'
  }

  lemma WrittenCsi(e: Edit)
    requires IsControl(e)
    ensures IsCsi(Written(e), FinalOf(e)) && FinalOf(e) in FINALS
  {
    hide Numbered, IsCsi;
    match e
    case Cub(n) => NumberedCsi(n, 'D');
    case Cuf(n) => NumberedCsi(n, 'C');
    case Ich(n) => NumberedCsi(n, '@');
    case Dch(n) => NumberedCsi(n, 'P');
    case El0 => NumberedCsi(0, 'K');
  }

  lemma WrittenIs(e: Edit)
    requires !e.Print?
    ensures IsWord(SequenceOf(e), Written(e)) && Written(e) != ""
  {
    hide Numbered, Pattern;
    if IsControl(e) {
      WrittenCsi(e);
    }
  }

  lemma NoSeparator(q: SeqId, w: string, final: char)
    requires q == Ps1Separator || q == RpromptStart
    requires IsCsi(w, final)
    ensures w != Pattern(q)
  {
    Settled22(q);
    hide Pattern;
    if |w| == 22 {
      assert w[2..|w| - 1][1] == w[3];
    }
  }

  function OwnerOf(final: char): SeqId {
    if final == 'A' then CursorUp else if final == 'C' then CursorForward else if final == 'D' then CursorBackward
    else if final == 'K' then EraseInLine else if final == 'P' then DeleteChars else InsertBlanks
  }

  /** A control sequence is told by its final byte. */
  lemma CsiOwner(w: string, final: char, q: SeqId)
    requires final in FINALS && IsCsi(w, final) && AtThePrompt(q)
    ensures IsWord(q, w) ==> q == OwnerOf(final)
  {
    if q == Ps1Separator || q == RpromptStart {
      NoSeparator(q, w, final);
    }
    hide Pattern, AllDigits;
    assert w[..2][0] == w[0];
  }

  lemma OnlyOne(e: Edit, q: SeqId)
    requires !e.Print? && AtThePrompt(q) && q != SequenceOf(e)
    ensures !Word(Pattern(q), Written(e))
  {
    WordIs(q, Written(e));
    WordIs(SequenceOf(e), Written(e));
    WrittenIs(e);
    hide Word, Pattern, IsWord, Written;
    if e.Bs? {
      BackspaceWritten();
      if Word(Pattern(q), [BS]) { OneOwner(Backspace, q, [BS]); }
    } else {
      WrittenCsi(e);
      CsiOwner(Written(e), FinalOf(e), q);
    }
  }

  lemma BackspaceWritten()
    ensures Written(Bs) == [BS]
  {
  }

  // ----- one edit -----

  lemma CarriedBy(e: Edit)
    requires !e.Print? && Echoed(e)
    ensures Carried(SequenceOf(e), Written(e)) == Some(e)
  {
    hide Numbered, ParseDigits;
    match e
    case Cub(n) => EditsTold(0, n);
    case Cuf(n) => EditsTold(0, n);
    case Ich(n) => EditsTold(0, n);
    case Dch(n) => EditsTold(0, n);
    case El0 => EditsTold(0, 0);
    case Bs =>
  }

  /** An edit that is not refused keeps carriage returns out. */
  lemma EditPlain(c: Cmd, e: Edit)
    requires Ok(c) && CR !in c.data && Plain(e) && Edited(c, e).Some?
    ensures CR !in Edited(c, e).value.data
  {
    hide Edited;
    EditShows(c, Row((i: nat) => CellAt(c.data, i), c.pos), e);
  }

  lemma PassedOver(sh: Shell, id: SeqId, c: Cmd, w: string)
    requires Ok(c) && w != "" && Carried(id, w).Some?
    ensures Handle(sh, id, c, w).taken == |w| && !Handle(sh, id, c, w).eaten
  {
  }

  lemma EditCompletes(sh: Shell, s: Live, e: Edit)
    requires !e.Print? && Echoed(e) && Edited(s.cmd, e).Some? && Written(e) != ""
    ensures var o := Handle(sh, SequenceOf(e), s.cmd, Written(e)); o.taken == |Written(e)| && !o.eaten
    ensures Completed(sh, SequenceOf(e), s, Written(e)) == s.(cmd := Edited(s.cmd, e).value)
  {
    CarriedBy(e);
    hide Written, Edited, Carried, Handle;
    PassedOver(sh, SequenceOf(e), s.cmd, Written(e));
    HandlersEdit(sh, SequenceOf(e), s.cmd, Written(e));
  }

  /** Scanning the bytes of an edit does the edit and nothing else, whatever follows. */
  lemma ControlScanned(sh: Shell, s: Live, e: Edit, u: string)
    requires s.pl == AtPrompt && CR !in s.cmd.data && !e.Print? && Echoed(e) && Edited(s.cmd, e).Some?
    ensures Scan<Live>(Shellwise(sh), s, "", Written(e) + u)
            == Then(Kept(Written(e)), Scan<Live>(Shellwise(sh), s.(cmd := Edited(s.cmd, e).value), "", u))
  {
    var id, w := SequenceOf(e), Written(e);
    WrittenIs(e);
    WordIs(id, w);
    hide Group, Pattern, Word, Fires, Alive, Scan, Shellwise, Trimmed, Written, Edited, Handle, Completed, IsWord;
    InGroup(sh, e);
    PromptGroup(sh);
    forall q | q in Group(sh, AtPrompt) && q != id ensures !Word(Pattern(q), w) {
      OnlyOne(e, q);
    }
    PromptWord(sh, id, w);
    UndecidedMore(Group(sh, AtPrompt), w, u);
    var inp := w + u;
    assert inp[..|w|] == w && inp[|w|..] == u;
    TrimmedPlain(s.cmd);
    SegmentNext(sh, s, inp, |w|);
    EditCompletes(sh, s, e);
  }

  lemma AfterSpace(sh: Shell, x: char)
    requires x != CR
    ensures var g := Group(sh, AtPrompt); Fires(g, [' ', x]) == None && !Alive(g, [' ', x])
  {
    hide Group, Pattern, Word;
    PromptGroup(sh);
    var g, w := Group(sh, AtPrompt), [' ', x];
    forall id, v: string | id in g ensures !Word(Pattern(id), w + v) {
      assert (w + v)[0] == ' ' && (w + v)[1] == x;
      if Word(Pattern(id), w + v) { PromptFront(id, w + v); }
    }
    assert w + "" == w;
    assert forall id :: id in g ==> !Word(Pattern(id), w + "");
  }

  lemma SpaceScanned(sh: Shell, s: Live, u: string)
    requires s.pl == AtPrompt && CR !in s.cmd.data && u != "" && u[0] != CR
    ensures Scan<Live>(Shellwise(sh), s, "", " " + u)
            == Then(Kept(" "), Scan<Live>(Shellwise(sh), s.(cmd := Overwritten(s.cmd, ' ')), "", u))
  {
    hide React, Trimmed, Scan, Group, Fires, Alive, Overwritten, Shellwise;
    var m, inp, w := Shellwise(sh), " " + u, [' ', u[0]];
    TrimmedPlain(s.cmd);
    TypeableReacts(sh, s, " ");
    AfterSpace(sh, u[0]);
    ReactCases(sh, s, w);
    assert inp[0] == ' ' && inp[1..] == u && "" + [' '] == " " && " " + [u[0]] == w && w[1..] + u[1..] == u;
    ScanGrows<Live>(m, s, "", inp, Grow(s));
    ScanOne<Live>(m, s, " ", u, Drop(Typed(s, ' ')));
  }

  /** A byte printed is typed into the line, unless it is a space that nothing follows. */
  lemma PrintScanned(sh: Shell, s: Live, ch: char, u: string)
    requires s.pl == AtPrompt && CR !in s.cmd.data && Typeable([ch])
    requires ch == ' ' ==> u != "" && u[0] != CR
    ensures Scan<Live>(Shellwise(sh), s, "", [ch] + u)
            == Then(Kept([ch]), Scan<Live>(Shellwise(sh), s.(cmd := Overwritten(s.cmd, ch)), "", u))
  {
    hide React, Trimmed, Scan, Typeable, Overwritten, Shellwise;
    if ch == ' ' {
      SpaceScanned(sh, s, u);
      assert [ch] == " ";
    } else {
      var inp := [ch] + u;
      TrimmedPlain(s.cmd);
      TypeableReacts(sh, s, [ch]);
      assert inp[0] == ch && inp[1..] == u && "" + [ch] == [ch] && [ch][1..] + u == u;
      ScanOne<Live>(Shellwise(sh), s, "", inp, Drop(Typed(s, ch)));
    }
  }

  // ----- a series of edits -----

  lemma {:induction false} WrittenPlain(es: seq<Edit>)
    requires forall e :: e in es ==> Echoed(e)
    ensures (es == [] <==> WrittenAll(es) == "") && (es != [] ==> WrittenAll(es)[0] != CR)
  {
    hide Numbered;
    if es != [] {
      assert es[0] in es;
      FirstWritten(es[0]);
    }
  }

  lemma FirstWritten(e: Edit)
    requires Echoed(e)
    ensures Written(e) != "" && Written(e)[0] != CR
  {
    if e.Print? { assert e.ch in [e.ch]; }
  }

  lemma EchoEnds(sh: Shell, s: Live)
    requires s.pl == AtPrompt
    ensures var r := Settled(Scan<Live>(Shellwise(sh), s, "", "")); r.open == "" && r.state == s
  {
  }

  lemma LastSpace(sh: Shell, s: Live)
    requires s.pl == AtPrompt && CR !in s.cmd.data
    ensures var r := Settled(Scan<Live>(Shellwise(sh), s, "", " "));
            r.open == "" && r.state == s.(cmd := Overwritten(s.cmd, ' '))
  {
    TypedScan(sh, s, "", " ");
    CoveredMore(s.cmd, ' ', "");
    CoveredNothing(Overwritten(s.cmd, ' '));
    assert [' '] + "" == " " && "" + " " == " ";
  }

  /** No edit is refused. */
  predicate Granted(c: Cmd, es: seq<Edit>)
    requires Ok(c)
  {
    Followed(c, es).0 == |es|
  }

  lemma {:induction false} EchoScanned(sh: Shell, s: Live, es: seq<Edit>)
    requires s.pl == AtPrompt && CR !in s.cmd.data && (forall e :: e in es ==> Echoed(e)) && Granted(s.cmd, es)
    ensures var r := Settled(Scan<Live>(Shellwise(sh), s, "", WrittenAll(es)));
            r.open == "" && r.state == s.(cmd := Followed(s.cmd, es).1)
    decreases |es|
  {
    hide Scan, Shellwise, Settled, Edited, Written, Echoed;
    if es == [] {
      EchoEnds(sh, s);
    } else {
      var e, rest := es[0], es[1..];
      assert e in es;
      var t := s.(cmd := Edited(s.cmd, e).value);
      EchoedPlain(e);
      EditPlain(s.cmd, e);
      EchoScanned(sh, t, rest);
      EditScanned(sh, s, e, rest);
    }
  }

  lemma EchoedPlain(e: Edit)
    requires Echoed(e)
    ensures Plain(e)
  {
    if e.Print? { assert e.ch in [e.ch]; }
  }

  lemma EditScanned(sh: Shell, s: Live, e: Edit, rest: seq<Edit>)
    requires s.pl == AtPrompt && CR !in s.cmd.data && Echoed(e) && (forall x :: x in rest ==> Echoed(x)) && Edited(s.cmd, e).Some?
    ensures var r, q := Settled(Scan<Live>(Shellwise(sh), s, "", Written(e) + WrittenAll(rest))),
                        Settled(Scan<Live>(Shellwise(sh), s.(cmd := Edited(s.cmd, e).value), "", WrittenAll(rest)));
            r.open == q.open && r.state == q.state
  {
    hide Scan, Shellwise, Settled, Overwritten, Echoed, WrittenAll;
    WrittenPlain(rest);
    var t, u := s.(cmd := Edited(s.cmd, e).value), WrittenAll(rest);
    if e == Print(' ') && u == "" {
      LastSpace(sh, s);
      EchoEnds(sh, t);
      assert Written(e) + u == " ";
    } else {
      if e.Print? {
        PrintTypeable(e);
        PrintScanned(sh, s, e.ch, u);
      } else {
        ControlScanned(sh, s, e, u);
      }
      SettledThen(Kept(Written(e)), Scan<Live>(Shellwise(sh), t, "", u));
    }
  }

  lemma PrintTypeable(e: Edit)
    requires Echoed(e) && e.Print?
    ensures Typeable([e.ch])
  {
  }

  /** From the bytes to the screen: when a shell at its prompt writes the bytes of any series
      of edits that is nowhere refused, the line afterwards is the row that those edits draw
      on the terminal. */
  lemma EchoShows(sh: Shell, s: Session, t: Row, es: seq<Edit>)
    requires s.core.pl == AtPrompt && s.open == "" && CR !in s.core.cmd.data && Shows(s.core.cmd, t)
    requires (forall e :: e in es ==> Echoed(e)) && Granted(s.core.cmd, es)
    ensures var r := Turn(sh, s, WrittenAll(es));
            && r.open == "" && r.core == s.core.(cmd := Followed(s.core.cmd, es).1)
            && Shows(r.core.cmd, DisplayedAll(t, es))
  {
    hide Scan, Shellwise, Settled, Shows, Followed, Echoed;
    EchoScanned(sh, s.core, es);
    forall e | e in es ensures Plain(e) {
      EchoedPlain(e);
    }
    RowSimulation(s.core.cmd, t, es);
    assert es[..|es|] == es;
  }
}
