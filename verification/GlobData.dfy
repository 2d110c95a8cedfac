/** The display's reading of a listing: a state machine over the text, what each state
    tells the display, and that it tells exactly what was printed. */
module GlobData {
  import opened Bytes
  import opened Listings

  /** What the display is told: a new listing begins, a directory (its name still marked
      when it is the working directory) with its counts, a file of that directory. */
  datatype Event =
    | Begin
    | DirEvent(name: string, selected: string, total: string, hidden: string)
    | FileEvent(name: string, fileType: FileType, selection: FileSelection)

  datatype State =
    | Done
    | SelectedCount
    | FileCount(selected: string)
    | HiddenCount(selected: string, total: string)
    | DirName(selected: string, total: string, hidden: string)
    | InLimbo
    | FileState
    | FileTypeOf(selection: FileSelection)
    | FileName(selection: FileSelection, fileType: FileType)

  function MapSelectionState(c: char): (s: FileSelection)
    ensures forall t :: SelectionChar(t) == c ==> s == t
  {
    if c == '-' then FsNo else if c == '~' then FsMaybe else if c == '*' then FsYes else FsNo
  }

  function MapFileType(c: char): (t: FileType)
    ensures forall u :: TypeChar(u) == c ==> t == u
  {
    if c == 'r' then FtRegular
    else if c == 'e' then FtExecutable
    else if c == 'd' then FtDirectory
    else if c == 'y' then FtSymlink
    else if c == 'b' then FtBlockdev
    else if c == 'c' then FtChardev
    else if c == 'f' then FtFifo
    else if c == 's' then FtSocket
    else FtRegular
  }

  /** The first character of a C string. */
  function First(s: string): char {
    if s == "" then NUL else s[0]
  }

  /** The text up to a delimiter, and the text after it. */
  function UpTo(s: string, c: char): (r: Option<(string, string)>)
    ensures r.Some? ==> c !in r.value.0 && s == r.value.0 + [c] + r.value.1
  {
    var i := FirstOf(s, c);
    if i < 0 then None else Some((s[..i], s[i + 1..]))
  }

  lemma UpToIs(a: string, c: char, b: string)
    requires c !in a
    ensures UpTo(a + [c] + b, c) == Some((a, b))
  {
    var s := a + [c] + b;
    assert s[..|a|] == a && s[|a| + 1..] == b;
    FirstOfAt(s, c, |a|);
  }

  function Then(e: Event, rest: Option<seq<Event>>): Option<seq<Event>> {
    if rest.None? then None else Some([e] + rest.value)
  }

  /** What reading `s` from a state on tells the display; nothing when a delimiter is
      missing. */
  function Events(rs: State, s: string): Option<seq<Event>>
    decreases |s|, if rs.InLimbo? then 2 else if rs.Done? then 1 else 0
  {
    if s == "" then Some([])
    else match rs
      case Done => Then(Begin, Events(SelectedCount, s))
      case SelectedCount => (match UpTo(s, ' ') case None => None case Some(r) => Events(FileCount(r.0), r.1))
      case FileCount(a) => (match UpTo(s, ' ') case None => None case Some(r) => Events(HiddenCount(a, r.0), r.1))
      case HiddenCount(a, b) => (match UpTo(s, ' ') case None => None case Some(r) => Events(DirName(a, b, r.0), r.1))
      case DirName(a, b, c) =>
        (match UpTo(s, LF) case None => None case Some(r) => Then(DirEvent(r.0, a, b, c), Events(InLimbo, r.1)))
      case InLimbo =>
        if s[0] == '\t' then Events(FileState, s[1..])
        else if s[0] == LF then Events(Done, s[1..])
        else Events(SelectedCount, s)
      case FileState =>
        (match UpTo(s, ' ') case None => None case Some(r) => Events(FileTypeOf(MapSelectionState(First(r.0))), r.1))
      case FileTypeOf(sel) =>
        (match UpTo(s, ' ') case None => None case Some(r) => Events(FileName(sel, MapFileType(First(r.0))), r.1))
      case FileName(sel, t) =>
        (match UpTo(s, LF) case None => None case Some(r) => Then(FileEvent(r.0, t, sel), Events(InLimbo, r.1)))
  }

  // ----- what was printed is what is read -----

  function FileEvents(fs: seq<File>): seq<Event> {
    if fs == [] then []
    else (if fs[0].shown then [FileEvent(fs[0].name, fs[0].fileType, fs[0].selected)] else []) + FileEvents(fs[1..])
  }

  function DirEvents(d: Dir): seq<Event> {
    [DirEvent((if d.isPwd then [PWD_CHAR] else "") + d.name,
              Decimal(d.selectedCount), Decimal(d.fileCount), Decimal(d.hiddenCount))]
    + FileEvents(d.files)
  }

  function DirsEvents(ds: seq<Dir>): seq<Event> {
    if ds == [] then [] else DirEvents(ds[0]) + DirsEvents(ds[1..])
  }

  function Before(es: seq<Event>, rest: Option<seq<Event>>): Option<seq<Event>> {
    if rest.None? then None else Some(es + rest.value)
  }

  lemma BeforeNothing(es: Option<seq<Event>>)
    ensures Before([], es) == es
  {
    if es.Some? {
      assert [] + es.value == es.value;
    }
  }

  lemma BeforeBoth(a: seq<Event>, b: seq<Event>, es: Option<seq<Event>>)
    ensures Before(a, Before(b, es)) == Before(a + b, es)
  {
    if es.Some? {
      assert a + (b + es.value) == (a + b) + es.value;
    }
  }

  lemma FileLineRead(f: File, more: string)
    requires PlainName(f.name) && f.shown
    ensures Events(InLimbo, FileLine(f) + more)
            == Then(FileEvent(f.name, f.fileType, f.selected), Events(InLimbo, more))
  {
    hide UpTo;
    var s3 := f.name + [LF] + more;
    var s2 := [TypeChar(f.fileType)] + [' '] + s3;
    var s1 := [SelectionChar(f.selected)] + [' '] + s2;
    assert FileLine(f) + more == ['\t'] + s1;
    assert (['\t'] + s1)[1..] == s1;
    UpToIs([SelectionChar(f.selected)], ' ', s2);
    UpToIs([TypeChar(f.fileType)], ' ', s3);
    UpToIs(f.name, LF, more);
    assert Events(FileState, s1) == Events(FileTypeOf(f.selected), s2);
    assert Events(FileTypeOf(f.selected), s2) == Events(FileName(f.selected, f.fileType), s3);
  }

  lemma {:induction false} FileLinesRead(fs: seq<File>, more: string)
    requires forall f :: f in fs ==> PlainName(f.name)
    ensures Events(InLimbo, FileLines(fs) + more) == Before(FileEvents(fs), Events(InLimbo, more))
  {
    hide Events, FileLine;
    if fs == [] {
      assert FileLines(fs) + more == more;
      BeforeNothing(Events(InLimbo, more));
    } else {
      assert fs[0] in fs;
      FileLinesRead(fs[1..], more);
      var rest := FileLines(fs[1..]) + more;
      assert FileLines(fs) + more == FileLine(fs[0]) + rest;
      if fs[0].shown {
        FileLineRead(fs[0], rest);
        BeforeBoth([FileEvent(fs[0].name, fs[0].fileType, fs[0].selected)], FileEvents(fs[1..]), Events(InLimbo, more));
      } else {
        NotShown(fs[0], rest);
        assert [] + FileEvents(fs[1..]) == FileEvents(fs[1..]);
      }
    }
  }

  lemma NotShown(f: File, rest: string)
    requires !f.shown
    ensures FileLine(f) + rest == rest
  {
  }

  lemma HeadingRead(d: Dir, more: string)
    requires PlainName(d.name)
    ensures Events(SelectedCount, Heading(d) + more)
            == Then(DirEvent((if d.isPwd then [PWD_CHAR] else "") + d.name,
                             Decimal(d.selectedCount), Decimal(d.fileCount), Decimal(d.hiddenCount)),
                    Events(InLimbo, more))
  {
    hide UpTo, Decimal;
    var name := (if d.isPwd then [PWD_CHAR] else "") + d.name;
    var a, b, c := Decimal(d.selectedCount), Decimal(d.fileCount), Decimal(d.hiddenCount);
    var s3 := name + [LF] + more;
    var s2 := c + [' '] + s3;
    var s1 := b + [' '] + s2;
    assert Heading(d) + more == a + [' '] + s1;
    UpToIs(a, ' ', s1);
    UpToIs(b, ' ', s2);
    UpToIs(c, ' ', s3);
    UpToIs(name, LF, more);
    assert Events(SelectedCount, a + [' '] + s1) == Events(FileCount(a), s1) == Events(HiddenCount(a, b), s2)
        == Events(DirName(a, b, c), s3);
  }

  lemma HeadingStarts(d: Dir, more: string)
    ensures var s := Heading(d) + more; s != "" && s[0] != '\t' && s[0] != LF
  {
    assert Heading(d)[0] == Decimal(d.selectedCount)[0];
  }

  lemma DirRead(d: Dir, more: string)
    requires Plain(d)
    ensures Events(SelectedCount, DirText(d) + more) == Before(DirEvents(d), Events(InLimbo, more))
    ensures var s := DirText(d) + more; s != "" && s[0] != '\t' && s[0] != LF
  {
    hide Events, Heading, FileLines, FileEvents, Decimal;
    var rest := FileLines(d.files) + more;
    assert DirText(d) + more == Heading(d) + rest;
    HeadingStarts(d, rest);
    HeadingRead(d, rest);
    FileLinesRead(d.files, more);
    BeforeBoth([DirEvents(d)[0]], FileEvents(d.files), Events(InLimbo, more));
  }

  lemma {:induction false} DirsRead(ds: seq<Dir>, more: string)
    requires forall d :: d in ds ==> Plain(d)
    ensures Events(InLimbo, DirsText(ds) + more) == Before(DirsEvents(ds), Events(InLimbo, more))
  {
    hide DirText, DirEvents, UpTo, Plain, Before;
    if ds == [] {
      assert DirsText(ds) + more == more;
      BeforeNothing(Events(InLimbo, more));
    } else {
      assert ds[0] in ds;
      var rest := DirsText(ds[1..]) + more;
      assert DirsText(ds) + more == DirText(ds[0]) + rest;
      DirRead(ds[0], rest);
      DirsRead(ds[1..], more);
      BeforeBoth(DirEvents(ds[0]), DirsEvents(ds[1..]), Events(InLimbo, more));
    }
  }

  /** The whole of a listing, read back: the display is told exactly what was found, in
      order, with every count. */
  lemma TextRead(ds: seq<Dir>)
    requires AllPlain(ds) && ds != []
    ensures Events(Done, Text(ds)) == Some([Begin] + DirsEvents(ds))
  {
    hide DirText, UpTo, DirEvents, Plain, DirsEvents;
    assert ds[0] in ds;
    var rest := DirsText(ds[1..]) + "\n";
    assert Text(ds) == DirText(ds[0]) + rest;
    DirRead(ds[0], rest);
    assert Events(Done, Text(ds)) == Then(Begin, Events(InLimbo, Text(ds)));
    DirsRead(ds, "\n");
    LastLine();
    assert DirsEvents(ds) + [] == DirsEvents(ds);
  }

  lemma LastLine()
    ensures Events(InLimbo, "\n") == Some([])
  {
    assert "\n"[1..] == "";
  }
}
