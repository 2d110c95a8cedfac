/** A listing: what vgexpand reports about the directories of a command line, and the
    text it prints for it. */
module Listings {
  import opened Bytes

  const STX := '\U{02}'
  const ETX := '\U{03}'
  const PWD_CHAR := '\U{06}'

  datatype FileSelection = FsYes | FsNo | FsMaybe

  datatype FileType = FtRegular | FtExecutable | FtDirectory | FtBlockdev | FtChardev | FtFifo | FtSocket | FtSymlink

  datatype File = File(name: string, selected: FileSelection, fileType: FileType, shown: bool)

  /** `files` is in the order of the source's tree; a directory that could not be read, or
      is empty, has none. */
  datatype Dir = Dir(name: string, isPwd: bool, selectedCount: int, fileCount: int, hiddenCount: int, files: seq<File>)

  // ----- numbers -----

  function Digit(n: nat): (c: char)
    requires n < 10
    ensures IsDigit(c)
  {
    '0' + n as char
  }

  function Digits(n: nat): (s: string)
    ensures s != "" && forall c :: c in s ==> IsDigit(c)
  {
    if n < 10 then [Digit(n)] else Digits(n / 10) + [Digit(n % 10)]
  }

  /** `%d`. */
  function Decimal(n: int): (s: string)
    ensures s != "" && (IsDigit(s[0]) || s[0] == '-') && forall c :: c in s ==> IsDigit(c) || c == '-'
  {
    if n < 0 then "-" + Digits(-n) else Digits(n)
  }

  function Number(s: string): int {
    if s != "" && s[0] == '-' then -(Natural(s[1..]) as int) else Natural(s)
  }

  function Natural(s: string): nat {
    if s == "" || !IsDigit(s[|s| - 1]) then 0
    else Natural(s[..|s| - 1]) * 10 + (s[|s| - 1] - '0') as nat
  }

  lemma {:induction false} NaturalDigits(n: nat)
    ensures Natural(Digits(n)) == n
  {
    if n < 10 {
      assert Digits(n)[..0] == "";
    } else {
      NaturalDigits(n / 10);
      assert Digits(n)[..|Digits(n)| - 1] == Digits(n / 10);
    }
  }

  /** Different counts are printed differently. */
  lemma DecimalRoundTrip(n: int)
    ensures Number(Decimal(n)) == n
  {
    if n < 0 {
      NaturalDigits(-n);
      assert Decimal(n)[1..] == Digits(-n);
    } else {
      NaturalDigits(n);
      assert Digits(n)[0] in Digits(n);
    }
  }

  // ----- what is printed -----

  function SelectionChar(s: FileSelection): char {
    match s
    case FsYes => '*'
    case FsNo => '-'
    case FsMaybe => '~'
  }

  function TypeChar(t: FileType): char {
    match t
    case FtRegular => 'r'
    case FtExecutable => 'e'
    case FtDirectory => 'd'
    case FtBlockdev => 'b'
    case FtChardev => 'c'
    case FtFifo => 'f'
    case FtSocket => 's'
    case FtSymlink => 'y'
  }

  function FileLine(f: File): string {
    if f.shown then "\t" + [SelectionChar(f.selected)] + " " + [TypeChar(f.fileType)] + " " + f.name + "\n" else ""
  }

  function FileLines(fs: seq<File>): string {
    if fs == [] then "" else FileLine(fs[0]) + FileLines(fs[1..])
  }

  function Heading(d: Dir): string {
    Decimal(d.selectedCount) + " " + Decimal(d.fileCount) + " " + Decimal(d.hiddenCount) + " "
    + (if d.isPwd then [PWD_CHAR] else "") + d.name + "\n"
  }

  function DirText(d: Dir): string {
    Heading(d) + FileLines(d.files)
  }

  function DirsText(ds: seq<Dir>): string {
    if ds == [] then "" else DirText(ds[0]) + DirsText(ds[1..])
  }

  /** All between the two marks. */
  function Text(ds: seq<Dir>): string {
    DirsText(ds) + "\n"
  }

  /** All of vgexpand's output. */
  function Output(ds: seq<Dir>): string {
    [STX] + Text(ds) + [ETX]
  }

  function Sample(name: string, s: FileSelection, t: FileType): File {
    File(name, s, t, true)
  }

  /** What is printed, character by character. */
  lemma LinesExample()
    ensures FileLine(Sample("b", FsYes, FtRegular)) == "\t* r b\n" && FileLine(Sample("e", FsNo, FtExecutable)) == "\t- e e\n"
    ensures FileLine(Sample("f", FsMaybe, FtDirectory)) == "\t~ d f\n" && FileLine(Sample("g", FsNo, FtBlockdev)) == "\t- b g\n"
    ensures FileLine(Sample("h", FsNo, FtChardev)) == "\t- c h\n" && FileLine(Sample("i", FsNo, FtFifo)) == "\t- f i\n"
    ensures FileLine(Sample("j", FsNo, FtSocket)) == "\t- s j\n" && FileLine(Sample("k", FsNo, FtSymlink)) == "\t- y k\n"
  {
  }

  lemma Ten()
    ensures Decimal(10) == "10" && Decimal(2) == "2" && Decimal(1) == "1"
  {
    assert Digits(10) == Digits(1) + [Digit(0)];
  }

  /** A hidden file is not printed. */
  lemma PrintedExample()
    ensures Output([Dir("/a", true, 2, 10, 1, [Sample("b", FsYes, FtRegular), File("c", FsNo, FtSocket, false)])])
            == [STX] + "2 10 1 " + [PWD_CHAR] + "/a\n\t* r b\n\n" + [ETX]
  {
    hide Decimal;
    Ten();
    var b, c := Sample("b", FsYes, FtRegular), File("c", FsNo, FtSocket, false);
    var fs := [b, c];
    var d := Dir("/a", true, 2, 10, 1, fs);
    assert FileLine(b) == "\t* r b\n" by { LinesExample(); }
    assert fs[1..] == [c] && [c][1..] == [] && FileLines([]) == "" && FileLines([c]) == "" + "";
    assert FileLines(fs) == FileLine(b) + "";
    assert Heading(d) == "2 10 1 " + [PWD_CHAR] + "/a\n";
    assert [d][1..] == [] && DirsText([d]) == DirText(d) + "";
  }

  // ----- names that can be told apart -----

  predicate PlainName(s: string) {
    LF !in s && ETX !in s && NUL !in s
  }

  predicate Plain(d: Dir) {
    && PlainName(d.name) && (!d.isPwd && d.name != "" ==> d.name[0] != PWD_CHAR)
    && forall f :: f in d.files ==> PlainName(f.name)
  }

  predicate AllPlain(ds: seq<Dir>) {
    forall d :: d in ds ==> Plain(d)
  }

  /** Neither the closing mark nor a NUL. */
  predicate Free(s: string) {
    ETX !in s && NUL !in s
  }

  lemma FreeAppend(a: string, b: string)
    requires Free(a) && Free(b)
    ensures Free(a + b)
  {
  }

  lemma {:induction false} FileLinesFree(fs: seq<File>)
    requires forall f :: f in fs ==> PlainName(f.name)
    ensures Free(FileLines(fs))
  {
    hide Free, FileLine;
    if fs == [] {
      EmptyFree();
    } else {
      assert fs[0] in fs;
      FileLineFree(fs[0]);
      FileLinesFree(fs[1..]);
      FreeAppend(FileLine(fs[0]), FileLines(fs[1..]));
    }
  }

  lemma EmptyFree()
    ensures Free("") && Free("\n") && Free("\t") && Free(" ") && Free([PWD_CHAR])
  {
  }

  lemma FileLineFree(f: File)
    requires PlainName(f.name)
    ensures Free(FileLine(f))
  {
    assert TypeChar(f.fileType) >= 'b' && SelectionChar(f.selected) >= '*';
  }

  lemma HeadingFree(d: Dir)
    requires PlainName(d.name)
    ensures Free(Heading(d))
  {
    hide Decimal, Free;
    DecimalFree(d.selectedCount);
    DecimalFree(d.fileCount);
    DecimalFree(d.hiddenCount);
    EmptyFree();
    PlainFree(d.name);
    var a, b, c := Decimal(d.selectedCount) + " ", Decimal(d.fileCount) + " ", Decimal(d.hiddenCount) + " ";
    var mark := if d.isPwd then [PWD_CHAR] else "";
    FreeAppend(Decimal(d.selectedCount), " ");
    FreeAppend(Decimal(d.fileCount), " ");
    FreeAppend(Decimal(d.hiddenCount), " ");
    FreeAppend(a, b);
    FreeAppend(a + b, c);
    FreeAppend(a + b + c, mark);
    FreeAppend(a + b + c + mark, d.name);
    FreeAppend(a + b + c + mark + d.name, "\n");
    assert Heading(d) == a + b + c + mark + d.name + "\n";
  }

  lemma DecimalFree(n: int)
    ensures Free(Decimal(n))
  {
  }

  lemma PlainFree(s: string)
    requires PlainName(s)
    ensures Free(s)
  {
  }

  /** The text holds neither the closing mark nor a NUL. */
  lemma {:induction false} TextFree(ds: seq<Dir>)
    requires AllPlain(ds)
    ensures Free(DirsText(ds)) && Free(Text(ds))
  {
    hide Free, FileLines, Heading;
    EmptyFree();
    if ds != [] {
      assert ds[0] in ds;
      HeadingFree(ds[0]);
      FileLinesFree(ds[0].files);
      FreeAppend(Heading(ds[0]), FileLines(ds[0].files));
      TextFree(ds[1..]);
      FreeAppend(DirText(ds[0]), DirsText(ds[1..]));
    }
    FreeAppend(DirsText(ds), "\n");
  }
}
