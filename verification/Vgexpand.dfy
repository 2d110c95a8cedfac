/** vgexpand: a linked list of directories, built word by word, masked, put in order and
    printed. */
module Vgexpand {
  import opened Bytes
  import opened Listings
  import opened Split
  import opened Expansion

  class Directory {
    const name: string
    const dev: int
    const inode: int
    var selectedCount: int
    var fileCount: int
    var hiddenCount: int
    var files: seq<File>
    var isPwd: bool
    var nextDir: Directory?

    ghost function Value(): Node
      reads this`selectedCount, this`fileCount, this`hiddenCount, this`files, this`isPwd
    {
      Node(dev, inode, Dir(name, isPwd, selectedCount, fileCount, hiddenCount, files))
    }

    /** Read the directory; one that cannot be read has no entries. */
    constructor (l: Look)
      ensures Value() == NewNode(l, false) && nextDir == null
    {
      name, dev, inode := l.name, l.dev, l.inode;
      files := FilesOf(l.entries);
      selectedCount, fileCount, hiddenCount := 0, |l.entries|, |l.entries|;
      isPwd, nextDir := false, null;
    }

    /** Mark the files a word names or begins. */
    method MarkTraverse(lookup: string)
      modifies this`files, this`selectedCount, this`hiddenCount
      ensures Value() == old(Value()).(dir := MarkDir(old(Value()).dir, lookup))
    {
      var i := 0;
      while i < |files|
        invariant 0 <= i <= |files|
        invariant MarkFrom(Value().dir, lookup, i) == MarkDir(old(Value()).dir, lookup)
      {
        var f := files[i];
        if f.selected != FsYes && lookup <= f.name {
          if |lookup| == |f.name| {
            files := files[i := f.(selected := FsYes, shown := true)];
            selectedCount := selectedCount + 1;
            hiddenCount := hiddenCount - 1;
          } else {
            files := files[i := f.(selected := FsMaybe)];
          }
        }
        assert f == files[i] ==> files[i := f] == files;
        i := i + 1;
      }
    }

    /** Show the files a mask takes. */
    method MaskTraverse(fnmatch: (string, string) -> bool, masks: seq<Mask>)
      modifies this`files, this`hiddenCount
      ensures Value() == old(Value()).(dir := MaskFrom(fnmatch, masks, old(Value()).dir, 0))
    {
      hide MaskTakes;
      var i := 0;
      while i < |files|
        invariant 0 <= i <= |files|
        invariant MaskFrom(fnmatch, masks, Value().dir, i) == MaskFrom(fnmatch, masks, old(Value()).dir, 0)
      {
        var f := files[i];
        if f.selected != FsYes {
          var taken := AnyMask(fnmatch, masks, f);
          if taken {
            files := files[i := f.(shown := true)];
            hiddenCount := hiddenCount - 1;
          }
        }
        assert f == files[i] ==> files[i := f] == files;
        i := i + 1;
      }
    }
  }

  /** Try the masks in turn until one takes the file. */
  method AnyMask(fnmatch: (string, string) -> bool, masks: seq<Mask>, f: File) returns (taken: bool)
    ensures taken == MaskTakes(fnmatch, masks, f)
  {
    var m := 0;
    while m < |masks|
      invariant 0 <= m <= |masks|
      invariant forall j :: 0 <= j < m ==>
                  !((!masks[j].dirsOnly || f.fileType == FtDirectory) && fnmatch(masks[j].pattern, f.name))
    {
      if (!masks[m].dirsOnly || f.fileType == FtDirectory) && fnmatch(masks[m].pattern, f.name) {
        assert masks[m] in masks;
        return true;
      }
      m := m + 1;
    }
    taken := false;
  }

  ghost function DirAt(list: seq<Directory>, i: int): Directory? {
    if 0 <= i < |list| then list[i] else null
  }

  ghost predicate Distinct(list: seq<Directory>) {
    forall i, j :: 0 <= i < |list| && 0 <= j < |list| && i != j ==> list[i] != list[j]
  }

  /** The list from `head` on. */
  ghost predicate Chain(head: Directory?, list: seq<Directory>)
    reads list
  {
    && head == DirAt(list, 0) && Distinct(list)
    && forall i :: 0 <= i < |list| ==> list[i].nextDir == DirAt(list, i + 1)
  }

  ghost function Nodes(list: seq<Directory>): (r: seq<Node>)
    reads list
    ensures |r| == |list| && forall i :: 0 <= i < |list| ==> r[i] == list[i].Value()
  {
    seq(|list|, i requires 0 <= i < |list| reads list => list[i].Value())
  }

  lemma NextInChain(head: Directory?, list: seq<Directory>, k: nat)
    requires Chain(head, list) && k < |list|
    ensures list[k].nextDir == DirAt(list, k + 1)
  {
  }

  /** Only the last directory was pointed elsewhere, and it was pointed at a new one. */
  twostate lemma Extended(list: seq<Directory>, new dir: Directory)
    requires list != [] && old(Chain(list[0], list))
    requires dir !in list && dir.nextDir == null && list[|list| - 1].nextDir == dir
    requires forall d :: d in list && d != list[|list| - 1] ==> d.nextDir == old(d.nextDir)
    requires forall d :: d in list ==> d.Value() == old(d.Value())
    ensures Chain(list[0], list + [dir]) && Nodes(list + [dir]) == old(Nodes(list)) + [dir.Value()]
  {
    hide Directory.Value;
    forall i | 0 <= i < |list| ensures list[i].nextDir == DirAt(list + [dir], i + 1) {
      assert i < |list| - 1 ==> list[i] in list && list[i] != list[|list| - 1];
    }
  }

  lemma ChainStarts(head: Directory?, list: seq<Directory>)
    requires Chain(head, list)
    ensures head == DirAt(list, 0)
  {
  }

  twostate lemma ChainKept(list: seq<Directory>)
    requires forall d :: d in list ==> d.nextDir == old(d.nextDir)
    ensures old(Chain(DirAt(list, 0), list)) ==> Chain(DirAt(list, 0), list)
  {
  }

  class Vgexpand {
    var dirs: Directory?
    ghost var list: seq<Directory>

    ghost predicate Valid()
      reads this, list
    {
      Chain(dirs, list)
    }

    ghost function Value(): seq<Node>
      reads this, list
    {
      Nodes(list)
    }

    /** The working directory is always looked at. */
    constructor (pwd: Look)
      ensures Valid() && dirs != null && fresh(list) && Value() == Compiled(pwd, [])
    {
      var d := new Directory(pwd);
      d.isPwd := true;
      dirs, list := d, [d];
    }

    /** Whether a directory is known; if not, the last one of the list. */
    method HaveDir(dev: int, inode: int) returns (have: bool, dir: Directory, ghost k: nat)
      requires Valid() && dirs != null
      ensures k < |list| && list[k] == dir
      ensures have ==> k == Locate(Value(), dev, inode)
      ensures !have ==> Locate(Value(), dev, inode) < 0 && k == |list| - 1
    {
      var iter := dirs;
      k := 0;
      while true
        invariant iter != null && k < |list| && list[k] == iter
        invariant forall i :: 0 <= i < k ==> !(list[i].dev == dev && list[i].inode == inode)
        decreases |list| - k
      {
        if iter.inode == inode && iter.dev == dev {
          LocateFirst(Value(), dev, inode, k);
          return true, iter, k;
        }
        if iter.nextDir == null {
          break;
        }
        NextInChain(dirs, list, k);
        iter, k := iter.nextDir, k + 1;
      }
      NextInChain(dirs, list, k);
      assert forall i :: 0 <= i < |list| ==> Value()[i].dev == list[i].dev && Value()[i].inode == list[i].inode;
      have, dir := false, iter;
    }

    /** Fit a word's directory and file in. */
    method Correlate(l: Look)
      requires Valid() && dirs != null
      modifies this`list, list
      ensures Valid() && Value() == Correlated(old(Value()), l) && dirs == old(dirs)
      ensures forall i :: 0 <= i < |list| ==> list[i] in old(list) || fresh(list[i])
    {
      hide MarkDir, Locate, Nodes, Chain;
      var have, dir, k := HaveDir(l.dev, l.inode);
      if !have {
        dir := Append(dir, l);
        k := |list| - 1;
      }
      if l.file.Some? {
        LookFor(dir, k, l.file.value);
      }
    }

    /** Put a new directory behind the last one. */
    method Append(last: Directory, l: Look) returns (dir: Directory)
      requires Valid() && list != [] && last == list[|list| - 1]
      modifies this`list, last`nextDir
      ensures Valid() && list == old(list) + [dir] && fresh(dir) && Value() == old(Value()) + [NewNode(l, false)]
    {
      hide Directory.Value, NewNode, Chain, Nodes;
      ChainStarts(dirs, list);
      ghost var was := list;
      dir := new Directory(l);
      last.nextDir := dir;
      list := list + [dir];
      Extended(was, dir);
    }

    method LookFor(dir: Directory, ghost k: nat, file: string)
      requires Valid() && k < |list| && list[k] == dir
      modifies dir`files, dir`selectedCount, dir`hiddenCount
      ensures Valid() && Value() == old(Value())[k := LookIn(old(Value())[k], Some(file))]
    {
      hide MarkDir, Directory.Value;
      dir.MarkTraverse(file);
      ChainKept(list);
    }

    method CompileData(looks: seq<Look>)
      requires Valid() && dirs != null
      modifies this`list, list
      ensures Valid() && dirs == old(dirs)
      ensures forall pwd :: old(Value()) == Compiled(pwd, []) ==> Value() == Compiled(pwd, looks)
      ensures forall i :: 0 <= i < |list| ==> list[i] in old(list) || fresh(list[i])
    {
      hide Correlated;
      var i := 0;
      assert looks[..0] == [];
      while i < |looks|
        invariant 0 <= i <= |looks| && Valid() && dirs == old(dirs)
        invariant forall pwd :: old(Value()) == Compiled(pwd, []) ==> Value() == Compiled(pwd, looks[..i])
        invariant forall i :: 0 <= i < |list| ==> list[i] in old(list) || fresh(list[i])
      {
        assert looks[..i + 1][..i] == looks[..i];
        Correlate(looks[i]);
        i := i + 1;
      }
      assert looks[..|looks|] == looks;
    }

    method MaskMatch(fnmatch: (string, string) -> bool, masks: seq<Mask>)
      requires Valid()
      modifies list
      ensures Valid() && Value() == MaskDirs(fnmatch, masks, old(Value()))
    {
      hide MaskFrom;
      ghost var was, k := Value(), 0;
      var iter := dirs;
      while iter != null
        invariant 0 <= k <= |list| && iter == DirAt(list, k) && Valid()
        invariant forall i :: 0 <= i < |list| ==>
                    Value()[i] == if i < k then was[i].(dir := MaskFrom(fnmatch, masks, was[i].dir, 0)) else was[i]
        decreases |list| - k
      {
        label L:
        assert iter == list[k];
        iter.MaskTraverse(fnmatch, masks);
        ChainKept@L(list);
        NextInChain(dirs, list, k);
        iter, k := iter.nextDir, k + 1;
      }
    }

    // ----- the report -----

    method ReverseDirs()
      requires Valid()
      modifies this, list
      ensures Valid() && Value() == Reverse(old(Value()))
    {
      hide Directory.Value, Nodes, Chain, Reverse;
      var head := ReverseList(dirs, list);
      dirs, list := head, Reverse(list);
    }

    /** Drop the first directory. */
    method DropFirst()
      requires Valid() && dirs != null
      modifies this
      ensures Valid() && list == old(list)[1..] && Value() == old(Value())[1..]
    {
      hide Directory.Value, Nodes;
      ghost var head, was := dirs, list;
      NextInChain(dirs, list, 0);
      dirs, list := dirs.nextDir, list[1..];
      ChainTail(head, was);
    }

    /** Put the list in the order asked for; the working directory may be printed first and
        dropped. */
    method PutInOrder(order: SortOrder) returns (out: string, ghost before: seq<Node>)
      requires Valid()
      modifies this, list
      ensures Valid() && before + Value() == Ordered(old(Value()), order)
      ensures |before| <= 1 && out == if before == [] then "" else DirText(before[0].dir)
    {
      hide DirText, Directory.Value, Nodes, Reverse, Chain, Ordered;
      out, before := "", [];
      OrderedCases(Value());
      ChainStarts(dirs, list);
      match order {
        case Ascending =>
          ReverseDirs();
        case AscendingPwdFirst =>
          if dirs != null {
            before := [Value()[0]];
            out := PrintDir(dirs);
            DropFirst();
            ReverseDirs();
          }
        case Descending =>
      }
    }

    /** Print all directories between the two marks, in the order asked for. */
    method Report(order: SortOrder) returns (out: string)
      requires Valid()
      modifies this, list
      ensures out == Output(Dirs(Ordered(old(Value()), order)))
    {
      hide DirsText, DirText, Directory.Value, Nodes, Ordered;
      var first;
      ghost var before;
      first, before := PutInOrder(order);
      ghost var nodes := Value();
      var rest := PrintDirs();
      PrintedBefore(before, nodes);
      out := [STX] + (first + rest + "\n") + [ETX];
    }

    method PrintDirs() returns (out: string)
      requires Valid()
      ensures out == DirsText(Dirs(Value()))
    {
      hide DirText, Directory.Value;
      out := "";
      ghost var k, ds := 0, Dirs(Value());
      var iter := dirs;
      assert ds[0..] == ds;
      while iter != null
        invariant 0 <= k <= |list| && iter == DirAt(list, k)
        invariant out + DirsText(ds[k..]) == DirsText(ds)
        decreases |list| - k
      {
        NextInChain(dirs, list, k);
        assert ds[k..][1..] == ds[k + 1..] && ds[k..][0] == iter.Value().dir;
        var text := PrintDir(iter);
        assert out + (text + DirsText(ds[k + 1..])) == (out + text) + DirsText(ds[k + 1..]);
        out, iter, k := out + text, iter.nextDir, k + 1;
      }
      assert out + "" == out;
    }
  }

  function Dirs(nodes: seq<Node>): (r: seq<Dir>)
    ensures |r| == |nodes| && forall i :: 0 <= i < |r| ==> r[i] == nodes[i].dir
  {
    seq(|nodes|, i requires 0 <= i < |nodes| => nodes[i].dir)
  }

  lemma PrintedBefore(before: seq<Node>, nodes: seq<Node>)
    requires |before| <= 1
    ensures DirsText(Dirs(before + nodes)) == (if before == [] then "" else DirText(before[0].dir)) + DirsText(Dirs(nodes))
  {
    hide DirText;
    if before == [] {
      assert before + nodes == nodes;
      assert "" + DirsText(Dirs(nodes)) == DirsText(Dirs(nodes));
    } else {
      assert Dirs(before + nodes)[1..] == Dirs(nodes);
    }
  }

  lemma ReverseNodes(list: seq<Directory>)
    ensures Nodes(Reverse(list)) == Reverse(Nodes(list))
  {
    hide Reverse, Nodes;
    var r := Reverse(list);
    assert forall i :: 0 <= i < |r| ==> Nodes(r)[i] == r[i].Value();
  }

  /** The first `k` directories point backwards, the others forwards as before. */
  ghost predicate Turned(list: seq<Directory>, k: nat)
    reads list
  {
    forall i :: 0 <= i < |list| ==> list[i].nextDir == if i < k then DirAt(list, i - 1) else DirAt(list, i + 1)
  }

  lemma ChainDistinct(head: Directory?, list: seq<Directory>)
    requires Chain(head, list)
    ensures Distinct(list) && head == DirAt(list, 0) && (list == [] ==> Turned(list, 0))
  {
  }

  lemma TurnedNext(list: seq<Directory>, k: nat)
    requires Turned(list, k) && k < |list|
    ensures list[k].nextDir == DirAt(list, k + 1)
  {
  }

  twostate lemma TurnedOne(list: seq<Directory>)
    requires list != [] && list[0].nextDir == null && old(Chain(list[0], list))
    requires forall i :: 0 < i < |list| ==> list[i].nextDir == old(list[i].nextDir)
    ensures Turned(list, 1)
  {
  }

  twostate lemma TurnedMore(list: seq<Directory>, new k: nat)
    requires 1 <= k < |list| && old(Turned(list, k)) && Distinct(list)
    requires list[k].nextDir == list[k - 1]
    requires forall i :: 0 <= i < |list| && i != k ==> list[i].nextDir == old(list[i].nextDir)
    ensures Turned(list, k + 1)
  {
  }

  lemma TurnedChain(list: seq<Directory>)
    requires Turned(list, |list|) && Distinct(list)
    ensures Chain(DirAt(list, |list| - 1), Reverse(list))
    ensures forall d :: d in Reverse(list) <==> d in list
  {
    hide Reverse;
    var r := Reverse(list);
    forall d | d in list ensures d in r {
      var i :| 0 <= i < |list| && list[i] == d;
      assert r[|list| - 1 - i] == d;
    }
    forall i | 0 <= i < |r| ensures r[i].nextDir == DirAt(r, i + 1) {
      assert r[i] == list[|list| - 1 - i];
      assert i + 1 < |r| ==> r[i + 1] == list[|list| - 2 - i];
    }
    assert Distinct(r);
  }

  lemma ChainTail(head: Directory?, list: seq<Directory>)
    requires Chain(head, list) && list != []
    ensures Chain(list[0].nextDir, list[1..]) && Nodes(list[1..]) == Nodes(list)[1..]
  {
  }

  /** Turn a list around by rewriting its links. */
  method ReverseList(head: Directory?, ghost list: seq<Directory>) returns (r: Directory?)
    requires Chain(head, list)
    modifies list
    ensures Chain(r, Reverse(list)) && Nodes(Reverse(list)) == Reverse(old(Nodes(list)))
    ensures forall d :: d in Reverse(list) <==> d in list
  {
    hide Directory.Value, Nodes, Reverse, Turned, Chain;
    ChainDistinct(head, list);
    r := null;
    if head != null {
      NextInChain(head, list, 0);
      var p1: Directory, p2 := head, head.nextDir;
      p1.nextDir := null;
      TurnedOne(list);
      ghost var k := 1;
      while p2 != null
        invariant 1 <= k <= |list| && p1 == list[k - 1] && p2 == DirAt(list, k)
        invariant Turned(list, k)
        invariant forall i :: 0 <= i < |list| ==> list[i].Value() == old(list[i].Value())
        decreases |list| - k
      {
        label L:
        TurnedNext(list, k);
        var q := p2.nextDir;
        p2.nextDir := p1;
        TurnedMore@L(list, k);
        p1, p2, k := p2, q, k + 1;
      }
      r := p1;
    }
    assert Nodes(list) == old(Nodes(list));
    ReverseNodes(list);
    TurnedChain(list);
  }

  method PrintDir(dir: Directory) returns (out: string)
    ensures out == DirText(dir.Value().dir)
  {
    hide Decimal, FileLines;
    out := Decimal(dir.selectedCount) + " " + Decimal(dir.fileCount) + " " + Decimal(dir.hiddenCount) + " ";
    if dir.isPwd {
      out := out + [PWD_CHAR];
    }
    out := out + dir.name + "\n";
    assert out == Heading(dir.Value().dir);
    var files := PrintFiles(dir);
    out := out + files;
  }

  method PrintFiles(dir: Directory) returns (out: string)
    ensures out == FileLines(dir.files)
  {
    hide FileLine;
    out := "";
    var i := 0;
    assert dir.files[0..] == dir.files;
    while i < |dir.files|
      invariant 0 <= i <= |dir.files| && out + FileLines(dir.files[i..]) == FileLines(dir.files)
    {
      assert dir.files[i..][1..] == dir.files[i + 1..];
      var line := PrintTraverse(dir.files[i]);
      assert out + (line + FileLines(dir.files[i + 1..])) == (out + line) + FileLines(dir.files[i + 1..]);
      out, i := out + line, i + 1;
    }
    assert out + "" == out;
  }

  const TYPES: string := "redbcfsy"
  const SELECTIONS: string := "*-~"

  /** Positions in `enum _FileType` and `enum _FileSelection`. */
  function TypeIndex(t: FileType): nat {
    match t
    case FtRegular => 0
    case FtExecutable => 1
    case FtDirectory => 2
    case FtBlockdev => 3
    case FtChardev => 4
    case FtFifo => 5
    case FtSocket => 6
    case FtSymlink => 7
  }

  function SelectionIndex(s: FileSelection): nat {
    match s
    case FsYes => 0
    case FsNo => 1
    case FsMaybe => 2
  }

  method PrintTraverse(f: File) returns (line: string)
    ensures line == FileLine(f)
  {
    line := "";
    if f.shown {
      line := "\t" + [SELECTIONS[SelectionIndex(f.selected)]] + " " + [TYPES[TypeIndex(f.fileType)]] + " " + f.name + "\n";
    }
  }

  lemma {:induction false} LocateFirst(nodes: seq<Node>, dev: int, inode: int, k: nat)
    requires k < |nodes| && nodes[k].dev == dev && nodes[k].inode == inode
    requires forall i :: 0 <= i < k ==> !(nodes[i].dev == dev && nodes[i].inode == inode)
    ensures Locate(nodes, dev, inode) == k
  {
    if k < |nodes| - 1 {
      LocateFirst(nodes[..|nodes| - 1], dev, inode, k);
    }
  }

  /** The whole program, from the words of a command line and the mask to its output. */
  method Expand(pwd: Look, looks: seq<Look>, fnmatch: (string, string) -> bool, mask: string, order: SortOrder)
    returns (out: Option<string>)
    requires NUL !in mask
    ensures out.Some? <==> Words(Chugged(mask)).Some?
    ensures out.Some? ==> exists masks :: SplitInto(mask, masks)
                            && out.value == Output(Dirs(Ordered(MaskDirs(fnmatch, masks, Compiled(pwd, looks)), order)))
  {
    hide Output, Ordered, MaskDirs, Compiled, Dirs, Words, Chugged, SplitInto;
    var masks := SplitMask(mask);
    if masks.None? {
      return None;
    }
    var v := new Vgexpand(pwd);
    v.CompileData(looks);
    v.MaskMatch(fnmatch, masks.value);
    var text := v.Report(order);
    out := Some(text);
  }
}
