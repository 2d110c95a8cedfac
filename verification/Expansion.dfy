/** What vgexpand finds out about a command line: the directories its words mention, and
    which of their files the words and the masks pick out. */
module Expansion {
  import opened Bytes
  import opened Listings
  import opened Split

  /** One directory looked at: its identity and entries, and the file looked for in it. */
  datatype Look = Look(name: string, dev: int, inode: int, entries: seq<(string, FileType)>, file: Option<string>)

  datatype Node = Node(dev: int, inode: int, dir: Dir)

  // ----- the steps -----

  function FilesOf(entries: seq<(string, FileType)>): (r: seq<File>)
    ensures |r| == |entries|
    ensures forall i :: 0 <= i < |r| ==> r[i] == File(entries[i].0, FsNo, entries[i].1, false)
  {
    seq(|entries|, i requires 0 <= i < |entries| => File(entries[i].0, FsNo, entries[i].1, false))
  }

  function NewNode(l: Look, isPwd: bool): Node {
    Node(l.dev, l.inode, Dir(l.name, isPwd, 0, |l.entries|, |l.entries|, FilesOf(l.entries)))
  }

  /** Look for a file: an exact match is selected and shown, and stays so; a longer name may
      still be meant. */
  function MarkFile(f: File, lookup: string): File {
    if f.selected == FsYes || !(lookup <= f.name) then f
    else if |lookup| == |f.name| then f.(selected := FsYes, shown := true)
    else f.(selected := FsMaybe)
  }

  /** Whether this look selects the file. */
  predicate Picks(f: File, lookup: string) {
    f.selected != FsYes && lookup == f.name
  }

  function MarkDir(d: Dir, lookup: string): Dir
    decreases |d.files|
  {
    MarkFrom(d, lookup, 0)
  }

  function MarkFrom(d: Dir, lookup: string, i: nat): (r: Dir)
    requires i <= |d.files|
    ensures |r.files| == |d.files|
    decreases |d.files| - i
  {
    if i == |d.files| then d
    else
      var n := if Picks(d.files[i], lookup) then 1 else 0;
      MarkFrom(d.(files := d.files[i := MarkFile(d.files[i], lookup)],
                  selectedCount := d.selectedCount + n, hiddenCount := d.hiddenCount - n), lookup, i + 1)
  }

  function Locate(nodes: seq<Node>, dev: int, inode: int): (k: int)
    ensures -1 <= k < |nodes|
    ensures k >= 0 ==> nodes[k].dev == dev && nodes[k].inode == inode
    ensures k < 0 ==> forall i :: 0 <= i < |nodes| ==> !(nodes[i].dev == dev && nodes[i].inode == inode)
  {
    if nodes == [] then -1
    else
      var k := Locate(nodes[..|nodes| - 1], dev, inode);
      assert forall i :: 0 <= i < |nodes| - 1 ==> nodes[i] == nodes[..|nodes| - 1][i];
      if k >= 0 then k
      else if nodes[|nodes| - 1].dev == dev && nodes[|nodes| - 1].inode == inode then |nodes| - 1 else -1
  }

  function LookIn(n: Node, file: Option<string>): Node {
    if file.Some? then n.(dir := MarkDir(n.dir, file.value)) else n
  }

  /** One word: its directory is known, or new at the end of the list. */
  function Correlated(nodes: seq<Node>, l: Look): seq<Node> {
    var k := Locate(nodes, l.dev, l.inode);
    if k >= 0 then nodes[k := LookIn(nodes[k], l.file)] else nodes + [LookIn(NewNode(l, false), l.file)]
  }

  /** All words, the working directory first. */
  function Compiled(pwd: Look, looks: seq<Look>): seq<Node> {
    if looks == [] then [NewNode(pwd, true)]
    else Correlated(Compiled(pwd, looks[..|looks| - 1]), looks[|looks| - 1])
  }

  predicate MaskTakes(fnmatch: (string, string) -> bool, masks: seq<Mask>, f: File) {
    exists m :: m in masks && (!m.dirsOnly || f.fileType == FtDirectory) && fnmatch(m.pattern, f.name)
  }

  function MaskFile(fnmatch: (string, string) -> bool, masks: seq<Mask>, f: File): File {
    if f.selected != FsYes && MaskTakes(fnmatch, masks, f) then f.(shown := true) else f
  }

  function MaskFrom(fnmatch: (string, string) -> bool, masks: seq<Mask>, d: Dir, i: nat): (r: Dir)
    requires i <= |d.files|
    ensures |r.files| == |d.files|
    decreases |d.files| - i
  {
    if i == |d.files| then d
    else
      var f := d.files[i];
      var n := if f.selected != FsYes && MaskTakes(fnmatch, masks, f) then 1 else 0;
      MaskFrom(fnmatch, masks, d.(files := d.files[i := MaskFile(fnmatch, masks, f)], hiddenCount := d.hiddenCount - n), i + 1)
  }

  function MaskDirs(fnmatch: (string, string) -> bool, masks: seq<Mask>, nodes: seq<Node>): (r: seq<Node>)
    ensures |r| == |nodes|
    ensures forall i :: 0 <= i < |r| ==> r[i] == nodes[i].(dir := MaskFrom(fnmatch, masks, nodes[i].dir, 0))
  {
    seq(|nodes|, i requires 0 <= i < |nodes| => nodes[i].(dir := MaskFrom(fnmatch, masks, nodes[i].dir, 0)))
  }

  // ----- counts -----

  function Selected(fs: seq<File>): nat {
    if fs == [] then 0 else Selected(fs[..|fs| - 1]) + if fs[|fs| - 1].selected == FsYes then 1 else 0
  }

  function Hidden(fs: seq<File>): nat {
    if fs == [] then 0 else Hidden(fs[..|fs| - 1]) + if fs[|fs| - 1].shown then 0 else 1
  }

  lemma {:induction false} SelectedReplaced(fs: seq<File>, i: nat, f: File)
    requires i < |fs|
    ensures Selected(fs[i := f])
            == Selected(fs) - (if fs[i].selected == FsYes then 1 else 0) + if f.selected == FsYes then 1 else 0
    ensures Hidden(fs[i := f]) == Hidden(fs) - (if fs[i].shown then 0 else 1) + if f.shown then 0 else 1
    decreases |fs|
  {
    var n := |fs| - 1;
    if i < n {
      assert fs[i := f][..n] == fs[..n][i := f];
      SelectedReplaced(fs[..n], i, f);
    } else {
      assert fs[i := f][..n] == fs[..n];
    }
  }

  /** The counts tell how many files are selected and how many are not shown; a selected
      file is shown. */
  predicate Counted(d: Dir) {
    && d.fileCount == |d.files| && d.selectedCount == Selected(d.files) && d.hiddenCount == Hidden(d.files)
    && forall i :: 0 <= i < |d.files| && d.files[i].selected == FsYes ==> d.files[i].shown
  }

  lemma {:induction false} FreshCounts(fs: seq<File>)
    requires forall i :: 0 <= i < |fs| ==> fs[i].selected == FsNo && !fs[i].shown
    ensures Selected(fs) == 0 && Hidden(fs) == |fs|
  {
    if fs != [] {
      FreshCounts(fs[..|fs| - 1]);
    }
  }

  lemma {:induction false} MarkFromCounts(d: Dir, lookup: string, i: nat)
    requires i <= |d.files| && Counted(d) && forall j :: i <= j < |d.files| ==> d.files[j].shown ==> d.files[j].selected == FsYes
    ensures var r := MarkFrom(d, lookup, i);
            && Counted(r) && r == d.(files := r.files, selectedCount := r.selectedCount, hiddenCount := r.hiddenCount)
            && forall j :: 0 <= j < |d.files| ==> r.files[j] == if j < i then d.files[j] else MarkFile(d.files[j], lookup)
    decreases |d.files| - i
  {
    hide Selected, Hidden;
    if i < |d.files| {
      var f := d.files[i];
      SelectedReplaced(d.files, i, MarkFile(f, lookup));
      var n := if Picks(f, lookup) then 1 else 0;
      PicksExact(f, lookup);
      MarkFromCounts(d.(files := d.files[i := MarkFile(f, lookup)],
                        selectedCount := d.selectedCount + n, hiddenCount := d.hiddenCount - n), lookup, i + 1);
    }
  }

  lemma PicksExact(f: File, lookup: string)
    ensures Picks(f, lookup) <==> f.selected != FsYes && lookup <= f.name && |lookup| == |f.name|
  {
  }

  // ----- which files are picked out -----

  predicate At(l: Look, dev: int, inode: int) {
    l.dev == dev && l.inode == inode
  }

  /** Some word names the file. */
  predicate Meant(looks: seq<Look>, dev: int, inode: int, name: string) {
    exists l :: l in looks && At(l, dev, inode) && l.file == Some(name)
  }

  /** Some word is the beginning of the file's name. */
  predicate Begun(looks: seq<Look>, dev: int, inode: int, name: string) {
    exists l :: l in looks && At(l, dev, inode) && l.file.Some? && l.file.value <= name
  }

  /** What the words make of a file; their order does not matter. */
  function Selection(looks: seq<Look>, dev: int, inode: int, name: string): FileSelection {
    if Meant(looks, dev, inode, name) then FsYes else if Begun(looks, dev, inode, name) then FsMaybe else FsNo
  }

  lemma SelectionGrows(looks: seq<Look>, l: Look, dev: int, inode: int, f: File)
    requires f.selected == Selection(looks, dev, inode, f.name)
    ensures At(l, dev, inode) && l.file.Some? ==>
              MarkFile(f, l.file.value).selected == Selection(looks + [l], dev, inode, f.name)
    ensures !At(l, dev, inode) || l.file.None? ==> f.selected == Selection(looks + [l], dev, inode, f.name)
  {
    var all := looks + [l];
    assert forall x :: x in all <==> x in looks || x == l;
    if At(l, dev, inode) && l.file.Some? {
      assert l in all;
      assert l.file == Some(f.name) ==> Meant(all, dev, inode, f.name);
      assert l.file.value <= f.name ==> Begun(all, dev, inode, f.name);
      PicksExact(f, l.file.value);
    }
  }

  /** A directory's files are as the words so far make them, and its counts say so. */
  ghost predicate Found(n: Node, looks: seq<Look>) {
    && Counted(n.dir)
    && forall j :: 0 <= j < |n.dir.files| ==>
         && n.dir.files[j].selected == Selection(looks, n.dev, n.inode, n.dir.files[j].name)
         && (n.dir.files[j].shown <==> n.dir.files[j].selected == FsYes)
  }

  lemma FoundMore(n: Node, looks: seq<Look>, l: Look)
    requires Found(n, looks)
    ensures !At(l, n.dev, n.inode) ==> Found(n, looks + [l])
    ensures At(l, n.dev, n.inode) ==> Found(LookIn(n, l.file), looks + [l])
  {
    hide Selected, Hidden, Selection, MarkFile;
    forall j | 0 <= j < |n.dir.files| {
      SelectionGrows(looks, l, n.dev, n.inode, n.dir.files[j]);
    }
    if At(l, n.dev, n.inode) && l.file.Some? {
      MarkFromCounts(n.dir, l.file.value, 0);
      MarkedShown(n.dir.files, l.file.value);
    }
  }

  lemma MarkedShown(fs: seq<File>, lookup: string)
    requires forall j :: 0 <= j < |fs| ==> (fs[j].shown <==> fs[j].selected == FsYes)
    ensures forall j :: 0 <= j < |fs| ==> var f := MarkFile(fs[j], lookup);
              f.name == fs[j].name && (f.shown <==> f.selected == FsYes)
  {
  }

  /** A directory first looked at now, which no earlier word has mentioned. */
  lemma FoundNew(l: Look, isPwd: bool, looks: seq<Look>)
    requires forall x :: x in looks ==> !At(x, l.dev, l.inode)
    ensures Found(NewNode(l, isPwd), looks)
  {
    FreshCounts(FilesOf(l.entries));
  }

  /** Directories are known by device and inode, none twice; and those no one has mentioned
      are not there. */
  ghost predicate Mentioned(nodes: seq<Node>, pwd: Look, looks: seq<Look>) {
    && (forall i, j :: 0 <= i < j < |nodes| ==> !(nodes[i].dev == nodes[j].dev && nodes[i].inode == nodes[j].inode))
    && forall l :: l in [pwd] + looks ==> Locate(nodes, l.dev, l.inode) >= 0
  }

  lemma LocateKept(nodes: seq<Node>, more: seq<Node>, dev: int, inode: int)
    requires |nodes| <= |more|
    requires forall i :: 0 <= i < |nodes| ==> more[i].dev == nodes[i].dev && more[i].inode == nodes[i].inode
    requires Locate(nodes, dev, inode) >= 0
    ensures Locate(more, dev, inode) >= 0
  {
  }

  /** After any words: every directory mentioned is listed once, and each of its files is
      selected by the words that name it, and may be meant by those that begin it. */
  lemma {:induction false} CompiledFound(pwd: Look, looks: seq<Look>)
    ensures Mentioned(Compiled(pwd, looks), pwd, looks)
    ensures forall i :: 0 <= i < |Compiled(pwd, looks)| ==> Found(Compiled(pwd, looks)[i], looks)
  {
    hide Locate, Found, LookIn, NewNode;
    if looks == [] {
      FoundNew(pwd, true, []);
      NewIdentity(pwd, true);
    } else {
      var before, l := looks[..|looks| - 1], looks[|looks| - 1];
      CompiledFound(pwd, before);
      assert looks == before + [l];
      CorrelatedFound(Compiled(pwd, before), pwd, before, l);
    }
  }

  lemma NewIdentity(l: Look, isPwd: bool)
    ensures NewNode(l, isPwd).dev == l.dev && NewNode(l, isPwd).inode == l.inode
    ensures LookIn(NewNode(l, isPwd), l.file).dev == l.dev && LookIn(NewNode(l, isPwd), l.file).inode == l.inode
    ensures Locate([NewNode(l, isPwd)], l.dev, l.inode) >= 0
  {
  }

  lemma CorrelatedFound(nodes: seq<Node>, pwd: Look, looks: seq<Look>, l: Look)
    requires Mentioned(nodes, pwd, looks) && forall i :: 0 <= i < |nodes| ==> Found(nodes[i], looks)
    ensures var r := Correlated(nodes, l);
            Mentioned(r, pwd, looks + [l]) && forall i :: 0 <= i < |r| ==> Found(r[i], looks + [l])
  {
    hide Locate, Found, NewNode, Selection;
    var k := Locate(nodes, l.dev, l.inode);
    var r := Correlated(nodes, l);
    NewIdentity(l, false);
    forall i | 0 <= i < |nodes| {
      FoundMore(nodes[i], looks, l);
    }
    if k < 0 {
      assert forall x :: x in looks ==> !At(x, l.dev, l.inode) by {
        assert forall x :: x in looks ==> x in [pwd] + looks;
      }
      FoundNew(l, false, looks);
      FoundMore(NewNode(l, false), looks, l);
    }
    forall x | x in [pwd] + (looks + [l]) ensures Locate(r, x.dev, x.inode) >= 0 {
      if x in [pwd] + looks {
        LocateKept(nodes, r, x.dev, x.inode);
      } else if k >= 0 {
        LocateKept(nodes, r, x.dev, x.inode);
      } else {
        assert r[|nodes|].dev == x.dev && r[|nodes|].inode == x.inode;
      }
    }
  }

  // ----- which directories are listed, and in what order -----

  type Identity = (int, int)

  function Id(l: Look): Identity {
    (l.dev, l.inode)
  }

  function Ids(nodes: seq<Node>): (r: seq<Identity>)
    ensures |r| == |nodes| && forall i :: 0 <= i < |r| ==> r[i] == (nodes[i].dev, nodes[i].inode)
  {
    seq(|nodes|, i requires 0 <= i < |nodes| => (nodes[i].dev, nodes[i].inode))
  }

  function LookIds(looks: seq<Look>): (r: seq<Identity>)
    ensures |r| == |looks| && forall i :: 0 <= i < |r| ==> r[i] == Id(looks[i])
  {
    seq(|looks|, i requires 0 <= i < |looks| => Id(looks[i]))
  }

  /** The position of the first occurrence. */
  function First(s: seq<Identity>, x: Identity): (k: nat)
    requires x in s
    ensures k < |s| && s[k] == x && x !in s[..k]
  {
    if s[0] == x then 0 else
      assert s == [s[0]] + s[1..];
      var k := First(s[1..], x);
      assert s[..k + 1] == [s[0]] + s[1..][..k];
      k + 1
  }

  /** The elements of `s`, each once, in order of first appearance. */
  predicate Appearances(s: seq<Identity>, r: seq<Identity>) {
    && (forall x :: x in s ==> x in r) && (forall x :: x in r ==> x in s)
    && forall i, j :: 0 <= i < j < |r| ==> First(s, r[i]) < First(s, r[j])
  }

  lemma {:induction false} FirstKept(s: seq<Identity>, y: Identity, x: Identity)
    requires x in s
    ensures First(s + [y], x) == First(s, x)
  {
    if s[0] != x {
      assert s == [s[0]] + s[1..] && (s + [y])[1..] == s[1..] + [y];
      FirstKept(s[1..], y, x);
    }
  }

  lemma {:induction false} FirstNew(s: seq<Identity>, x: Identity)
    requires x !in s
    ensures First(s + [x], x) == |s|
  {
    if s != [] {
      assert s[0] in s && (s + [x])[1..] == s[1..] + [x];
      FirstNew(s[1..], x);
    }
  }

  lemma AppearancesMore(s: seq<Identity>, r: seq<Identity>, x: Identity)
    requires Appearances(s, r)
    ensures Appearances(s + [x], if x in s then r else r + [x])
  {
    var q := if x in s then r else r + [x];
    forall i | 0 <= i < |r| ensures q[i] == r[i] && r[i] in s && First(s + [x], q[i]) == First(s, r[i]) {
      assert r[i] in r;
      FirstKept(s, x, r[i]);
    }
    if x !in s {
      FirstNew(s, x);
    }
  }

  /** The directories listed are those looked at, by device and inode, in order of first
      appearance; the working directory comes first, and only it is marked. */
  lemma {:induction false} DirsInOrder(pwd: Look, looks: seq<Look>)
    ensures var nodes := Compiled(pwd, looks);
            && Appearances(LookIds([pwd] + looks), Ids(nodes)) && nodes != [] && Id(pwd) == Ids(nodes)[0]
            && forall i :: 0 <= i < |nodes| ==> (nodes[i].dir.isPwd <==> i == 0)
  {
    hide LookIn, NewNode, Locate, Appearances, Correlated;
    if looks == [] {
      NewIdentity(pwd, true);
      NewPwd(pwd, true);
      OneAppearance(Id(pwd));
      assert LookIds([pwd] + []) == [Id(pwd)] && Ids(Compiled(pwd, [])) == [Id(pwd)];
    } else {
      var before, l := looks[..|looks| - 1], looks[|looks| - 1];
      DirsInOrder(pwd, before);
      var nodes := Compiled(pwd, before);
      AppearancesMore(LookIds([pwd] + before), Ids(nodes), Id(l));
      assert LookIds([pwd] + looks) == LookIds([pwd] + before) + [Id(l)];
      assert Id(l) in Ids(nodes) <==> Id(l) in LookIds([pwd] + before) by {
        SameMembers(LookIds([pwd] + before), Ids(nodes), Id(l));
      }
      IdsCorrelated(nodes, l);
    }
  }

  lemma OneAppearance(x: Identity)
    ensures Appearances([x], [x])
  {
  }

  lemma SameMembers(s: seq<Identity>, r: seq<Identity>, x: Identity)
    requires Appearances(s, r)
    ensures x in s <==> x in r
  {
  }

  lemma NewPwd(l: Look, isPwd: bool)
    ensures NewNode(l, isPwd).dir.isPwd == isPwd
  {
  }

  lemma MarkKeeps(d: Dir, lookup: string, i: nat)
    requires i <= |d.files|
    ensures MarkFrom(d, lookup, i).isPwd == d.isPwd && MarkFrom(d, lookup, i).name == d.name
    decreases |d.files| - i
  {
  }

  lemma LookKeeps(n: Node, file: Option<string>)
    ensures var r := LookIn(n, file); r.dev == n.dev && r.inode == n.inode && r.dir.isPwd == n.dir.isPwd && r.dir.name == n.dir.name
  {
    if file.Some? {
      MarkKeeps(n.dir, file.value, 0);
    }
  }

  lemma IdsCorrelated(nodes: seq<Node>, l: Look)
    ensures var r := Correlated(nodes, l);
            && Ids(r) == (if Id(l) in Ids(nodes) then Ids(nodes) else Ids(nodes) + [Id(l)])
            && forall i :: 0 <= i < |r| ==> r[i].dir.isPwd == (i < |nodes| && nodes[i].dir.isPwd)
  {
    hide LookIn, NewNode;
    var k := Locate(nodes, l.dev, l.inode);
    NewIdentity(l, false);
    NewPwd(l, false);
    LookKeeps(NewNode(l, false), l.file);
    if k >= 0 {
      LookKeeps(nodes[k], l.file);
      assert Ids(nodes)[k] == Id(l);
    }
  }

  // ----- what the masks show -----

  lemma {:induction false} MaskFromCounts(fnmatch: (string, string) -> bool, masks: seq<Mask>, d: Dir, i: nat)
    requires i <= |d.files| && Counted(d) && forall j :: i <= j < |d.files| ==> (d.files[j].shown <==> d.files[j].selected == FsYes)
    ensures var r := MaskFrom(fnmatch, masks, d, i);
            && Counted(r) && r == d.(files := r.files, hiddenCount := r.hiddenCount)
            && forall j :: 0 <= j < |d.files| ==>
                 r.files[j] == if j < i then d.files[j] else MaskFile(fnmatch, masks, d.files[j])
    decreases |d.files| - i
  {
    hide Selected, Hidden, MaskTakes;
    if i < |d.files| {
      var f := d.files[i];
      SelectedReplaced(d.files, i, MaskFile(fnmatch, masks, f));
      var n := if f.selected != FsYes && MaskTakes(fnmatch, masks, f) then 1 else 0;
      MaskFromCounts(fnmatch, masks, d.(files := d.files[i := MaskFile(fnmatch, masks, f)], hiddenCount := d.hiddenCount - n), i + 1);
    }
  }

  /** A directory as it is reported: the counts count, every file is selected as the words
      say, and shown when it is selected or a mask takes it. */
  ghost predicate Reported(fnmatch: (string, string) -> bool, masks: seq<Mask>, n: Node, looks: seq<Look>) {
    && Counted(n.dir)
    && forall j :: 0 <= j < |n.dir.files| ==>
         var f := n.dir.files[j];
         && f.selected == Selection(looks, n.dev, n.inode, f.name)
         && (f.shown <==> f.selected == FsYes || MaskTakes(fnmatch, masks, f))
  }

  lemma MaskedReported(fnmatch: (string, string) -> bool, masks: seq<Mask>, n: Node, looks: seq<Look>)
    requires Found(n, looks)
    ensures Reported(fnmatch, masks, n.(dir := MaskFrom(fnmatch, masks, n.dir, 0)), looks)
  {
    hide Selected, Hidden, Selection;
    MaskFromCounts(fnmatch, masks, n.dir, 0);
    forall j | 0 <= j < |n.dir.files| {
      MaskSame(fnmatch, masks, n.dir.files[j]);
    }
  }

  lemma MaskSame(fnmatch: (string, string) -> bool, masks: seq<Mask>, f: File)
    ensures var g := MaskFile(fnmatch, masks, f);
            && g.name == f.name && g.selected == f.selected && g.fileType == f.fileType
            && (MaskTakes(fnmatch, masks, g) <==> MaskTakes(fnmatch, masks, f))
            && (g.shown <==> f.shown || (f.selected != FsYes && MaskTakes(fnmatch, masks, f)))
  {
    var g := MaskFile(fnmatch, masks, f);
    assert forall m :: m in masks ==>
      ((!m.dirsOnly || f.fileType == FtDirectory) && fnmatch(m.pattern, f.name)
       <==> (!m.dirsOnly || g.fileType == FtDirectory) && fnmatch(m.pattern, g.name));
  }

  /** Everything vgexpand reports. */
  lemma ExpansionReports(fnmatch: (string, string) -> bool, masks: seq<Mask>, pwd: Look, looks: seq<Look>)
    ensures var nodes := MaskDirs(fnmatch, masks, Compiled(pwd, looks));
            forall i :: 0 <= i < |nodes| ==> Reported(fnmatch, masks, nodes[i], looks)
  {
    hide Reported, Found, Compiled, MaskFrom;
    CompiledFound(pwd, looks);
    var nodes := Compiled(pwd, looks);
    forall i | 0 <= i < |nodes| {
      MaskedReported(fnmatch, masks, nodes[i], looks);
    }
  }

  /** A word of the mask that takes the file: it matches the name, or it ends in a slash, the
      file is a directory, and what comes before the slash matches. */
  predicate WordTakes(fnmatch: (string, string) -> bool, w: string, f: File) {
    if Slashed(w) then f.fileType == FtDirectory && fnmatch(w[..|w| - 1], f.name) else fnmatch(w, f.name)
  }

  /** A file no word of the command line selects is shown exactly when some word of the mask
      takes it; one that is selected is shown in any case. */
  lemma MaskShows(fnmatch: (string, string) -> bool, mask: string, masks: seq<Mask>, pwd: Look, looks: seq<Look>, n: Node, f: File)
    requires SplitInto(mask, masks) && n in MaskDirs(fnmatch, masks, Compiled(pwd, looks)) && f in n.dir.files
    ensures f.shown <==> f.selected == FsYes || exists w :: w in Words(Chugged(mask)).value && WordTakes(fnmatch, w, f)
  {
    hide Selection, Selected, Hidden, MaskTakes, MaskFrom, SplitInto, Words, Chugged, WordTakes;
    ExpansionReports(fnmatch, masks, pwd, looks);
    var nodes := MaskDirs(fnmatch, masks, Compiled(pwd, looks));
    var j :| 0 <= j < |nodes| && nodes[j] == n;
    assert Reported(fnmatch, masks, nodes[j], looks);
    WordsTake(fnmatch, mask, masks, f);
  }

  lemma WordsTake(fnmatch: (string, string) -> bool, mask: string, masks: seq<Mask>, f: File)
    requires SplitInto(mask, masks)
    ensures MaskTakes(fnmatch, masks, f) <==> exists w :: w in Words(Chugged(mask)).value && WordTakes(fnmatch, w, f)
  {
    hide Words, Chugged;
    var ws := Words(Chugged(mask)).value;
    if m :| m in masks && (!m.dirsOnly || f.fileType == FtDirectory) && fnmatch(m.pattern, f.name) {
      var i :| 0 <= i < |masks| && masks[i] == m;
      Unslashed(m, ws[i]);
      assert WordTakes(fnmatch, ws[i], f);
    }
    if w :| w in ws && WordTakes(fnmatch, w, f) {
      var i :| 0 <= i < |ws| && ws[i] == w;
      Unslashed(masks[i], w);
      assert masks[i] in masks;
    }
  }

  lemma Unslashed(m: Mask, w: string)
    requires m.pattern + (if m.dirsOnly then "/" else "") == w && m.dirsOnly == Slashed(w)
    ensures m.pattern == if Slashed(w) then w[..|w| - 1] else w
  {
  }

  lemma NodeCounted(fnmatch: (string, string) -> bool, masks: seq<Mask>, pwd: Look, looks: seq<Look>, n: Node)
    requires n in MaskDirs(fnmatch, masks, Compiled(pwd, looks))
    ensures n.dir.fileCount == |n.dir.files|
  {
    hide Selection, Selected, Hidden, MaskTakes, MaskFrom;
    ExpansionReports(fnmatch, masks, pwd, looks);
    var nodes := MaskDirs(fnmatch, masks, Compiled(pwd, looks));
    var j :| 0 <= j < |nodes| && nodes[j] == n;
    assert Reported(fnmatch, masks, nodes[j], looks);
  }

  // ----- the order of the report -----

  datatype SortOrder = Descending | Ascending | AscendingPwdFirst

  function Reverse<T>(s: seq<T>): (r: seq<T>)
    ensures |r| == |s| && forall i :: 0 <= i < |s| ==> r[i] == s[|s| - 1 - i]
  {
    if s == [] then [] else Reverse(s[1..]) + [s[0]]
  }

  function Ordered<T>(s: seq<T>, order: SortOrder): seq<T> {
    match order
    case Descending => s
    case Ascending => Reverse(s)
    case AscendingPwdFirst => if s == [] then [] else [s[0]] + Reverse(s[1..])
  }

  /** Downwards is the order of the list, upwards the other way; the working directory, which
      the list begins with, may be kept in front of the rest. */
  lemma OrderPlaces<T>(s: seq<T>, i: nat)
    requires i < |s|
    ensures Ordered(s, Descending)[i] == s[i]
    ensures |Ordered(s, Ascending)| == |s| && Ordered(s, Ascending)[i] == s[|s| - 1 - i]
    ensures |Ordered(s, AscendingPwdFirst)| == |s| && Ordered(s, AscendingPwdFirst)[i] == s[if i == 0 then 0 else |s| - i]
  {
  }

  lemma OrderedCases<T>(s: seq<T>)
    ensures [] + s == Ordered(s, Descending) && [] + Reverse(s) == Ordered(s, Ascending)
    ensures s == [] ==> [] + s == Ordered(s, AscendingPwdFirst)
    ensures s != [] ==> [s[0]] + Reverse(s[1..]) == Ordered(s, AscendingPwdFirst)
  {
  }

  lemma {:induction false} ReverseMembers<T>(s: seq<T>)
    ensures multiset(Reverse(s)) == multiset(s)
  {
    if s != [] {
      assert s == [s[0]] + s[1..];
      ReverseMembers(s[1..]);
    }
  }

  /** Whatever the order asked for, each directory is printed once. */
  lemma EachOnce<T>(s: seq<T>, order: SortOrder)
    ensures multiset(Ordered(s, order)) == multiset(s)
  {
    ReverseMembers(s);
    if s != [] {
      assert s == [s[0]] + s[1..];
      ReverseMembers(s[1..]);
    }
  }
}