/** The display's directories as values: what reading a listing does to them, and that they
    end up agreeing with it. */
module Display {
  import opened Bytes
  import opened Listings
  import opened GlobData
  import opened Items

  datatype Dc = Dc(name: string, isPwd: bool, selected: string, total: string, hidden: string,
                   marked: bool, rank: int, oldRank: int, score: int, items: seq<Item>)

  /** Between events: the directories, which one is being read (-1 before the first), and
      the ranks given out last. */
  datatype Reading = Reading(dcs: seq<Dc>, current: int, dirRank: int, fileRank: int)

  function Find(dcs: seq<Dc>, name: string): (k: int)
    ensures -1 <= k < |dcs|
    ensures k >= 0 ==> dcs[k].name == name && forall i :: 0 <= i < k ==> dcs[i].name != name
    ensures k < 0 ==> forall i :: 0 <= i < |dcs| ==> dcs[i].name != name
  {
    FindFrom(dcs, name, 0)
  }

  function FindFrom(dcs: seq<Dc>, name: string, from: nat): (k: int)
    requires from <= |dcs| && forall i :: 0 <= i < from ==> dcs[i].name != name
    ensures -1 <= k < |dcs|
    ensures k >= 0 ==> dcs[k].name == name && forall i :: 0 <= i < k ==> dcs[i].name != name
    ensures k < 0 ==> forall i :: 0 <= i < |dcs| ==> dcs[i].name != name
    decreases |dcs| - from
  {
    if from == |dcs| then -1 else if dcs[from].name == name then from else FindFrom(dcs, name, from + 1)
  }

  function UnmarkAll(dcs: seq<Dc>): (r: seq<Dc>)
    ensures |r| == |dcs| && forall i :: 0 <= i < |r| ==> r[i] == dcs[i].(marked := false, score := 0)
  {
    seq(|dcs|, i requires 0 <= i < |dcs| => dcs[i].(marked := false, score := 0))
  }

  /** The mark of the working directory comes off the name. */
  function Unmark(name: string): (string, bool) {
    if First(name) == PWD_CHAR then (name[1..], true) else (name, false)
  }

  /** A directory read again, its items unmarked. */
  function Again(dc: Dc, isPwd: bool, selected: string, total: string, hidden: string, rank: int): Dc {
    Dc(dc.name, isPwd, selected, total, hidden, true, rank, dc.rank, dc.score, Unmarked(dc.items))
  }

  function NewDc(name: string, isPwd: bool, selected: string, total: string, hidden: string, rank: int): Dc {
    Dc(name, isPwd, selected, total, hidden, true, rank, -1, 100, [])
  }

  function AddedDir(dcs: seq<Dc>, marked: string, selected: string, total: string, hidden: string, rank: int): seq<Dc> {
    var (name, isPwd) := Unmark(marked);
    var k := Find(dcs, name);
    if k >= 0 then dcs[k := Again(dcs[k], isPwd, selected, total, hidden, rank)]
    else dcs + [NewDc(name, isPwd, selected, total, hidden, rank)]
  }

  function AddedFile(dc: Dc, name: string, t: FileType, s: FileSelection, rank: int): Dc {
    dc.(items := Added(dc.items, name, t, s, rank), score := dc.score + Points(dc.items, name, t, s))
  }

  /** What one event does.  A file of no directory is nothing the text can say. */
  function Apply(r: Reading, e: Event): Reading {
    match e
    case Begin => r.(dcs := UnmarkAll(r.dcs), dirRank := -1)
    case DirEvent(marked, a, b, c) =>
      var dcs := AddedDir(r.dcs, marked, a, b, c, r.dirRank + 1);
      Reading(dcs, Find(dcs, Unmark(marked).0), r.dirRank + 1, -1)
    case FileEvent(name, t, s) =>
      if 0 <= r.current < |r.dcs| then
        r.(dcs := r.dcs[r.current := AddedFile(r.dcs[r.current], name, t, s, r.fileRank + 1)], fileRank := r.fileRank + 1)
      else r
  }

  function ApplyAll(r: Reading, es: seq<Event>): Reading
    decreases |es|
  {
    if es == [] then r else ApplyAll(Apply(r, es[0]), es[1..])
  }

  lemma {:induction false} ApplyBoth(r: Reading, a: seq<Event>, b: seq<Event>)
    ensures ApplyAll(r, a + b) == ApplyAll(ApplyAll(r, a), b)
    decreases |a|
  {
    if a == [] {
      assert a + b == b;
    } else {
      assert (a + b)[0] == a[0] && (a + b)[1..] == a[1..] + b;
      ApplyBoth(Apply(r, a[0]), a[1..], b);
    }
  }

  // ----- sweeping -----

  function Culled(dcs: seq<Dc>): seq<Dc> {
    if dcs == [] then [] else (if dcs[0].marked then [dcs[0]] else []) + Culled(dcs[1..])
  }

  /** Its items swept; a directory nothing can be read of never gets to be active. */
  function Flushed(dc: Dc): Dc {
    dc.(items := Marked(dc.items), score := if dc.total == "0" then -1 else dc.score)
  }

  function FlushAll(dcs: seq<Dc>): (r: seq<Dc>)
    ensures |r| == |dcs| && forall i :: 0 <= i < |r| ==> r[i] == Flushed(dcs[i])
  {
    seq(|dcs|, i requires 0 <= i < |dcs| => Flushed(dcs[i]))
  }

  /** The directories once a listing has been read. */
  function After(dcs: seq<Dc>, es: seq<Event>): seq<Dc> {
    FlushAll(Culled(ApplyAll(Reading(dcs, -1, -1, -1), es).dcs))
  }

  // ----- agreement -----

  predicate Sound(dcs: seq<Dc>) {
    && (forall i, j :: 0 <= i < j < |dcs| ==> dcs[i].name != dcs[j].name)
    && forall i :: 0 <= i < |dcs| ==> NamesDistinct(dcs[i].items)
  }

  /** A directory shows what was found there. */
  predicate Shows(dc: Dc, d: Dir, rank: int) {
    && dc.name == d.name && dc.isPwd == d.isPwd && dc.rank == rank
    && dc.selected == Decimal(d.selectedCount) && dc.total == Decimal(d.fileCount) && dc.hidden == Decimal(d.hiddenCount)
    && multiset(dc.items) == ItemsOf(ShownFiles(d.files)) && NamesDistinct(dc.items)
  }

  predicate DirsDistinct(ds: seq<Dir>) {
    forall i, j :: 0 <= i < j < |ds| ==> ds[i].name != ds[j].name
  }

  // A file's events, in terms of the directory being read.

  function FilesAdded(dc: Dc, fs: seq<File>, rank: int): Dc
    decreases |fs|
  {
    if fs == [] then dc
    else FilesAdded(AddedFile(dc, fs[0].name, fs[0].fileType, fs[0].selected, rank), fs[1..], rank + 1)
  }

  /** Reading a file printed, and then the rest. */
  lemma {:induction false} ApplyShown(r: Reading, f: File, fs: seq<File>)
    requires 0 <= r.current < |r.dcs| && f.shown
    ensures var shown := ShownFiles([f] + fs);
            ApplyAll(r, FileEvents([f] + fs))
            == r.(dcs := r.dcs[r.current := FilesAdded(r.dcs[r.current], shown, r.fileRank + 1)], fileRank := r.fileRank + |shown|)
    decreases |fs| + 1, 0
  {
    hide AddedFile, Apply, ShownFiles, FilesAdded, FileEvents;
    var was := r.dcs[r.current];
    FilesAddedFirst(was, f, fs, r.fileRank + 1);
    FileApplied(r, f);
    var e := FileEvent(f.name, f.fileType, f.selected);
    var more := FileEvents(fs);
    assert ([e] + more)[0] == e && ([e] + more)[1..] == more;
    ApplyFiles(Apply(r, e), fs);
    var dc := AddedFile(was, f.name, f.fileType, f.selected, r.fileRank + 1);
    ReplacedTwice(r.dcs, r.current, dc, FilesAdded(dc, ShownFiles(fs), r.fileRank + 2));
  }

  lemma FileApplied(r: Reading, f: File)
    requires 0 <= r.current < |r.dcs|
    ensures Apply(r, FileEvent(f.name, f.fileType, f.selected))
            == r.(dcs := r.dcs[r.current := AddedFile(r.dcs[r.current], f.name, f.fileType, f.selected, r.fileRank + 1)],
                  fileRank := r.fileRank + 1)
  {
  }

  lemma ReplacedTwice<T>(s: seq<T>, k: nat, x: T, y: T)
    requires k < |s|
    ensures s[k := x][k := y] == s[k := y]
  {
  }

  /** One more file read, of a directory's files to come. */
  lemma FilesAddedFirst(dc: Dc, f: File, fs: seq<File>, rank: int)
    requires f.shown
    ensures ShownFiles([f] + fs) == [f] + ShownFiles(fs)
    ensures FilesAdded(dc, [f] + ShownFiles(fs), rank)
            == FilesAdded(AddedFile(dc, f.name, f.fileType, f.selected, rank), ShownFiles(fs), rank + 1)
    ensures FileEvents([f] + fs) == [FileEvent(f.name, f.fileType, f.selected)] + FileEvents(fs)
  {
    assert ([f] + fs)[1..] == fs && ([f] + ShownFiles(fs))[1..] == ShownFiles(fs);
  }

  lemma {:induction false} ApplyFiles(r: Reading, fs: seq<File>)
    requires 0 <= r.current < |r.dcs|
    ensures var shown := ShownFiles(fs);
            ApplyAll(r, FileEvents(fs))
            == r.(dcs := r.dcs[r.current := FilesAdded(r.dcs[r.current], shown, r.fileRank + 1)], fileRank := r.fileRank + |shown|)
    decreases |fs|, 1
  {
    hide AddedFile, Apply;
    if fs == [] {
      assert r.dcs[r.current := r.dcs[r.current]] == r.dcs;
    } else if !fs[0].shown {
      assert FileEvents(fs) == FileEvents(fs[1..]) && ShownFiles(fs) == ShownFiles(fs[1..]);
      ApplyFiles(r, fs[1..]);
    } else {
      ApplyShown(r, fs[0], fs[1..]);
      assert fs == [fs[0]] + fs[1..];
    }
  }

  lemma {:induction false} FilesAddedLast(dc: Dc, fs: seq<File>, rank: int)
    requires fs != []
    ensures var f := fs[|fs| - 1];
            FilesAdded(dc, fs, rank)
            == AddedFile(FilesAdded(dc, fs[..|fs| - 1], rank), f.name, f.fileType, f.selected, rank + |fs| - 1)
    decreases |fs|
  {
    hide AddedFile;
    if |fs| > 1 {
      var next := AddedFile(dc, fs[0].name, fs[0].fileType, fs[0].selected, rank);
      FilesAddedLast(next, fs[1..], rank + 1);
      assert fs[1..][..|fs| - 2] == fs[..|fs| - 1][1..];
    } else {
      assert fs[..0] == [] && fs[1..] == [];
    }
  }

  /** Reading files one by one is reading them in. */
  lemma {:induction false} FilesAddedItems(dc: Dc, fs: seq<File>)
    ensures var r := FilesAdded(dc, fs, 0);
            r.items == ReadIn(dc.items, fs) && r == dc.(items := r.items, score := r.score)
    decreases |fs|
  {
    hide Added, Points, FilesAdded, ReadIn;
    if fs == [] {
      NoneAdded(dc);
    } else {
      FilesAddedLast(dc, fs, 0);
      FilesAddedItems(dc, fs[..|fs| - 1]);
      ReadInLast(dc.items, fs);
    }
  }

  lemma NoneAdded(dc: Dc)
    ensures FilesAdded(dc, [], 0) == dc && ReadIn(dc.items, []) == dc.items
  {
  }

  lemma ReadInLast(items: seq<Item>, fs: seq<File>)
    requires fs != []
    ensures var f := fs[|fs| - 1];
            ReadIn(items, fs) == Added(ReadIn(items, fs[..|fs| - 1]), f.name, f.fileType, f.selected, |fs| - 1)
  {
    hide Added;
  }

  // ----- one directory -----

  /** Before the sweep: the marked items are the files found. */
  predicate Reads(dc: Dc, d: Dir, rank: int) {
    && dc.marked && dc.name == d.name && dc.isPwd == d.isPwd && dc.rank == rank
    && dc.selected == Decimal(d.selectedCount) && dc.total == Decimal(d.fileCount) && dc.hidden == Decimal(d.hiddenCount)
    && Shown(dc.items) == ItemsOf(ShownFiles(d.files))
  }

  predicate Named(d: Dir) {
    FilesDistinct(ShownFiles(d.files)) && (!d.isPwd ==> First(d.name) != PWD_CHAR)
  }

  /** The directories after `d` has been read, with the rank it got. */
  function ReadDir(dcs: seq<Dc>, d: Dir, rank: int): seq<Dc> {
    var k := Find(dcs, d.name);
    var a, b, c := Decimal(d.selectedCount), Decimal(d.fileCount), Decimal(d.hiddenCount);
    var shown := ShownFiles(d.files);
    if k >= 0 then dcs[k := FilesAdded(Again(dcs[k], d.isPwd, a, b, c, rank), shown, 0)]
    else dcs + [FilesAdded(NewDc(d.name, d.isPwd, a, b, c, rank), shown, 0)]
  }

  lemma FindLast(dcs: seq<Dc>, dc: Dc)
    requires Find(dcs, dc.name) < 0
    ensures Find(dcs + [dc], dc.name) == |dcs|
  {
    var k := Find(dcs + [dc], dc.name);
    assert (dcs + [dc])[|dcs|] == dc;
  }

  lemma FindSame(dcs: seq<Dc>, k: nat, dc: Dc)
    requires k < |dcs| && Find(dcs, dc.name) == k && dcs[k].name == dc.name
    ensures Find(dcs[k := dc], dc.name) == k
  {
    assert dcs[k := dc][k] == dc;
  }

  lemma DirApplied(r: Reading, d: Dir)
    requires Named(d)
    ensures var next := ApplyAll(r, DirEvents(d)); next.dcs == ReadDir(r.dcs, d, r.dirRank + 1) && next.dirRank == r.dirRank + 1
  {
    hide FilesAdded, Decimal, Find, AddedFile, ShownFiles, FileEvents, FilesDistinct;
    var marked := (if d.isPwd then [PWD_CHAR] else "") + d.name;
    assert Unmark(marked) == (d.name, d.isPwd) by {
      assert d.isPwd ==> marked[1..] == d.name;
      assert !d.isPwd ==> marked == d.name;
    }
    var a, b, c := Decimal(d.selectedCount), Decimal(d.fileCount), Decimal(d.hiddenCount);
    var e := DirEvent(marked, a, b, c);
    assert DirEvents(d)[0] == e && DirEvents(d)[1..] == FileEvents(d.files);
    var next := Apply(r, e);
    var k := Find(r.dcs, d.name);
    if k >= 0 {
      FindSame(r.dcs, k, Again(r.dcs[k], d.isPwd, a, b, c, r.dirRank + 1));
    } else {
      FindLast(r.dcs, NewDc(d.name, d.isPwd, a, b, c, r.dirRank + 1));
    }
    ApplyFiles(next, d.files);
  }

  lemma DirReads(dc: Dc, d: Dir, rank: int)
    requires Named(d) && NamesDistinct(dc.items) && forall i :: 0 <= i < |dc.items| ==> !dc.items[i].marked
    requires dc == Dc(d.name, d.isPwd, Decimal(d.selectedCount), Decimal(d.fileCount), Decimal(d.hiddenCount),
                      true, rank, dc.oldRank, dc.score, dc.items)
    ensures var r := FilesAdded(dc, ShownFiles(d.files), 0); Reads(r, d, rank) && NamesDistinct(r.items)
  {
    hide ReadIn, Shown, ItemsOf;
    FilesAddedItems(dc, ShownFiles(d.files));
    ReadInShows(dc.items, ShownFiles(d.files));
  }

  /** Reading a directory makes its entry agree, and leaves every other alone. */
  lemma DirStep(dcs: seq<Dc>, d: Dir, rank: int)
    requires Sound(dcs) && Named(d)
    ensures var r := ReadDir(dcs, d, rank);
            && Sound(r) && |r| >= |dcs|
            && IsRead(r, d, rank)
            && (forall k :: 0 <= k < |dcs| && dcs[k].name != d.name ==> r[k] == dcs[k])
            && forall k :: 0 <= k < |r| && r[k].name != d.name ==> k < |dcs| && r[k] == dcs[k]
  {
    hide FilesAdded, Decimal, Shown, ItemsOf, ShownFiles;
    var a, b, c := Decimal(d.selectedCount), Decimal(d.fileCount), Decimal(d.hiddenCount);
    var k := Find(dcs, d.name);
    var r := ReadDir(dcs, d, rank);
    if k >= 0 {
      DirReads(Again(dcs[k], d.isPwd, a, b, c, rank), d, rank);
      assert Reads(r[k], d, rank);
    } else {
      DirReads(NewDc(d.name, d.isPwd, a, b, c, rank), d, rank);
      assert Reads(r[|dcs|], d, rank);
    }
  }

  // ----- the listing -----

  ghost predicate IsRead(dcs: seq<Dc>, d: Dir, rank: int) {
    exists k :: 0 <= k < |dcs| && Reads(dcs[k], d, rank)
  }

  /** The first `n` directories have been read. */
  ghost predicate ReadSoFar(dcs: seq<Dc>, ds: seq<Dir>, n: nat) {
    && n <= |ds| && Sound(dcs)
    && (forall j :: 0 <= j < n ==> IsRead(dcs, ds[j], j))
    && forall k :: 0 <= k < |dcs| && dcs[k].marked ==> exists j :: 0 <= j < n && ds[j].name == dcs[k].name
  }

  lemma ReadsName(dc: Dc, d: Dir, rank: int)
    requires Reads(dc, d, rank)
    ensures dc.name == d.name && dc.marked
  {
  }

  lemma ReadMore(dcs: seq<Dc>, ds: seq<Dir>, n: nat)
    requires n < |ds| && ReadSoFar(dcs, ds, n) && DirsDistinct(ds) && Named(ds[n])
    ensures ReadSoFar(ReadDir(dcs, ds[n], n), ds, n + 1)
  {
    hide ReadDir, Sound, Reads, Named;
    var r := ReadDir(dcs, ds[n], n);
    DirStep(dcs, ds[n], n);
    forall j | 0 <= j < n + 1 ensures IsRead(r, ds[j], j) {
      if j < n {
        StillRead(dcs, r, ds, n, j);
      }
    }
    forall k | 0 <= k < |r| && r[k].marked ensures exists j :: 0 <= j < n + 1 && ds[j].name == r[k].name {
      if r[k].name == ds[n].name {
        assert ds[n].name == r[k].name;
      } else {
        var j :| 0 <= j < n && ds[j].name == dcs[k].name;
        assert ds[j].name == r[k].name;
      }
    }
  }

  lemma StillRead(dcs: seq<Dc>, r: seq<Dc>, ds: seq<Dir>, n: nat, j: nat)
    requires j < n < |ds| && DirsDistinct(ds) && |r| >= |dcs|
    requires IsRead(dcs, ds[j], j)
    requires forall k :: 0 <= k < |dcs| && dcs[k].name != ds[n].name ==> r[k] == dcs[k]
    ensures IsRead(r, ds[j], j)
  {
    hide Reads;
    var k :| 0 <= k < |dcs| && Reads(dcs[k], ds[j], j);
    ReadsName(dcs[k], ds[j], j);
    assert Reads(r[k], ds[j], j);
  }

  lemma {:induction false} AllRead(r: Reading, ds: seq<Dir>, n: nat)
    requires DirsDistinct(ds) && forall d :: d in ds ==> Named(d)
    requires n <= |ds| && ReadSoFar(r.dcs, ds, n) && r.dirRank == n - 1
    ensures ReadSoFar(ApplyAll(r, DirsEvents(ds[n..])).dcs, ds, |ds|)
    decreases |ds| - n
  {
    hide ReadSoFar, Named, DirEvents, ReadDir, Apply;
    if n == |ds| {
      assert ds[n..] == [] && ApplyAll(r, []) == r;
    } else {
      assert ds[n] in ds && ds[n..][0] == ds[n] && ds[n..][1..] == ds[n + 1..];
      ReadMore(r.dcs, ds, n);
      DirApplied(r, ds[n]);
      ApplyBoth(r, DirEvents(ds[n]), DirsEvents(ds[n + 1..]));
      AllRead(ApplyAll(r, DirEvents(ds[n])), ds, n + 1);
    }
  }

  // ----- the sweep -----

  lemma {:induction false} CulledIn(dcs: seq<Dc>)
    ensures forall dc :: dc in Culled(dcs) <==> dc in dcs && dc.marked
  {
    if dcs != [] {
      CulledIn(dcs[1..]);
      assert dcs == [dcs[0]] + dcs[1..];
    }
  }

  lemma SoundTail(dcs: seq<Dc>)
    requires Sound(dcs) && dcs != []
    ensures Sound(dcs[1..]) && NamesDistinct(dcs[0].items) && forall dc :: dc in dcs[1..] ==> dc.name != dcs[0].name
  {
    hide NamesDistinct;
  }

  lemma SoundCons(d: Dc, dcs: seq<Dc>)
    requires Sound(dcs) && NamesDistinct(d.items) && forall dc :: dc in dcs ==> dc.name != d.name
    ensures Sound([d] + dcs)
  {
    hide NamesDistinct;
  }

  lemma {:induction false} CulledMembers(dcs: seq<Dc>)
    requires Sound(dcs)
    ensures Sound(Culled(dcs)) && forall dc :: dc in Culled(dcs) <==> dc in dcs && dc.marked
  {
    hide NamesDistinct, Sound;
    CulledIn(dcs);
    if dcs != [] {
      SoundTail(dcs);
      CulledIn(dcs[1..]);
      CulledMembers(dcs[1..]);
      SoundCons(dcs[0], Culled(dcs[1..]));
      assert [] + Culled(dcs[1..]) == Culled(dcs[1..]);
    } else {
      NothingSound();
    }
  }

  lemma NothingSound()
    ensures Sound([])
  {
  }

  /** The display agrees with a listing: every directory is shown with its counts, its rank
      and its files, each file once; and nothing else is shown. */
  ghost predicate Agrees(dcs: seq<Dc>, ds: seq<Dir>) {
    NamesApart(dcs) && AllShown(dcs, ds) && OnlyShown(dcs, ds)
  }

  predicate NamesApart(dcs: seq<Dc>) {
    forall i, j :: 0 <= i < j < |dcs| ==> dcs[i].name != dcs[j].name
  }

  ghost predicate IsShown(dcs: seq<Dc>, d: Dir, rank: int) {
    exists k :: 0 <= k < |dcs| && Shows(dcs[k], d, rank)
  }

  ghost predicate AllShown(dcs: seq<Dc>, ds: seq<Dir>) {
    forall j :: 0 <= j < |ds| ==> IsShown(dcs, ds[j], j)
  }

  ghost predicate IsFound(dc: Dc, ds: seq<Dir>) {
    exists j :: 0 <= j < |ds| && Shows(dc, ds[j], j)
  }

  ghost predicate OnlyShown(dcs: seq<Dc>, ds: seq<Dir>) {
    forall k :: 0 <= k < |dcs| ==> IsFound(dcs[k], ds)
  }

  lemma SweptShows(dc: Dc, d: Dir, rank: int)
    requires Reads(dc, d, rank) && NamesDistinct(dc.items)
    ensures Shows(Flushed(dc), d, rank)
  {
    hide Decimal, ItemsOf, ShownFiles;
    MarkedKeepsNames(dc.items);
  }

  lemma SweptAgrees(dcs: seq<Dc>, ds: seq<Dir>)
    requires ReadSoFar(dcs, ds, |ds|)
    ensures Agrees(FlushAll(Culled(dcs)), ds)
  {
    hide Sound, Reads, Culled, Flushed, FlushAll, NamesApart, IsShown, IsFound;
    var kept := Culled(dcs);
    CulledMembers(dcs);
    FlushedNames(kept);
    var r := FlushAll(kept);
    assert AllShown(r, ds) by {
      forall j | 0 <= j < |ds| ensures IsShown(r, ds[j], j) {
        FoundIsShown(dcs, kept, ds[j], j);
      }
    }
    assert OnlyShown(r, ds) by {
      forall k | 0 <= k < |r| ensures IsFound(r[k], ds) {
        ShownIsFound(dcs, kept, ds, k);
      }
    }
  }

  lemma FoundIsShown(dcs: seq<Dc>, kept: seq<Dc>, d: Dir, rank: int)
    requires Sound(dcs) && IsRead(dcs, d, rank)
    requires forall dc :: dc in kept <==> dc in dcs && dc.marked
    ensures IsShown(FlushAll(kept), d, rank)
  {
    hide Sound, Reads, Shows, Flushed;
    var i :| 0 <= i < |dcs| && Reads(dcs[i], d, rank);
    NamesOf(dcs);
    ReadsName(dcs[i], d, rank);
    SweptShows(dcs[i], d, rank);
    assert dcs[i] in kept;
    var k :| 0 <= k < |kept| && kept[k] == dcs[i];
    assert Shows(FlushAll(kept)[k], d, rank);
  }

  lemma ShownIsFound(dcs: seq<Dc>, kept: seq<Dc>, ds: seq<Dir>, k: nat)
    requires ReadSoFar(dcs, ds, |ds|) && k < |kept|
    requires forall dc :: dc in kept <==> dc in dcs && dc.marked
    ensures IsFound(FlushAll(kept)[k], ds)
  {
    hide Sound, Reads, Shows, Flushed;
    NamesOf(dcs);
    assert kept[k] in kept;
    var i :| 0 <= i < |dcs| && dcs[i] == kept[k];
    var j :| 0 <= j < |ds| && ds[j].name == dcs[i].name;
    var m :| 0 <= m < |dcs| && Reads(dcs[m], ds[j], j);
    ReadsName(dcs[m], ds[j], j);
    assert m == i;
    SweptShows(dcs[i], ds[j], j);
    assert Shows(FlushAll(kept)[k], ds[j], j);
  }

  lemma NamesOf(dcs: seq<Dc>)
    requires Sound(dcs)
    ensures forall i, j :: 0 <= i < j < |dcs| ==> dcs[i].name != dcs[j].name
    ensures forall i :: 0 <= i < |dcs| ==> NamesDistinct(dcs[i].items)
  {
  }

  lemma FlushedNames(dcs: seq<Dc>)
    requires Sound(dcs)
    ensures NamesApart(FlushAll(dcs))
  {
    var r := FlushAll(dcs);
    forall i | 0 <= i < |dcs| ensures r[i].name == dcs[i].name {
      assert r[i] == Flushed(dcs[i]);
    }
  }

  /** From any earlier state, the display agrees with a listing once it has been read. */
  lemma DisplayAgrees(dcs: seq<Dc>, ds: seq<Dir>)
    requires Sound(dcs) && DirsDistinct(ds) && forall d :: d in ds ==> Named(d)
    ensures Agrees(After(dcs, [Begin] + DirsEvents(ds)), ds)
  {
    hide DirsEvents, ReadIn, Agrees, Named;
    var es := [Begin] + DirsEvents(ds);
    assert es[1..] == DirsEvents(ds) == DirsEvents(ds[0..]) by { assert ds[0..] == ds; }
    var r := Reading(dcs, -1, -1, -1);
    var next := Apply(r, Begin);
    AllRead(next, ds, 0);
    SweptAgrees(ApplyAll(next, DirsEvents(ds)).dcs, ds);
  }
}
