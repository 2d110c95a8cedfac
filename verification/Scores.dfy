/** What makes a directory active: how much a listing changes what is shown of it, counted
    from the items it held before. */
module Scores {
  import opened Bytes
  import opened Listings
  import opened GlobData
  import opened Items
  import opened Display

  predicate Held(items: seq<Item>, f: File) {
    exists x :: x in items && x.name == f.name
  }

  predicate TypeHeld(items: seq<Item>, f: File) {
    exists x :: x in items && x.name == f.name && x.fileType == f.fileType
  }

  predicate SelectionHeld(items: seq<Item>, f: File) {
    exists x :: x in items && x.name == f.name && x.selection == f.selected
  }

  /** A file that is new, or of another type, counts 2; one selected otherwise counts 1. */
  function Change(items: seq<Item>, f: File): nat {
    if !Held(items, f) then 2
    else (if TypeHeld(items, f) then 0 else 2) + if SelectionHeld(items, f) then 0 else 1
  }

  function Changes(items: seq<Item>, fs: seq<File>): nat {
    if fs == [] then 0 else Changes(items, fs[..|fs| - 1]) + Change(items, fs[|fs| - 1])
  }

  lemma PointsAreChange(items: seq<Item>, f: File)
    requires NamesDistinct(items)
    ensures Points(items, f.name, f.fileType, f.selected) == Change(items, f)
  {
    hide IndexOf;
    var k := IndexOf(items, f.name);
    if k >= 0 {
      assert items[k] in items;
      forall x | x in items && x.name == f.name ensures x == items[k] {
        var i :| 0 <= i < |items| && items[i] == x;
      }
    }
  }

  /** Only the items of a file's name matter. */
  ghost predicate SameHeld(a: seq<Item>, b: seq<Item>, name: string) {
    forall x: Item :: x.name == name ==> (x in a <==> x in b)
  }

  lemma ChangeSame(a: seq<Item>, b: seq<Item>, f: File)
    requires SameHeld(a, b, f.name)
    ensures Change(a, f) == Change(b, f)
  {
  }

  lemma AddedElsewhere(items: seq<Item>, g: File, rank: int, name: string)
    requires NamesDistinct(items) && g.name != name
    ensures SameHeld(items, Added(items, g.name, g.fileType, g.selected, rank), name)
  {
    hide Added, IndexOf;
    var after := Added(items, g.name, g.fileType, g.selected, rank);
    AddedMembers(items, g.name, g.fileType, g.selected, rank);
    forall x: Item | x.name == name ensures x in items <==> x in after {
      assert x in items <==> x in multiset(items);
      assert x in after <==> x in multiset(after);
    }
  }

  lemma {:induction false} ReadElsewhere(items: seq<Item>, fs: seq<File>, name: string)
    requires NamesDistinct(items) && forall f :: f in fs ==> f.name != name
    ensures NamesDistinct(ReadIn(items, fs)) && SameHeld(items, ReadIn(items, fs), name)
    decreases |fs|
  {
    hide Added;
    if fs != [] {
      var n, g := |fs| - 1, fs[|fs| - 1];
      ReadElsewhere(items, fs[..n], name);
      DistinctAdded(ReadIn(items, fs[..n]), g.name, g.fileType, g.selected, n);
      AddedElsewhere(ReadIn(items, fs[..n]), g, n, name);
    }
  }

  /** Reading a directory's files adds up what each of them changes in what was held before,
      though they are compared with what has been read so far. */
  lemma {:induction false} ScoreAdds(dc: Dc, fs: seq<File>)
    requires NamesDistinct(dc.items) && FilesDistinct(fs)
    ensures FilesAdded(dc, fs, 0).score == dc.score + Changes(dc.items, fs)
    decreases |fs|
  {
    hide Added, Points, FilesAdded, ReadIn, Change;
    if fs == [] {
      NoneAdded(dc);
    } else {
      var n, f := |fs| - 1, fs[|fs| - 1];
      ScoreAdds(dc, fs[..n]);
      FilesAddedLast(dc, fs, 0);
      FilesAddedItems(dc, fs[..n]);
      ReadElsewhere(dc.items, fs[..n], f.name);
      PointsAreChange(ReadIn(dc.items, fs[..n]), f);
      ChangeSame(dc.items, ReadIn(dc.items, fs[..n]), f);
    }
  }

  lemma UnmarkedChange(items: seq<Item>, f: File)
    ensures Change(Unmarked(items), f) == Change(items, f)
  {
    var u := Unmarked(items);
    forall x | x in items ensures x.(marked := false) in u {
      var i :| 0 <= i < |items| && items[i] == x;
      assert u[i] == x.(marked := false);
    }
    forall y | y in u ensures exists x :: x in items && y == x.(marked := false) {
      var i :| 0 <= i < |u| && u[i] == y;
      assert items[i] in items;
    }
  }

  lemma {:induction false} UnmarkedChanges(items: seq<Item>, fs: seq<File>)
    ensures Changes(Unmarked(items), fs) == Changes(items, fs)
    decreases |fs|
  {
    hide Change;
    if fs != [] {
      UnmarkedChanges(items, fs[..|fs| - 1]);
      UnmarkedChange(items, fs[|fs| - 1]);
    }
  }

  lemma {:induction false} AllNew(fs: seq<File>)
    ensures Changes([], fs) == 2 * |fs|
    decreases |fs|
  {
    if fs != [] {
      AllNew(fs[..|fs| - 1]);
    }
  }

  /** Nothing is counted exactly when every file was shown before as it is now. */
  lemma {:induction false} UnchangedIff(items: seq<Item>, fs: seq<File>)
    requires NamesDistinct(items)
    ensures Changes(items, fs) == 0
            <==> forall f :: f in fs ==> exists m :: Item(f.name, f.fileType, f.selected, m) in items
    decreases |fs|
  {
    hide Change;
    if fs != [] {
      var n, f := |fs| - 1, fs[|fs| - 1];
      UnchangedIff(items, fs[..n]);
      UnchangedOne(items, f);
      assert fs == fs[..n] + [f];
    }
  }

  lemma UnchangedOne(items: seq<Item>, f: File)
    requires NamesDistinct(items)
    ensures Change(items, f) == 0 <==> exists m :: Item(f.name, f.fileType, f.selected, m) in items
  {
    if TypeHeld(items, f) && SelectionHeld(items, f) {
      var x :| x in items && x.name == f.name && x.fileType == f.fileType;
      var y :| y in items && y.name == f.name && y.selection == f.selected;
      var i :| 0 <= i < |items| && items[i] == x;
      var j :| 0 <= j < |items| && items[j] == y;
      assert x == Item(f.name, f.fileType, f.selected, x.marked);
    }
  }

  // ----- a whole listing -----

  /** What a directory scores: what changed in it, or, when it was not there, 100 and 2 for
      every file shown. */
  predicate Scored(dcs: seq<Dc>, d: Dir, dc: Dc) {
    && (forall k :: 0 <= k < |dcs| && dcs[k].name == d.name ==> dc.score == Changes(dcs[k].items, ShownFiles(d.files)))
    && ((forall k :: 0 <= k < |dcs| ==> dcs[k].name != d.name) ==> dc.score == 100 + 2 * |ShownFiles(d.files)|)
  }

  ghost predicate Untouched(dcs: seq<Dc>, r: seq<Dc>, k: nat)
    requires k < |r|
  {
    k < |dcs| && r[k].items == dcs[k].items && r[k].score == 0
  }

  /** While a listing is read: the directories read have their scores, and the others still
      hold what they held. */
  ghost predicate ScoredSoFar(dcs: seq<Dc>, r: seq<Dc>, ds: seq<Dir>, n: nat) {
    && n <= |ds| && |dcs| <= |r| && (forall k :: 0 <= k < |dcs| ==> r[k].name == dcs[k].name)
    && (forall k, j :: 0 <= k < |r| && 0 <= j < n && r[k].name == ds[j].name ==> Scored(dcs, ds[j], r[k]))
    && (forall k :: 0 <= k < |r| && (forall j :: 0 <= j < n ==> ds[j].name != r[k].name) ==> Untouched(dcs, r, k))
  }

  lemma KnownScored(dcs: seq<Dc>, d: Dir, dc: Dc, k: nat)
    requires Sound(dcs) && k < |dcs| && dcs[k].name == d.name && dc.score == Changes(dcs[k].items, ShownFiles(d.files))
    ensures Scored(dcs, d, dc)
  {
  }

  lemma AgainScores(dc: Dc, d: Dir, rank: int)
    requires NamesDistinct(dc.items) && Named(d)
    ensures var a, b, c := Decimal(d.selectedCount), Decimal(d.fileCount), Decimal(d.hiddenCount);
            var shown := ShownFiles(d.files);
            FilesAdded(Again(dc, d.isPwd, a, b, c, rank), shown, 0).score == dc.score + Changes(dc.items, shown)
  {
    hide Decimal, Changes, FilesAdded, ShownFiles;
    var a, b, c := Decimal(d.selectedCount), Decimal(d.fileCount), Decimal(d.hiddenCount);
    var shown := ShownFiles(d.files);
    UnmarkedChanges(dc.items, shown);
    ScoreAdds(Again(dc, d.isPwd, a, b, c, rank), shown);
  }

  lemma NewScores(d: Dir, rank: int)
    requires Named(d)
    ensures var a, b, c := Decimal(d.selectedCount), Decimal(d.fileCount), Decimal(d.hiddenCount);
            var shown := ShownFiles(d.files);
            FilesAdded(NewDc(d.name, d.isPwd, a, b, c, rank), shown, 0).score == 100 + 2 * |shown|
  {
    hide Decimal, Changes, FilesAdded, ShownFiles;
    var a, b, c := Decimal(d.selectedCount), Decimal(d.fileCount), Decimal(d.hiddenCount);
    var shown := ShownFiles(d.files);
    AllNew(shown);
    ScoreAdds(NewDc(d.name, d.isPwd, a, b, c, rank), shown);
  }

  lemma EntryScored(dcs: seq<Dc>, r: seq<Dc>, ds: seq<Dir>, n: nat)
    requires n < |ds| && DirsDistinct(ds) && Named(ds[n]) && Sound(dcs) && Sound(r) && ScoredSoFar(dcs, r, ds, n)
    ensures var next := ReadDir(r, ds[n], n);
            forall k :: 0 <= k < |next| && next[k].name == ds[n].name ==> Scored(dcs, ds[n], next[k])
  {
    hide Decimal, Changes, FilesAdded, ShownFiles, NamesDistinct;
    var d := ds[n];
    var k := Find(r, d.name);
    DirStep(r, d, n);
    if k >= 0 {
      assert Untouched(dcs, r, k);
      AgainScores(r[k], d, n);
      KnownScored(dcs, d, ReadDir(r, d, n)[k], k);
    } else {
      NewScores(d, n);
    }
  }

  lemma ScoredMore(dcs: seq<Dc>, r: seq<Dc>, ds: seq<Dir>, n: nat)
    requires n < |ds| && DirsDistinct(ds) && Named(ds[n]) && Sound(dcs) && Sound(r) && ScoredSoFar(dcs, r, ds, n)
    ensures Sound(ReadDir(r, ds[n], n)) && ScoredSoFar(dcs, ReadDir(r, ds[n], n), ds, n + 1)
  {
    hide Decimal, Changes, ReadDir, ShownFiles, NamesDistinct, Scored;
    EntryScored(dcs, r, ds, n);
    DirStep(r, ds[n], n);
  }

  lemma {:induction false} AllScored(dcs: seq<Dc>, r: Reading, ds: seq<Dir>, n: nat)
    requires DirsDistinct(ds) && forall d :: d in ds ==> Named(d)
    requires n <= |ds| && Sound(dcs) && Sound(r.dcs) && ScoredSoFar(dcs, r.dcs, ds, n) && r.dirRank == n - 1
    ensures ScoredSoFar(dcs, ApplyAll(r, DirsEvents(ds[n..])).dcs, ds, |ds|)
    decreases |ds| - n
  {
    hide ScoredSoFar, Named, DirEvents, ReadDir, Apply, Sound;
    if n == |ds| {
      assert ds[n..] == [] && ApplyAll(r, []) == r;
    } else {
      assert ds[n] in ds && ds[n..][0] == ds[n] && ds[n..][1..] == ds[n + 1..];
      ScoredMore(dcs, r.dcs, ds, n);
      DirApplied(r, ds[n]);
      ApplyBoth(r, DirEvents(ds[n]), DirsEvents(ds[n + 1..]));
      AllScored(dcs, ApplyAll(r, DirEvents(ds[n])), ds, n + 1);
    }
  }

  lemma ReadScores(dcs: seq<Dc>, ds: seq<Dir>, j: nat, dc: Dc)
    requires Sound(dcs) && DirsDistinct(ds) && (forall d :: d in ds ==> Named(d))
    requires dc in ApplyAll(Reading(dcs, -1, -1, -1), [Begin] + DirsEvents(ds)).dcs && j < |ds| && dc.name == ds[j].name
    ensures Scored(dcs, ds[j], dc)
  {
    hide DirsEvents, ApplyAll, Named, Scored, Sound;
    var start := Reading(dcs, -1, -1, -1);
    var next := Apply(start, Begin);
    BegunApplied(start, DirsEvents(ds));
    assert ds[0..] == ds;
    NoneScored(dcs, ds);
    AllScored(dcs, next, ds, 0);
  }

  lemma BegunApplied(r: Reading, es: seq<Event>)
    ensures ApplyAll(r, [Begin] + es) == ApplyAll(Apply(r, Begin), es)
  {
    assert ([Begin] + es)[1..] == es;
  }

  lemma NoneScored(dcs: seq<Dc>, ds: seq<Dir>)
    requires Sound(dcs)
    ensures Sound(UnmarkAll(dcs)) && ScoredSoFar(dcs, UnmarkAll(dcs), ds, 0)
  {
    hide Scored, NamesDistinct;
  }

  lemma CulledFrom(dcs: seq<Dc>, dc: Dc)
    requires dc in FlushAll(Culled(dcs))
    ensures exists e :: e in dcs && dc == Flushed(e)
  {
    var kept := Culled(dcs);
    CulledIn(dcs);
    var k :| 0 <= k < |FlushAll(kept)| && FlushAll(kept)[k] == dc;
    assert kept[k] in kept && dc == Flushed(kept[k]);
  }

  lemma FlushedScore(e: Dc, d: Dir, rank: int)
    requires Shows(Flushed(e), d, rank)
    ensures Flushed(e).score == (if d.fileCount == 0 then -1 else e.score) && e.name == d.name
  {
    DecimalRoundTrip(d.fileCount);
    DecimalRoundTrip(0);
    assert Decimal(0) == "0";
  }

  /** Read by a display in any state, a listing leaves every directory the score of what it
      changed there, or -1 if there is nothing to be read of it. */
  lemma ListingScores(dcs: seq<Dc>, ds: seq<Dir>, dc: Dc)
    requires Sound(dcs) && DirsDistinct(ds) && (forall d :: d in ds ==> Named(d))
    requires dc in After(dcs, [Begin] + DirsEvents(ds))
    ensures exists j :: 0 <= j < |ds| && dc.name == ds[j].name
                        && if ds[j].fileCount == 0 then dc.score == -1 else Scored(dcs, ds[j], dc)
  {
    hide DirsEvents, ApplyAll, Named, Scored, Sound, Shows, Flushed, Culled, NamesApart, AllShown;
    var es := [Begin] + DirsEvents(ds);
    var after := After(dcs, es);
    DisplayAgrees(dcs, ds);
    var k :| 0 <= k < |after| && after[k] == dc;
    assert IsFound(after[k], ds);
    var j :| 0 <= j < |ds| && Shows(dc, ds[j], j);
    var all := ApplyAll(Reading(dcs, -1, -1, -1), es).dcs;
    CulledFrom(all, dc);
    var e :| e in all && dc == Flushed(e);
    FlushedScore(e, ds[j], j);
    ReadScores(dcs, ds, j, e);
    ScoredAlike(dcs, ds[j], e, dc);
    ShowsName(dc, ds[j], j);
  }

  lemma ShowsName(dc: Dc, d: Dir, rank: int)
    requires Shows(dc, d, rank)
    ensures dc.name == d.name
  {
  }

  lemma ScoredAlike(dcs: seq<Dc>, d: Dir, e: Dc, dc: Dc)
    requires Scored(dcs, d, e)
    ensures dc.score == e.score ==> Scored(dcs, d, dc)
  {
  }
}
