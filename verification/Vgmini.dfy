/** The display program: its directories as objects, marked, updated, culled and put in
    order in place while a listing is read. */
module Vgmini {
  import opened Bytes
  import opened Listings
  import opened GlobData
  import opened Items
  import opened FileBoxes
  import opened Display

  class DirCont {
    const name: string
    const box: FileBox
    var isPwd: bool
    var selected: string
    var total: string
    var hidden: string
    var isRestricted: bool
    var marked: bool
    var rank: int
    var oldRank: int
    var score: int

    ghost function Value(): Dc
      reads this, box, box.fis
    {
      Dc(name, isPwd, selected, total, hidden, marked, rank, oldRank, score, box.Contents())
    }

    ghost predicate Ok()
      reads this, box, box.fis
    {
      box.Valid() && isRestricted == (total == "0")
    }

    constructor (name: string)
      ensures this.name == name && Ok() && fresh(box) && box.fis == []
      ensures Value() == Dc(name, false, "0", "0", "0", false, -1, -1, 0, [])
    {
      this.name := name;
      box := new FileBox();
      isPwd, selected, total, hidden, isRestricted := false, "", "", "", false;
      marked, rank, oldRank, score := false, -1, -1, 0;
      new;
      SetCounts("0", "0", "0");
    }

    method Unmark()
      modifies this`marked, this`score
      ensures Value() == old(Value()).(marked := false, score := 0) && (old(Ok()) ==> Ok())
    {
      marked, score := false, 0;
    }

    method SetCounts(selected: string, total: string, hidden: string)
      requires Ok()
      modifies this`selected, this`total, this`hidden, this`isRestricted
      ensures Ok() && Value() == old(Value()).(selected := selected, total := total, hidden := hidden)
    {
      var changed := selected != this.selected;
      if changed {
        this.selected := selected;
      }
      changed := changed || total != this.total;
      if changed {
        isRestricted, this.total := total == "0", total;
      }
      changed := changed || hidden != this.hidden;
      if changed {
        this.hidden := hidden;
      }
    }

    method Mark(newRank: int)
      modifies this`marked, this`oldRank, this`rank
      ensures Value() == old(Value()).(marked := true, oldRank := old(rank), rank := newRank)
    {
      marked, oldRank := true, rank;
      rank := newRank;
    }

    /** A directory not known before. */
    method BeginNew(isPwd: bool, selected: string, total: string, hidden: string, newRank: int)
      requires Ok() && Value() == Dc(name, false, "0", "0", "0", false, -1, -1, 0, [])
      modifies this
      ensures Ok() && Value() == NewDc(name, isPwd, selected, total, hidden, newRank)
    {
      hide FileBox.Valid;
      SetCounts(selected, total, hidden);
      this.isPwd := isPwd;
      Mark(newRank);
      score := score + 100;
    }

    /** This directory is about to be read again. */
    method BeginAgain(isPwd: bool, selected: string, total: string, hidden: string, newRank: int)
      requires Ok()
      modifies this, box`changedFi, box.fis
      ensures Ok() && Value() == Again(old(Value()), isPwd, selected, total, hidden, newRank)
    {
      hide FileBox.Valid;
      SetCounts(selected, total, hidden);
      this.isPwd := isPwd;
      Mark(newRank);
      box.BeginRead();
    }

    method AddFile(fileName: string, t: FileType, s: FileSelection, fileRank: int)
      requires Ok()
      modifies this`score, box, box.fis
      ensures Ok() && Value() == AddedFile(old(Value()), fileName, t, s, fileRank)
      ensures forall f :: f in box.fis ==> f in old(box.fis) || fresh(f)
    {
      hide FileBox.Valid, Added, Points;
      var points := box.Add(fileName, t, s, fileRank);
      score := score + points;
    }

    /** Sweep out the files that were not read again. */
    method Flush()
      requires Ok()
      modifies this`score, box`fis, box`children
      ensures Ok() && Value() == Flushed(old(Value())) && forall f :: f in box.fis ==> f in old(box.fis)
    {
      hide FileBox.Valid, Marked;
      box.Flush();
      if isRestricted {
        score := -1;
      }
    }
  }

  ghost function Boxes(ds: seq<DirCont>): set<FileBox> {
    set d | d in ds :: d.box
  }

  ghost function Files(ds: seq<DirCont>): set<FItem>
    reads Boxes(ds)
  {
    set d, i | d in ds && 0 <= i < |d.box.fis| :: d.box.fis[i]
  }

  /** Two directories share nothing. */
  ghost predicate Apart(d: DirCont, e: DirCont)
    reads d.box, e.box
  {
    d.name != e.name && d.box != e.box && forall i :: 0 <= i < |d.box.fis| ==> d.box.fis[i] !in e.box.fis
  }

  ghost function ValuesOf(ds: seq<DirCont>): (r: seq<Dc>)
    reads ds, Boxes(ds), Files(ds)
    ensures |r| == |ds| && forall i :: 0 <= i < |ds| ==> r[i] == ds[i].Value()
  {
    seq(|ds|, i requires 0 <= i < |ds| reads ds, Boxes(ds), Files(ds) => assert ds[i] in ds; ds[i].Value())
  }

  ghost predicate AllApart(ds: seq<DirCont>)
    reads ds, Boxes(ds), Files(ds)
  {
    forall i, j :: 0 <= i < |ds| && 0 <= j < |ds| && i != j ==> Apart(ds[i], ds[j])
  }

  ghost predicate AllOk(ds: seq<DirCont>)
    reads ds, Boxes(ds), Files(ds)
  {
    forall d :: d in ds ==> d.Ok()
  }

  twostate predicate Untouched(d: DirCont)
    reads d, d.box, d.box.fis
  {
    unchanged(d) && unchanged(d.box) && forall i :: 0 <= i < |old(d.box.fis)| ==> unchanged(old(d.box.fis)[i])
  }

  twostate lemma Kept(d: DirCont)
    requires Untouched(d)
    ensures d.Value() == old(d.Value()) && (old(d.Ok()) ==> d.Ok())
  {
    hide DirCont.Ok, DirCont.Value;
  }

  /** Work on one directory leaves the others as they were. */
  twostate lemma OthersKept(ds: seq<DirCont>, new k: nat)
    requires k < |ds| && old(AllApart(ds)) && old(AllOk(ds))
    requires forall i :: 0 <= i < |ds| && i != k ==> Untouched(ds[i])
    requires forall f :: f in ds[k].box.fis ==> f in old(ds[k].box.fis) || fresh(f)
    ensures forall f :: f in Files(ds) ==> f in old(Files(ds)) || fresh(f)
    ensures AllApart(ds) && (ds[k].Ok() ==> AllOk(ds))
    ensures ValuesOf(ds) == old(ValuesOf(ds))[k := ds[k].Value()]
  {
    hide DirCont.Ok, DirCont.Value;
    forall i | 0 <= i < |ds| && i != k ensures ds[i].Value() == old(ds[i].Value()) && ds[i].Ok() {
      assert Untouched(ds[i]);
      Kept(ds[i]);
    }
    forall i, j | 0 <= i < |ds| && 0 <= j < |ds| && i != j ensures Apart(ds[i], ds[j]) {
      StillApart(ds, i, j, k);
    }
    forall f | f in Files(ds) ensures f in old(Files(ds)) || fresh(f) {
      FreshFile(ds, k, f);
    }
  }

  twostate lemma FreshFile(ds: seq<DirCont>, new k: nat, new f: FItem)
    requires k < |ds| && f in Files(ds)
    requires forall i :: 0 <= i < |ds| && i != k ==> Untouched(ds[i])
    requires forall f :: f in ds[k].box.fis ==> f in old(ds[k].box.fis) || fresh(f)
    ensures f in old(Files(ds)) || fresh(f)
  {
    var d, i :| d in ds && 0 <= i < |d.box.fis| && f == d.box.fis[i];
    var j :| 0 <= j < |ds| && ds[j] == d;
    assert j != k ==> Untouched(ds[j]);
    assert f in d.box.fis;
    if f in old(d.box.fis) {
      var m :| 0 <= m < |old(d.box.fis)| && old(d.box.fis)[m] == f;
      assert f in old(Files(ds));
    }
  }

  twostate lemma StillApart(ds: seq<DirCont>, new i: nat, new j: nat, new k: nat)
    requires i < |ds| && j < |ds| && k < |ds| && i != j && old(AllApart(ds))
    requires forall m :: 0 <= m < |ds| && m != k ==> Untouched(ds[m])
    requires forall f :: f in ds[k].box.fis ==> f in old(ds[k].box.fis) || fresh(f)
    ensures Apart(ds[i], ds[j])
  {
    var d, e := ds[i], ds[j];
    assert old(Apart(d, e)) && old(Apart(e, d));
    assert i != k ==> Untouched(d);
    assert j != k ==> Untouched(e);
  }

  twostate lemma FewerFiles(ds: seq<DirCont>, new k: nat, new f: FItem)
    requires k < |ds| && f in Files(ds)
    requires forall i :: 0 <= i < |ds| && i != k ==> Untouched(ds[i])
    requires forall f :: f in ds[k].box.fis ==> f in old(ds[k].box.fis)
    ensures f in old(Files(ds))
  {
    var d, i :| d in ds && 0 <= i < |d.box.fis| && f == d.box.fis[i];
    var j :| 0 <= j < |ds| && ds[j] == d;
    assert j == k || Untouched(ds[j]);
    assert f in old(d.box.fis);
    var m :| 0 <= m < |old(d.box.fis)| && old(d.box.fis)[m] == f;
  }

  twostate lemma AllKept(ds: seq<DirCont>)
    requires old(AllApart(ds)) && old(AllOk(ds)) && forall d :: d in ds ==> Untouched(d)
    ensures AllApart(ds) && AllOk(ds) && ValuesOf(ds) == old(ValuesOf(ds)) && Files(ds) == old(Files(ds))
  {
    hide DirCont.Ok, DirCont.Value;
    forall i | 0 <= i < |ds| ensures ds[i].Value() == old(ds[i].Value()) && ds[i].Ok() {
      Kept(ds[i]);
    }
    forall i, j | 0 <= i < |ds| && 0 <= j < |ds| && i != j ensures Apart(ds[i], ds[j]) {
      assert old(Apart(ds[i], ds[j]));
      assert Untouched(ds[i]) && Untouched(ds[j]);
    }
    assert forall d, i :: d in ds && 0 <= i < |d.box.fis| ==> d.box.fis[i] == old(d.box.fis)[i];
  }

  lemma NotNamed(ds: seq<DirCont>, name: string)
    requires Find(ValuesOf(ds), name) < 0
    ensures forall d :: d in ds ==> d.name != name
  {
    forall d | d in ds ensures d.name != name {
      var i :| 0 <= i < |ds| && ds[i] == d;
      assert ValuesOf(ds)[i].name == d.name;
    }
  }

  lemma Appended(ds: seq<DirCont>, dc: DirCont)
    requires AllApart(ds) && AllOk(ds) && dc.Ok() && forall d :: d in ds ==> Apart(d, dc) && Apart(dc, d)
    requires dc.box.fis == []
    ensures AllApart(ds + [dc]) && AllOk(ds + [dc]) && ValuesOf(ds + [dc]) == ValuesOf(ds) + [dc.Value()]
    ensures Files(ds + [dc]) == Files(ds)
  {
    hide DirCont.Ok, DirCont.Value;
  }

  class Vgmini {
    var dcs: seq<DirCont>
    var active: DirCont?

    ghost predicate Valid()
      reads this, dcs, Boxes(dcs), Files(dcs)
    {
      AllApart(dcs) && AllOk(dcs) && (active != null ==> active in dcs)
    }

    ghost function Values(): seq<Dc>
      reads this, dcs, Boxes(dcs), Files(dcs)
    {
      ValuesOf(dcs)
    }

    constructor ()
      ensures Valid() && dcs == []
    {
      dcs, active := [], null;
    }

    method FindDc(name: string) returns (k: int)
      ensures k == Find(Values(), name)
    {
      k := 0;
      while k < |dcs|
        invariant 0 <= k <= |dcs|
        invariant forall i :: 0 <= i < k ==> dcs[i].name != name
      {
        if dcs[k].name == name {
          assert Values()[k].name == name;
          return;
        }
        k := k + 1;
      }
      k := -1;
    }

    method UnmarkAllDirconts()
      requires Valid()
      modifies dcs
      ensures Valid() && Values() == UnmarkAll(old(Values())) && Files(dcs) == old(Files(dcs))
    {
      hide DirCont.Ok, DirCont.Value;
      ghost var was := Values();
      var k := 0;
      while k < |dcs|
        invariant 0 <= k <= |dcs| && AllOk(dcs) && AllApart(dcs) && Files(dcs) == old(Files(dcs))
        invariant forall i :: 0 <= i < |dcs| ==>
                    Values()[i] == if i < k then was[i].(marked := false, score := 0) else was[i]
      {
        label L:
        dcs[k].Unmark();
        forall i | 0 <= i < |dcs| && i != k ensures Untouched@L(dcs[i]) {
          assert Apart(dcs[i], dcs[k]);
        }
        OthersKept@L(dcs, k);
        k := k + 1;
      }
    }

    /** Read the heading of a directory: look it up, or make it new. */
    method AddDirCont(marked: string, rank: int, selected: string, total: string, hidden: string)
      returns (dc: DirCont, ghost k: nat)
      requires Valid()
      modifies this`dcs, dcs, Boxes(dcs), Files(dcs)
      ensures Valid() && k < |dcs| && dcs[k] == dc && k == Find(Values(), Unmark(marked).0)
      ensures Values() == AddedDir(old(Values()), marked, selected, total, hidden, rank)
      ensures forall f :: f in Files(dcs) ==> f in old(Files(dcs)) || fresh(f)
      ensures forall b :: b in Boxes(dcs) ==> b in old(Boxes(dcs)) || fresh(b)
      ensures forall i :: 0 <= i < |dcs| ==> dcs[i] in old(dcs) || fresh(dcs[i])
    {
      hide DirCont.Ok, DirCont.Value, Find, AllApart, AllOk, ValuesOf, Unmark, Apart;
      var (name, isPwd) := Unmark(marked);
      var at := FindDc(name);
      if at >= 0 {
        k := at;
        dc := dcs[at];
        FindSame(Values(), k, Again(Values()[k], isPwd, selected, total, hidden, rank));
        UpdateDc(dc, k, isPwd, rank, selected, total, hidden);
      } else {
        FindLast(Values(), NewDc(name, isPwd, selected, total, hidden, rank));
        dc, k := NewDirCont(name, isPwd, rank, selected, total, hidden);
      }
    }

    method UpdateDc(dc: DirCont, ghost k: nat, isPwd: bool, rank: int, selected: string, total: string, hidden: string)
      requires Valid() && k < |dcs| && dcs[k] == dc
      modifies dc, dc.box, dc.box.fis
      ensures Valid() && Values() == old(Values())[k := Again(old(Values())[k], isPwd, selected, total, hidden, rank)]
      ensures Files(dcs) == old(Files(dcs))
    {
      hide DirCont.Ok, DirCont.Value;
      dc.BeginAgain(isPwd, selected, total, hidden, rank);
      forall i | 0 <= i < |dcs| && i != k ensures Untouched(dcs[i]) {
        assert old(Apart(dcs[i], dc));
      }
      OthersKept(dcs, k);
    }

    method NewDirCont(name: string, isPwd: bool, rank: int, selected: string, total: string, hidden: string)
      returns (dc: DirCont, ghost k: nat)
      requires Valid() && Find(Values(), name) < 0
      modifies this`dcs
      ensures Valid() && k == |old(dcs)| && fresh(dc) && fresh(dc.box) && dcs == old(dcs) + [dc]
      ensures Values() == old(Values()) + [NewDc(name, isPwd, selected, total, hidden, rank)]
      ensures Files(dcs) == old(Files(dcs))
    {
      hide DirCont.Ok, DirCont.Value, ValuesOf;
      ghost var was := dcs;
      k := |dcs|;
      NotNamed(dcs, name);
      dc := new DirCont(name);
      dc.BeginNew(isPwd, selected, total, hidden, rank);
      dcs := dcs + [dc];
      AllKept(was);
      Appended(was, dc);
    }

    /** Read one file of the directory being read. */
    method AddFile(dc: DirCont, ghost k: nat, name: string, t: FileType, s: FileSelection, rank: int)
      requires Valid() && k < |dcs| && dcs[k] == dc
      modifies dc`score, dc.box, dc.box.fis
      ensures Valid() && Values() == old(Values())[k := AddedFile(old(Values())[k], name, t, s, rank)]
      ensures forall f :: f in Files(dcs) ==> f in old(Files(dcs)) || fresh(f)
    {
      hide DirCont.Ok, AddedFile;
      dc.AddFile(name, t, s, rank);
      forall i | 0 <= i < |dcs| && i != k ensures Untouched(dcs[i]) {
        assert old(Apart(dcs[i], dc));
      }
      OthersKept(dcs, k);
    }

    /** Commit the updates of one directory. */
    method FlushDc(dc: DirCont, ghost k: nat)
      requires Valid() && k < |dcs| && dcs[k] == dc
      modifies dc`score, dc.box`fis, dc.box`children
      ensures Valid() && Values() == old(Values())[k := Flushed(old(Values())[k])]
      ensures Files(dcs) <= old(Files(dcs))
    {
      hide DirCont.Ok, DirCont.Value, Flushed;
      dc.Flush();
      forall i | 0 <= i < |dcs| && i != k ensures Untouched(dcs[i]) {
        assert old(Apart(dcs[i], dc));
      }
      OthersKept(dcs, k);
      forall f | f in Files(dcs) ensures f in old(Files(dcs)) {
        FewerFiles(dcs, k, f);
      }
    }

    /** Drop the directories that are not marked. */
    method CullDcs()
      requires Valid()
      modifies this
      ensures Valid() && Values() == Culled(old(Values()))
      ensures Fewer(dcs, old(dcs))
    {
      hide DirCont.Ok, DirCont.Value, ValuesOf, Culled;
      ghost var was, now := Values(), Values();
      var k := 0;
      CulledNothing(now);
      while k < |dcs|
        invariant 0 <= k <= |dcs| && Valid() && now == Values()
        invariant Fewer(dcs, old(dcs))
        invariant now[..k] + Culled(now[k..]) == Culled(was)
        decreases |dcs| - k
      {
        CullStep(now, k);
        var dc := dcs[k];
        assert now[k].marked == dc.marked by { MarkedValue(dcs, k); }
        if !dc.marked {
          DropDc(k);
          now := Without(now, k);
        } else {
          k := k + 1;
        }
      }
      CulledAll(now);
    }

    method DropDc(k: nat)
      requires Valid() && k < |dcs|
      modifies this
      ensures Valid() && Values() == Without(old(Values()), k) && Fewer(dcs, old(dcs))
    {
      hide DirCont.Ok, DirCont.Value, ValuesOf;
      ghost var was := dcs;
      var dc := dcs[k];
      dcs := dcs[..k] + dcs[k + 1..];
      if active == dc {
        active := null;
      }
      AllKept(was);
      Dropped(was, k);
    }

    /** Commit the updates rank by rank; the last of the highest scores seen. */
    method CommitAll() returns (highest: DirCont, ghost h: nat)
      requires Valid() && dcs != []
      modifies dcs, Boxes(dcs)
      ensures Valid() && Values() == Committed(old(Values()), 0) && Files(dcs) <= old(Files(dcs))
      ensures h == Highest(old(Values()), 0, 0) && h < |dcs| && highest == dcs[h]
    {
      hide DirCont.Ok, DirCont.Value, Vgmini.Valid, Flushed, ValuesOf, Files, RankIndex, TopRank, FindRank, Committed, Highest;
      FindRankIs(dcs);
      ghost var was, now := Values(), Values();
      var nextRank: nat := 0;
      highest, h := dcs[0], 0;
      var k := FindRank(dcs, nextRank, 0);
      while k >= 0
        invariant Valid() && h < |dcs| && highest == dcs[h] && now == Values() && k == RankIndex(now, nextRank)
        invariant Committed(was, 0) == Committed(now, nextRank) && Files(dcs) <= old(Files(dcs))
        invariant Highest(was, 0, 0) == Highest(now, nextRank, h)
        decreases TopRank(now) - nextRank
      {
        CommittedStep(now, nextRank, h);
        now := now[k := Flushed(now[k])];
        var dc := dcs[k];
        FlushDc(dc, k);
        ScoreValue(dcs, k);
        ScoreValue(dcs, h);
        if dc.score >= highest.score {
          highest, h := dc, k;
        }
        nextRank := nextRank + 1;
        FindRankIs(dcs);
        k := FindRank(dcs, nextRank, 0);
      }
      CommittedStep(now, nextRank, h);
    }

    /** Commit all updates, and see which directory is to be active: the one of the highest
        score, or the one that was, if none has more. */
    method RearrangeAndShow()
      requires Valid() && dcs != []
      modifies this`active, dcs, Boxes(dcs)
      ensures Valid() && Values() == Committed(old(Values()), 0) && Files(dcs) <= old(Files(dcs))
      ensures active != null
      ensures old(active) != null && old(active).score >= dcs[Highest(old(Values()), 0, 0)].score ==> active == old(active)
      ensures old(active) == null || old(active).score < dcs[Highest(old(Values()), 0, 0)].score
              ==> active == dcs[Highest(old(Values()), 0, 0)]
      ensures Ranked(old(Values())) && FairStart(old(Values())) ==> forall i :: 0 <= i < |dcs| ==> dcs[i].score <= active.score
    {
      hide DirCont.Ok, DirCont.Value, ValuesOf, Committed, Highest, Ranked, FairStart;
      var highest;
      ghost var h, was := 0, Values();
      highest, h := CommitAll();
      label L:
      if active == null || highest.score > active.score {
        active := highest;
      }
      AllKept@L(dcs);
      if Ranked(was) && FairStart(was) {
        HighestBest(was);
        ScoreValue(dcs, h);
        forall i | 0 <= i < |dcs| ensures dcs[i].score <= active.score {
          ScoreValue(dcs, i);
        }
      }
    }

    // ----- reading a listing -----

    /** Cut the next string off the text; nothing shown changes. */
    method NextString(buf: array<char>, p: nat, ghost bytes: nat, c: char) returns (next: nat, ghost text: string)
      requires Valid()
      requires p <= bytes <= buf.Length && NUL !in buf[p..bytes] && UpTo(buf[p..bytes], c).Some?
      modifies buf
      ensures Valid() && Values() == old(Values()) && Files(dcs) == old(Files(dcs))
      ensures p < next <= bytes && UpTo(old(buf[p..bytes]), c) == Some((text, buf[next..bytes]))
      ensures Holds(buf[..], p, text, next) && buf[..p] == old(buf[..p]) && NUL !in buf[next..bytes]
    {
      hide Holds, UpTo;
      next, text := UpToDelimiter(buf, p, bytes, c);
      AllKept(dcs);
    }

    /** The heading has been read: its strings lie in the buffer. */
    method ReadHeading(buf: array<char>, name: nat, selected: nat, total: nat, hidden: nat, rank: int, ghost e: Event, ghost p: nat)
      returns (dc: DirCont, ghost k: nat)
      requires Valid() && e.DirEvent?
      requires Holds(buf[..], name, e.name, p) && Holds(buf[..], selected, e.selected, p)
      requires Holds(buf[..], total, e.total, p) && Holds(buf[..], hidden, e.hidden, p)
      modifies this`dcs, dcs, Boxes(dcs), Files(dcs)
      ensures Valid() && k < |dcs| && dcs[k] == dc && k == Find(Values(), Unmark(e.name).0)
      ensures Values() == AddedDir(old(Values()), e.name, e.selected, e.total, e.hidden, rank)
      ensures forall f :: f in Files(dcs) ==> f in old(Files(dcs)) || fresh(f)
      ensures forall b :: b in Boxes(dcs) ==> b in old(Boxes(dcs)) || fresh(b)
      ensures forall i :: 0 <= i < |dcs| ==> dcs[i] in old(dcs) || fresh(dcs[i])
    {
      hide DirCont.Ok, DirCont.Value, ValuesOf, AddedDir, Find;
      HeldString(buf[..], name, e.name, p);
      HeldString(buf[..], selected, e.selected, p);
      HeldString(buf[..], total, e.total, p);
      HeldString(buf[..], hidden, e.hidden, p);
      dc, k := AddDirCont(CStr(buf[name..]), rank, CStr(buf[selected..]), CStr(buf[total..]), CStr(buf[hidden..]));
    }

    method ReadFile(buf: array<char>, name: nat, dc: DirCont, ghost k: nat, t: FileType, s: FileSelection, rank: int, ghost text: string, ghost p: nat)
      requires Valid() && k < |dcs| && dcs[k] == dc && Holds(buf[..], name, text, p)
      modifies dc`score, dc.box, dc.box.fis
      ensures Valid() && Values() == old(Values())[k := AddedFile(old(Values())[k], text, t, s, rank)]
      ensures forall f :: f in Files(dcs) ==> f in old(Files(dcs)) || fresh(f)
    {
      hide DirCont.Ok, DirCont.Value, ValuesOf, AddedFile;
      HeldString(buf[..], name, text, p);
      AddFile(dc, k, CStr(buf[name..]), t, s, rank);
    }

    /** Read a whole listing, sweep out what it does not list, and commit the rest. */
    method ProcessGlobData(buf: array<char>, bytes: nat)
      requires Valid() && bytes <= buf.Length && NUL !in buf[..bytes] && Events(Done, buf[..bytes]).Some?
      requires Culled(ApplyAll(Reading(Values(), -1, -1, -1), Events(Done, buf[..bytes]).value).dcs) != []
      modifies this, dcs, Boxes(dcs), Files(dcs), buf
      ensures Valid() && active != null
      ensures Values() == Committed(Culled(ApplyAll(Reading(old(Values()), -1, -1, -1),
                                                    Events(Done, old(buf[..bytes])).value).dcs), 0)
      ensures var kept := Culled(ApplyAll(Reading(old(Values()), -1, -1, -1), Events(Done, old(buf[..bytes])).value).dcs);
              Ranked(kept) && FairStart(kept) ==> forall i :: 0 <= i < |dcs| ==> dcs[i].score <= active.score
    {
      hide DirCont.Ok, DirCont.Value, Vgmini.Valid, ValuesOf, Culled, Committed, Events, ApplyAll, Ranked, FairStart;
      ReadListing(buf, bytes);
      CullDcs();
      RearrangeAndShow();
    }

    /** Read one field of a heading or of a file's line. */
    method NextField(buf: array<char>, p: nat, ghost bytes: nat, ghost st: State)
      returns (next: nat, ghost text: string)
      requires Valid() && p < bytes <= buf.Length && NUL !in buf[p..bytes]
      requires IsField(st) && Events(st, buf[p..bytes]).Some?
      modifies buf
      ensures Valid() && Values() == old(Values()) && Files(dcs) == old(Files(dcs))
      ensures p < next <= bytes && buf[..p] == old(buf[..p]) && NUL !in buf[next..bytes] && Holds(buf[..], p, text, next)
      ensures Events(AfterField(st, text), buf[next..bytes]) == Events(st, old(buf[p..bytes]))
    {
      hide DirCont.Ok, DirCont.Value, Vgmini.Valid, ValuesOf, Holds, Files, UpTo;
      ghost var s := buf[p..bytes];
      next, text := NextString(buf, p, bytes, ' ');
    }

    /** The states that read one field, and remember where it lies or what it says. */
    method ReadField(buf: array<char>, p: nat, ghost bytes: nat, rs: GlobReadState, selected: nat, total: nat, hidden: nat,
                     fileType: FileType, selection: FileSelection, ghost st: State)
      returns (next: nat, newRs: GlobReadState, newSelected: nat, newTotal: nat, newHidden: nat,
               newType: FileType, newSelection: FileSelection, ghost newSt: State)
      requires Valid() && p < bytes <= buf.Length && NUL !in buf[p..bytes]
      requires IsField(st) && Events(st, buf[p..bytes]).Some?
      requires Pointers(st, rs, buf[..], p, selected, total, hidden, fileType, selection)
      modifies buf
      ensures Valid() && Values() == old(Values()) && Files(dcs) == old(Files(dcs))
      ensures p < next <= bytes && NUL !in buf[next..bytes]
      ensures Events(newSt, buf[next..bytes]) == Events(st, old(buf[p..bytes]))
      ensures Pointers(newSt, newRs, buf[..], next, newSelected, newTotal, newHidden, newType, newSelection)
      ensures exists text :: newSt == AfterField(st, text)
    {
      hide DirCont.Ok, DirCont.Value, Vgmini.Valid, ValuesOf, Holds, Files, UpTo, Events;
      ghost var was, text := buf[..], "";
      next, text := NextField(buf, p, bytes, st);
      newSt, newSelected, newTotal, newHidden, newType, newSelection :=
        AfterField(st, text), selected, total, hidden, fileType, selection;
      HeldFirst(buf[..], p, text, next);
      match rs
      case GrsSelectedCount =>
        newSelected, newRs := p, GrsFileCount;
      case GrsFileCount =>
        newTotal, newRs := p, GrsHiddenCount;
        HeldStill(was, buf[..], selected, st.selected, p, next);
      case GrsHiddenCount =>
        newHidden, newRs := p, GrsDirName;
        HeldStill(was, buf[..], selected, st.selected, p, next);
        HeldStill(was, buf[..], total, st.total, p, next);
      case GrsFileState =>
        newSelection, newRs := MapSelectionState(buf[p]), GrsFileType;
      case GrsFileType =>
        newType, newRs := MapFileType(buf[p]), GrsFileName;
    }

    /** Read a field; the ranks are counted up with the first field of a heading or a line. */
    method TakeField(buf: array<char>, p: nat, ghost bytes: nat, rs: GlobReadState, selected: nat, total: nat, hidden: nat,
                     fileType: FileType, selection: FileSelection, dirRank: int, fileRank: int, ghost st: State, ghost r: Reading)
      returns (next: nat, newRs: GlobReadState, newSelected: nat, newTotal: nat, newHidden: nat,
               newType: FileType, newSelection: FileSelection, newDirRank: int, newFileRank: int, ghost newSt: State)
      requires Valid() && p < bytes <= buf.Length && NUL !in buf[p..bytes]
      requires IsField(st) && Events(st, buf[p..bytes]).Some?
      requires Pointers(st, rs, buf[..], p, selected, total, hidden, fileType, selection) && Ranks(st, r, dirRank, fileRank)
      modifies buf
      ensures Valid() && Values() == old(Values()) && Files(dcs) == old(Files(dcs))
      ensures p < next <= bytes && NUL !in buf[next..bytes]
      ensures Events(newSt, buf[next..bytes]) == Events(st, old(buf[p..bytes]))
      ensures Pointers(newSt, newRs, buf[..], next, newSelected, newTotal, newHidden, newType, newSelection)
      ensures Ranks(newSt, r, newDirRank, newFileRank) && (InFiles(newSt) <==> InFiles(st))
    {
      hide DirCont.Ok, DirCont.Value, Vgmini.Valid, ValuesOf, Holds, Files, UpTo, Events, Pointers, AfterField, InFiles;
      newDirRank, newFileRank := dirRank, fileRank;
      Recall(st, rs, buf[..], p, selected, total, hidden, fileType, selection);
      if rs == GrsSelectedCount {
        newDirRank := dirRank + 1;
      } else if rs == GrsFileState {
        newFileRank := fileRank + 1;
      }
      next, newRs, newSelected, newTotal, newHidden, newType, newSelection, newSt :=
        ReadField(buf, p, bytes, rs, selected, total, hidden, fileType, selection, st);
      FieldMoves(st, newSt);
    }

    /** The name of a directory completes its heading. */
    method TakeHeading(buf: array<char>, p: nat, ghost bytes: nat, selected: nat, total: nat, hidden: nat, rank: int,
                       ghost st: State, ghost r: Reading)
      returns (next: nat, dc: DirCont, ghost e: Event)
      requires Valid() && p < bytes <= buf.Length && NUL !in buf[p..bytes] && r.dcs == Values() && rank == r.dirRank + 1
      requires st.DirName? && Events(st, buf[p..bytes]).Some?
      requires Holds(buf[..], selected, st.selected, p) && Holds(buf[..], total, st.total, p) && Holds(buf[..], hidden, st.hidden, p)
      modifies this`dcs, dcs, Boxes(dcs), Files(dcs), buf
      ensures Valid() && p < next <= bytes && NUL !in buf[next..bytes]
      ensures Events(InLimbo, buf[next..bytes]).Some?
      ensures ApplyAll(r, Events(st, old(buf[p..bytes])).value) == ApplyAll(Apply(r, e), Events(InLimbo, buf[next..bytes]).value)
      ensures var after := Apply(r, e);
              && after.dcs == Values() && after.dirRank == rank && after.fileRank == -1
              && 0 <= after.current < |dcs| && dcs[after.current] == dc
      ensures forall f :: f in Files(dcs) ==> f in old(Files(dcs)) || fresh(f)
      ensures forall b :: b in Boxes(dcs) ==> b in old(Boxes(dcs)) || fresh(b)
      ensures forall i :: 0 <= i < |dcs| ==> dcs[i] in old(dcs) || fresh(dcs[i])
    {
      hide DirCont.Ok, DirCont.Value, Vgmini.Valid, ValuesOf, UpTo, Holds, Find, AddedDir, Files, Boxes, Events, ApplyAll;
      ghost var was, text, k := buf[..], "", 0;
      NameStep(st, buf[p..bytes]);
      next, text := NextString(buf, p, bytes, LF);
      HeldStill(was, buf[..], selected, st.selected, p, next);
      HeldStill(was, buf[..], total, st.total, p, next);
      HeldStill(was, buf[..], hidden, st.hidden, p, next);
      e := DirEvent(text, st.selected, st.total, st.hidden);
      ApplyFirst(r, e, Events(InLimbo, buf[next..bytes]).value);
      dc, k := ReadHeading(buf, p, selected, total, hidden, rank, e, next);
    }

    /** The name of a file completes its line. */
    method TakeFile(buf: array<char>, p: nat, ghost bytes: nat, dc: DirCont, fileType: FileType, selection: FileSelection,
                    rank: int, ghost st: State, ghost r: Reading)
      returns (next: nat, ghost e: Event)
      requires Valid() && p < bytes <= buf.Length && NUL !in buf[p..bytes] && r.dcs == Values() && rank == r.fileRank + 1
      requires st == FileName(selection, fileType) && Events(st, buf[p..bytes]).Some?
      requires 0 <= r.current < |dcs| && dcs[r.current] == dc
      modifies dc`score, dc.box, dc.box.fis, buf
      ensures Valid() && p < next <= bytes && NUL !in buf[next..bytes]
      ensures Events(InLimbo, buf[next..bytes]).Some?
      ensures ApplyAll(r, Events(st, old(buf[p..bytes])).value) == ApplyAll(Apply(r, e), Events(InLimbo, buf[next..bytes]).value)
      ensures Apply(r, e) == r.(dcs := Values(), fileRank := rank)
      ensures forall f :: f in Files(dcs) ==> f in old(Files(dcs)) || fresh(f)
    {
      hide DirCont.Ok, DirCont.Value, Vgmini.Valid, ValuesOf, UpTo, Holds, AddedFile, Files, Boxes, Events, ApplyAll;
      ghost var text;
      NameStep(st, buf[p..bytes]);
      next, text := NextString(buf, p, bytes, LF);
      e := FileEvent(text, fileType, selection);
      ApplyFirst(r, e, Events(InLimbo, buf[next..bytes]).value);
      ReadFile(buf, p, dc, r.current, fileType, selection, rank, text, next);
    }

    /** A listing begins: no directory is listed yet. */
    method StartListing(ghost s: string, ghost r: Reading)
      requires Valid() && r.dcs == Values() && s != "" && Events(Done, s).Some?
      modifies dcs
      ensures Valid() && Files(dcs) == old(Files(dcs))
      ensures Apply(r, Begin) == r.(dcs := Values(), dirRank := -1)
      ensures Events(SelectedCount, s).Some?
      ensures ApplyAll(r, Events(Done, s).value) == ApplyAll(Apply(r, Begin), Events(SelectedCount, s).value)
    {
      hide DirCont.Ok, DirCont.Value, Vgmini.Valid, ValuesOf, Files, Events, ApplyAll, UnmarkAll, Apply;
      EventsStep(Done, s);
      ApplyFirst(r, Begin, Events(SelectedCount, s).value);
      ApplyBegin(r);
      UnmarkAllDirconts();
    }

    /** Between two lines: a file, the end, or the next heading. */
    method LeaveLimbo(buf: array<char>, p: nat, ghost bytes: nat) returns (next: nat, rs: GlobReadState, ghost st: State)
      requires Valid() && p < bytes <= buf.Length && NUL !in buf[p..bytes] && Events(InLimbo, buf[p..bytes]).Some?
      ensures Valid() && Values() == old(Values()) && Files(dcs) == old(Files(dcs)) && Boxes(dcs) == old(Boxes(dcs))
      ensures p <= next <= bytes && NUL !in buf[next..bytes]
      ensures Events(st, buf[next..bytes]) == Events(InLimbo, buf[p..bytes])
      ensures (st == Done && rs == GrsDone && next == p + 1) || (st == SelectedCount && rs == GrsSelectedCount)
              || (st == FileState && rs == GrsFileState && next == p + 1)
    {
      hide Events;
      ghost var s := buf[p..bytes];
      EventsStep(InLimbo, s);
      if buf[p] == '\t' {
        next, rs, st := p + 1, GrsFileState, FileState;
      } else if buf[p] == LF {
        next, rs, st := p + 1, GrsDone, Done;
      } else {
        next, rs, st := p, GrsSelectedCount, SelectedCount;
      }
      assert buf[next..bytes] == s[next - p..];
    }

    /** The states that complete an event: a listing begins, a heading or a file is read. */
    method TakeEvent(buf: array<char>, p: nat, ghost bytes: nat, rs: GlobReadState, selected: nat, total: nat, hidden: nat,
                     fileType: FileType, selection: FileSelection, dirRank: int, fileRank: int, dc: DirCont?, ghost st: State, ghost r: Reading)
      returns (next: nat, newRs: GlobReadState, newDirRank: int, newFileRank: int, newDc: DirCont?, ghost newSt: State, ghost newR: Reading)
      requires Valid() && r.dcs == Values() && p < bytes <= buf.Length && NUL !in buf[p..bytes]
      requires rs == GrsDone || rs == GrsDirName || rs == GrsFileName
      requires Events(st, buf[p..bytes]).Some? && Ranks(st, r, dirRank, fileRank)
      requires Pointers(st, rs, buf[..], p, selected, total, hidden, fileType, selection)
      requires InFiles(st) ==> 0 <= r.current < |dcs| && dcs[r.current] == dc
      modifies this`dcs, dcs, Boxes(dcs), Files(dcs), buf
      ensures Valid() && newR.dcs == Values() && p <= next <= bytes && NUL !in buf[next..bytes]
      ensures Events(newSt, buf[next..bytes]).Some?
      ensures ApplyAll(r, Events(st, old(buf[p..bytes])).value) == ApplyAll(newR, Events(newSt, buf[next..bytes]).value)
      ensures if st.Done? then newSt == SelectedCount && newRs == GrsSelectedCount && next == p
              else newSt == InLimbo && newRs == GrsInLimbo && p < next
      ensures Ranks(newSt, newR, newDirRank, newFileRank)
      ensures InFiles(newSt) ==> 0 <= newR.current < |dcs| && dcs[newR.current] == newDc
      ensures forall f :: f in Files(dcs) ==> f in old(Files(dcs)) || fresh(f)
      ensures forall b :: b in Boxes(dcs) ==> b in old(Boxes(dcs)) || fresh(b)
      ensures forall i :: 0 <= i < |dcs| ==> dcs[i] in old(dcs) || fresh(dcs[i])
    {
      hide *;
      Recall(st, rs, buf[..], p, selected, total, hidden, fileType, selection);
      StateKinds(st);
      StateKinds(SelectedCount);
      RanksMean(st, r, dirRank, fileRank);
      newDirRank, newFileRank, newDc := dirRank, fileRank, dc;
      if rs == GrsDone {
        StartListing(buf[p..bytes], r);
        next, newRs, newDirRank := p, GrsSelectedCount, -1;
        newSt, newR := SelectedCount, Apply(r, Begin);
      } else {
        ghost var e;
        if rs == GrsDirName {
          next, newDc, e := TakeHeading(buf, p, bytes, selected, total, hidden, dirRank, st, r);
          newFileRank := -1;
        } else {
          Reaches(dcs, r.current);
          next, e := TakeFile(buf, p, bytes, dc, fileType, selection, fileRank, st, r);
        }
        newRs := GrsInLimbo;
        newSt, newR := InLimbo, Apply(r, e);
      }
      RanksMean(newSt, newR, newDirRank, newFileRank);
    }

    /** The state machine over the text. */
    method ReadListing(buf: array<char>, bytes: nat)
      requires Valid() && bytes <= buf.Length && NUL !in buf[..bytes] && Events(Done, buf[..bytes]).Some?
      modifies this`dcs, dcs, Boxes(dcs), Files(dcs), buf
      ensures Valid()
      ensures Values() == ApplyAll(Reading(old(Values()), -1, -1, -1), Events(Done, old(buf[..bytes])).value).dcs
      ensures forall f :: f in Files(dcs) ==> f in old(Files(dcs)) || fresh(f)
      ensures forall b :: b in Boxes(dcs) ==> b in old(Boxes(dcs)) || fresh(b)
      ensures forall i :: 0 <= i < |dcs| ==> dcs[i] in old(dcs) || fresh(dcs[i])
    {
      hide *;
      var p, rs := 0, GrsDone;
      var selected: nat, total: nat, hidden: nat := 0, 0, 0;
      var fileType, selection := FtRegular, FsNo;
      var dirRank, fileRank := -1, -1;
      var dc: DirCont? := null;
      ghost var st, r := Done, Reading(Values(), -1, -1, -1);
      ghost var target := ApplyAll(r, Events(Done, buf[..bytes]).value);
      assert buf[0..bytes] == buf[..bytes];
      StateKinds(Done);
      StateKinds(SelectedCount);
      StateKinds(InLimbo);
      StateKinds(FileState);
      NoPointers(st, rs, buf[..], p, selected, total, hidden, fileType, selection);
      RanksMean(st, r, dirRank, fileRank);
      while p < bytes
        invariant Valid() && r.dcs == Values() && 0 <= p <= bytes && NUL !in buf[p..bytes]
        invariant Events(st, buf[p..bytes]).Some? && target == ApplyAll(r, Events(st, buf[p..bytes]).value)
        invariant Pointers(st, rs, buf[..], p, selected, total, hidden, fileType, selection)
        invariant Ranks(st, r, dirRank, fileRank)
        invariant InFiles(st) ==> 0 <= r.current < |dcs| && dcs[r.current] == dc
        invariant forall f :: f in Files(dcs) ==> f in old(Files(dcs)) || fresh(f)
        invariant forall b :: b in Boxes(dcs) ==> b in old(Boxes(dcs)) || fresh(b)
        invariant forall i :: 0 <= i < |dcs| ==> dcs[i] in old(dcs) || fresh(dcs[i])
        decreases bytes - p, if st.InLimbo? then 2 else if st.Done? then 1 else 0
      {
        Recall(st, rs, buf[..], p, selected, total, hidden, fileType, selection);
        StateKinds(st);
        RanksMean(st, r, dirRank, fileRank);
        if rs == GrsInLimbo {
          p, rs, st := LeaveLimbo(buf, p, bytes);
          NoPointers(st, rs, buf[..], p, selected, total, hidden, fileType, selection);
          RanksMean(st, r, dirRank, fileRank);
        } else if rs == GrsDone || rs == GrsDirName || rs == GrsFileName {
          p, rs, dirRank, fileRank, dc, st, r :=
            TakeEvent(buf, p, bytes, rs, selected, total, hidden, fileType, selection, dirRank, fileRank, dc, st, r);
          NoPointers(st, rs, buf[..], p, selected, total, hidden, fileType, selection);
        } else {
          p, rs, selected, total, hidden, fileType, selection, dirRank, fileRank, st :=
            TakeField(buf, p, bytes, rs, selected, total, hidden, fileType, selection, dirRank, fileRank, st, r);
        }
      }
      NothingLeft(st, r, buf[p..bytes]);
    }
  }

  /** States that read up to a space. */
  predicate IsField(st: State) {
    st.SelectedCount? || st.FileCount? || st.HiddenCount? || st.FileState? || st.FileTypeOf?
  }

  function AfterField(st: State, text: string): State {
    match st
    case SelectedCount => FileCount(text)
    case FileCount(a) => HiddenCount(a, text)
    case HiddenCount(a, b) => DirName(a, b, text)
    case FileState => FileTypeOf(MapSelectionState(First(text)))
    case FileTypeOf(s) => FileName(s, MapFileType(First(text)))
    case _ => st
  }

  /** The ranks kept by the reader, which run ahead of the events within a heading or a line. */
  predicate Ranks(st: State, r: Reading, dirRank: int, fileRank: int) {
    && dirRank == r.dirRank + (if st.FileCount? || st.HiddenCount? || st.DirName? then 1 else 0)
    && fileRank == r.fileRank + (if st.FileTypeOf? || st.FileName? then 1 else 0)
  }

  lemma RanksMean(st: State, r: Reading, dirRank: int, fileRank: int)
    ensures st.Done? || st.SelectedCount? || st.InLimbo? || st.FileState? ==>
              (Ranks(st, r, dirRank, fileRank) <==> dirRank == r.dirRank && fileRank == r.fileRank)
    ensures st.DirName? && Ranks(st, r, dirRank, fileRank) ==> dirRank == r.dirRank + 1
    ensures st.FileName? && Ranks(st, r, dirRank, fileRank) ==> fileRank == r.fileRank + 1 && dirRank == r.dirRank
  {
  }

  lemma StateKinds(st: State)
    ensures IsField(st) <==> !st.Done? && !st.DirName? && !st.InLimbo? && !st.FileName?
    ensures InFiles(st) <==> st.InLimbo? || st.FileState? || st.FileTypeOf? || st.FileName?
  {
  }

  /** A field read in a heading or in a file's line leads to the next. */
  lemma FieldMoves(st: State, t: State)
    requires IsField(st) && exists text :: t == AfterField(st, text)
    ensures st.SelectedCount? <==> t.FileCount?
    ensures st.FileCount? <==> t.HiddenCount?
    ensures st.HiddenCount? <==> t.DirName?
    ensures st.FileState? <==> t.FileTypeOf?
    ensures st.FileTypeOf? <==> t.FileName?
    ensures !t.Done? && !t.InLimbo? && (InFiles(t) <==> InFiles(st))
  {
  }

  lemma EventsStep(st: State, s: string)
    requires s != ""
    ensures st.Done? ==> Events(st, s) == Then(Begin, Events(SelectedCount, s))
    ensures st.InLimbo? ==> Events(st, s) == if s[0] == '\t' then Events(FileState, s[1..])
                                             else if s[0] == LF then Events(Done, s[1..]) else Events(SelectedCount, s)
  {
  }

  /** States that read a name read up to the end of the line. */
  lemma NameStep(st: State, s: string)
    requires s != "" && Events(st, s).Some? && (st.DirName? || st.FileName?)
    ensures UpTo(s, LF).Some?
    ensures var r := UpTo(s, LF).value;
            && (st.DirName? ==> Events(st, s) == Then(DirEvent(r.0, st.selected, st.total, st.hidden), Events(InLimbo, r.1)))
            && (st.FileName? ==> Events(st, s) == Then(FileEvent(r.0, st.fileType, st.selection), Events(InLimbo, r.1)))
  {
    hide UpTo;
  }

  lemma ApplyBegin(r: Reading)
    ensures Apply(r, Begin) == r.(dcs := UnmarkAll(r.dcs), dirRank := -1)
  {
  }

  lemma NothingLeft(st: State, r: Reading, s: string)
    requires s == ""
    ensures Events(st, s) == Some([]) && ApplyAll(r, Events(st, s).value) == r
  {
  }

  lemma Reaches(ds: seq<DirCont>, k: nat)
    requires k < |ds|
    ensures ds[k].box in Boxes(ds) && forall i :: 0 <= i < |ds[k].box.fis| ==> ds[k].box.fis[i] in Files(ds)
  {
  }

  lemma ApplyFirst(r: Reading, e: Event, es: seq<Event>)
    ensures ApplyAll(r, [e] + es) == ApplyAll(Apply(r, e), es)
  {
    assert ([e] + es)[0] == e && ([e] + es)[1..] == es;
  }

  /** In these states a directory is being read. */
  predicate InFiles(st: State) {
    st.InLimbo? || st.FileState? || st.FileTypeOf? || st.FileName?
  }

  /** The strings read so far lie in the buffer. */
  ghost predicate Pointers(st: State, rs: GlobReadState, buf: seq<char>, p: nat,
                           selected: nat, total: nat, hidden: nat, fileType: FileType, selection: FileSelection) {
    match st
    case Done => rs == GrsDone
    case SelectedCount => rs == GrsSelectedCount
    case FileCount(a) => rs == GrsFileCount && Holds(buf, selected, a, p)
    case HiddenCount(a, b) => rs == GrsHiddenCount && Holds(buf, selected, a, p) && Holds(buf, total, b, p)
    case DirName(a, b, c) =>
      rs == GrsDirName && Holds(buf, selected, a, p) && Holds(buf, total, b, p) && Holds(buf, hidden, c, p)
    case InLimbo => rs == GrsInLimbo
    case FileState => rs == GrsFileState
    case FileTypeOf(s) => rs == GrsFileType && selection == s
    case FileName(s, t) => rs == GrsFileName && selection == s && fileType == t
  }

  lemma Recall(st: State, rs: GlobReadState, buf: seq<char>, p: nat,
               selected: nat, total: nat, hidden: nat, fileType: FileType, selection: FileSelection)
    requires Pointers(st, rs, buf, p, selected, total, hidden, fileType, selection)
    ensures rs == GrsDone <==> st.Done?
    ensures rs == GrsSelectedCount <==> st.SelectedCount?
    ensures rs == GrsInLimbo <==> st.InLimbo?
    ensures rs == GrsFileState <==> st.FileState?
    ensures rs == GrsFileType <==> st.FileTypeOf?
    ensures (rs == GrsFileName <==> st.FileName?) && (st.FileName? ==> st == FileName(selection, fileType))
    ensures rs == GrsDirName <==> st.DirName?
    ensures st.DirName? ==> Holds(buf, selected, st.selected, p) && Holds(buf, total, st.total, p) && Holds(buf, hidden, st.hidden, p)
  {
  }

  /** States between lines have read no strings yet. */
  lemma NoPointers(st: State, rs: GlobReadState, buf: seq<char>, p: nat,
                   selected: nat, total: nat, hidden: nat, fileType: FileType, selection: FileSelection)
    requires (st.Done? && rs == GrsDone) || (st.SelectedCount? && rs == GrsSelectedCount)
             || (st.InLimbo? && rs == GrsInLimbo) || (st.FileState? && rs == GrsFileState)
    ensures Pointers(st, rs, buf, p, selected, total, hidden, fileType, selection)
  {
  }

  datatype GlobReadState =
    | GrsDone | GrsSelectedCount | GrsFileCount | GrsHiddenCount | GrsDirName
    | GrsInLimbo | GrsFileState | GrsFileType | GrsFileName

  /** `g_slist_find_custom` by rank. */
  function FindRank(ds: seq<DirCont>, rank: int, from: nat): (k: int)
    requires from <= |ds|
    reads ds
    ensures -1 <= k < |ds|
    decreases |ds| - from
  {
    if from == |ds| then -1 else if ds[from].rank == rank then from else FindRank(ds, rank, from + 1)
  }

  lemma {:induction false} FindRankFrom(ds: seq<DirCont>, rank: int, from: nat)
    requires from <= |ds| && forall i :: 0 <= i < from ==> ds[i].rank != rank
    ensures FindRank(ds, rank, from) == RankFrom(ValuesOf(ds), rank, from)
    decreases |ds| - from
  {
    hide ValuesOf;
    if from < |ds| && ds[from].rank != rank {
      FindRankFrom(ds, rank, from + 1);
    }
  }

  lemma FindRankIs(ds: seq<DirCont>)
    ensures forall rank :: FindRank(ds, rank, 0) == RankIndex(ValuesOf(ds), rank)
  {
    forall rank ensures FindRank(ds, rank, 0) == RankIndex(ValuesOf(ds), rank) {
      FindRankFrom(ds, rank, 0);
    }
  }

  /** The first directory of a rank, or -1. */
  function RankIndex(dcs: seq<Dc>, rank: int): (k: int)
    ensures -1 <= k < |dcs|
    ensures k >= 0 ==> dcs[k].rank == rank && forall i :: 0 <= i < k ==> dcs[i].rank != rank
    ensures k < 0 ==> forall i :: 0 <= i < |dcs| ==> dcs[i].rank != rank
  {
    RankFrom(dcs, rank, 0)
  }

  function RankFrom(dcs: seq<Dc>, rank: int, from: nat): (k: int)
    requires from <= |dcs| && forall i :: 0 <= i < from ==> dcs[i].rank != rank
    ensures -1 <= k < |dcs|
    ensures k >= 0 ==> dcs[k].rank == rank && forall i :: 0 <= i < k ==> dcs[i].rank != rank
    ensures k < 0 ==> forall i :: 0 <= i < |dcs| ==> dcs[i].rank != rank
    decreases |dcs| - from
  {
    if from == |dcs| then -1 else if dcs[from].rank == rank then from else RankFrom(dcs, rank, from + 1)
  }

  /** Directories are flushed by rank, from one rank up until a rank is missing. */
  function Committed(dcs: seq<Dc>, rank: nat): seq<Dc>
    decreases TopRank(dcs) - rank
  {
    var k := RankIndex(dcs, rank);
    if k < 0 then dcs else
      FlushedRank(dcs, k, rank);
      Committed(dcs[k := Flushed(dcs[k])], rank + 1)
  }

  /** The last of the highest scores seen, from the directory at `h` on. */
  function Highest(dcs: seq<Dc>, rank: nat, h: nat): (r: nat)
    requires h < |dcs|
    ensures r < |dcs|
    decreases TopRank(dcs) - rank
  {
    var k := RankIndex(dcs, rank);
    if k < 0 then h else
      FlushedRank(dcs, k, rank);
      var next := dcs[k := Flushed(dcs[k])];
      Highest(next, rank + 1, if next[k].score >= next[h].score then k else h)
  }

  lemma CommittedStep(dcs: seq<Dc>, rank: nat, h: nat)
    requires h < |dcs|
    ensures var k := RankIndex(dcs, rank);
            && (k < 0 ==> Committed(dcs, rank) == dcs && Highest(dcs, rank, h) == h)
            && (k >= 0 ==> var next := dcs[k := Flushed(dcs[k])];
                  && Committed(dcs, rank) == Committed(next, rank + 1)
                  && Highest(dcs, rank, h) == Highest(next, rank + 1, if next[k].score >= next[h].score then k else h)
                  && rank < TopRank(dcs) && TopRank(next) == TopRank(dcs))
  {
    hide RankIndex, Flushed, TopRank;
    var k := RankIndex(dcs, rank);
    if k >= 0 {
      FlushedRank(dcs, k, rank);
    }
  }

  function TopRank(dcs: seq<Dc>): (t: int)
    ensures forall i :: 0 <= i < |dcs| ==> dcs[i].rank < t
  {
    if dcs == [] then 0
    else
      var rest := dcs[..|dcs| - 1];
      var t := TopRank(rest);
      assert forall i :: 0 <= i < |dcs| - 1 ==> dcs[i] == rest[i];
      if dcs[|dcs| - 1].rank < t then t else dcs[|dcs| - 1].rank + 1
  }

  lemma {:induction false} TopRankSame(a: seq<Dc>, b: seq<Dc>)
    requires |a| == |b| && forall i :: 0 <= i < |a| ==> a[i].rank == b[i].rank
    ensures TopRank(a) == TopRank(b)
  {
    if a != [] {
      TopRankSame(a[..|a| - 1], b[..|b| - 1]);
    }
  }

  lemma FlushedRank(dcs: seq<Dc>, k: nat, rank: nat)
    requires k < |dcs| && dcs[k].rank == rank
    ensures rank < TopRank(dcs) && TopRank(dcs[k := Flushed(dcs[k])]) == TopRank(dcs)
  {
    hide TopRank;
    TopRankSame(dcs, dcs[k := Flushed(dcs[k])]);
  }

  /** Every rank below the number of directories is taken, once. */
  ghost predicate Ranked(dcs: seq<Dc>) {
    exists n: nat :: RankedTo(dcs, n)
  }

  predicate HasRank(dcs: seq<Dc>, r: int) {
    exists i :: 0 <= i < |dcs| && dcs[i].rank == r
  }

  ghost predicate RankedTo(dcs: seq<Dc>, n: nat) {
    && (forall r :: 0 <= r < n ==> HasRank(dcs, r))
    && (forall i :: 0 <= i < |dcs| ==> 0 <= dcs[i].rank < n)
    && forall i, j :: 0 <= i < j < |dcs| ==> dcs[i].rank != dcs[j].rank
  }

  /** Directories of lower ranks are flushed. */
  ghost predicate FlushedTo(was: seq<Dc>, now: seq<Dc>, rank: int) {
    && |now| == |was|
    && forall i :: 0 <= i < |was| ==> now[i] == if 0 <= was[i].rank < rank then Flushed(was[i]) else was[i]
  }

  lemma {:induction false} CommittedTo(was: seq<Dc>, now: seq<Dc>, rank: nat, n: nat)
    requires RankedTo(was, n) && FlushedTo(was, now, rank) && rank <= n
    ensures Committed(now, rank) == FlushAll(was)
    decreases n - rank
  {
    hide Flushed, RankIndex, TopRank;
    var k := RankIndex(now, rank);
    FlushedRanks(was, now, rank);
    if k < 0 {
      NoRankLeft(was, now, rank, n);
    } else {
      FlushedRank(now, k, rank);
      FlushedMore(was, now, rank, n, k);
      CommittedTo(was, now[k := Flushed(now[k])], rank + 1, n);
    }
  }

  lemma NoRankLeft(was: seq<Dc>, now: seq<Dc>, rank: nat, n: nat)
    requires RankedTo(was, n) && FlushedTo(was, now, rank) && rank <= n
    requires forall i :: 0 <= i < |now| ==> now[i].rank != rank
    ensures rank == n && now == FlushAll(was)
  {
    hide Flushed;
    FlushedRanks(was, now, rank);
    assert rank < n ==> HasRank(was, rank);
  }

  lemma FlushedMore(was: seq<Dc>, now: seq<Dc>, rank: nat, n: nat, k: nat)
    requires RankedTo(was, n) && FlushedTo(was, now, rank) && k < |now| && now[k].rank == rank
    ensures rank < n && FlushedTo(was, now[k := Flushed(now[k])], rank + 1)
  {
    hide Flushed;
    FlushedRanks(was, now, rank);
  }

  lemma FlushedRanks(was: seq<Dc>, now: seq<Dc>, rank: int)
    requires FlushedTo(was, now, rank)
    ensures forall i :: 0 <= i < |was| ==> now[i].rank == was[i].rank
  {
  }

  /** When every rank is taken once, committing misses no directory. */
  lemma CommittedAll(dcs: seq<Dc>)
    requires Ranked(dcs)
    ensures Committed(dcs, 0) == FlushAll(dcs)
  {
    hide Committed, FlushAll;
    var n: nat :| RankedTo(dcs, n);
    CommittedTo(dcs, dcs, 0, n);
  }

  lemma ScoreValue(ds: seq<DirCont>, k: nat)
    requires k < |ds|
    ensures ValuesOf(ds)[k].score == ds[k].score
  {
  }

  /** The first directory of the list, unless it comes first in rank too, has no score to
      lose when nothing can be read of it. */
  predicate FairStart(dcs: seq<Dc>) {
    dcs != [] && (dcs[0].total == "0" ==> dcs[0].score <= 0 || dcs[0].rank == 0)
  }

  /** No directory flushed so far scores more than the one at `h`; while that is still to be
      flushed it is the first, and scores more than those. */
  ghost predicate BestSoFar(was: seq<Dc>, now: seq<Dc>, rank: int, h: nat) {
    && h < |now| == |was|
    && (forall i :: 0 <= i < |was| && 0 <= was[i].rank < rank ==> now[i].score <= now[h].score)
    && (was[h].rank >= rank ==> h == 0 && forall i :: 0 <= i < |was| && 0 <= was[i].rank < rank ==> now[i].score < now[0].score)
  }

  lemma BestNext(was: seq<Dc>, now: seq<Dc>, rank: nat, h: nat, k: nat)
    requires FlushedTo(was, now, rank) && BestSoFar(was, now, rank, h) && FairStart(was)
    requires k < |now| && was[k].rank == rank && forall i :: 0 <= i < |was| && i != k ==> was[i].rank != rank
    ensures var next := now[k := Flushed(now[k])];
            BestSoFar(was, next, rank + 1, if next[k].score >= next[h].score then k else h)
  {
  }

  lemma {:induction false} HighestFrom(was: seq<Dc>, now: seq<Dc>, rank: nat, h: nat, n: nat)
    requires h < |now|
    requires RankedTo(was, n) && FlushedTo(was, now, rank) && rank <= n && BestSoFar(was, now, rank, h) && FairStart(was)
    ensures var after, r := Committed(now, rank), Highest(now, rank, h);
            |after| == |was| && forall i :: 0 <= i < |was| ==> after[i].score <= after[r].score
    decreases n - rank
  {
    hide Flushed, RankIndex, TopRank, Highest, Committed, BestSoFar, FairStart;
    var k := RankIndex(now, rank);
    FlushedRanks(was, now, rank);
    CommittedStep(now, rank, h);
    if k < 0 {
      NoRankLeft(was, now, rank, n);
      BestAtEnd(was, now, rank, h, n);
    } else {
      FlushedMore(was, now, rank, n, k);
      BestNext(was, now, rank, h, k);
      var next := now[k := Flushed(now[k])];
      HighestFrom(was, next, rank + 1, if next[k].score >= next[h].score then k else h, n);
    }
  }

  lemma BestAtEnd(was: seq<Dc>, now: seq<Dc>, rank: nat, h: nat, n: nat)
    requires RankedTo(was, n) && rank == n && BestSoFar(was, now, rank, h)
    ensures forall i :: 0 <= i < |was| ==> now[i].score <= now[h].score
  {
  }

  /** When every rank is taken once, the search finds a highest score. */
  lemma HighestBest(dcs: seq<Dc>)
    requires Ranked(dcs) && FairStart(dcs)
    ensures var after, r := Committed(dcs, 0), Highest(dcs, 0, 0);
            |after| == |dcs| && forall i :: 0 <= i < |dcs| ==> after[i].score <= after[r].score
  {
    hide Committed, Highest;
    var n: nat :| RankedTo(dcs, n);
    HighestFrom(dcs, dcs, 0, 0, n);
  }

  lemma MarkedValue(ds: seq<DirCont>, k: nat)
    requires k < |ds|
    ensures ValuesOf(ds)[k].marked == ds[k].marked
  {
  }

  ghost predicate Fewer(now: seq<DirCont>, was: seq<DirCont>) {
    forall i :: 0 <= i < |now| ==> now[i] in was
  }

  lemma Dropped(ds: seq<DirCont>, k: nat)
    requires AllApart(ds) && AllOk(ds) && k < |ds|
    ensures var r := Without(ds, k);
            && AllApart(r) && AllOk(r) && ValuesOf(r) == Without(ValuesOf(ds), k)
            && (forall d :: d in r ==> d in ds) && forall d :: d in ds && d != ds[k] ==> d in r
  {
    hide DirCont.Ok, DirCont.Value, Apart;
    WithoutIn(ds, k);
  }

  lemma CulledNothing(s: seq<Dc>)
    ensures s[..0] + Culled(s[0..]) == Culled(s)
  {
    assert s[0..] == s && s[..0] == [];
  }

  lemma CulledAll(s: seq<Dc>)
    ensures s[..|s|] + Culled(s[|s|..]) == s
  {
    assert s[|s|..] == [];
  }

  lemma CullStep(s: seq<Dc>, k: nat)
    requires k < |s|
    ensures s[k].marked ==> s[..k + 1] + Culled(s[k + 1..]) == s[..k] + Culled(s[k..])
    ensures !s[k].marked ==> var t := Without(s, k); t[..k] + Culled(t[k..]) == s[..k] + Culled(s[k..])
  {
    assert s[k..][1..] == s[k + 1..] && s[k..][0] == s[k];
    if s[k].marked {
      assert s[..k + 1] == s[..k] + [s[k]];
      assert s[..k] + ([s[k]] + Culled(s[k + 1..])) == (s[..k] + [s[k]]) + Culled(s[k + 1..]);
    } else {
      assert Without(s, k)[..k] == s[..k] && Without(s, k)[k..] == s[k + 1..];
    }
  }

  // ----- reading a listing -----

  /** A C string lies at `at`, and ends before `end`. */
  ghost predicate Holds(buf: seq<char>, at: nat, s: string, end: nat) {
    && at + |s| < end <= |buf| && buf[at..at + |s|] == s && buf[at + |s|] == NUL && NUL !in s
  }

  lemma HeldStill(was: seq<char>, buf: seq<char>, at: nat, s: string, end: nat, later: nat)
    requires Holds(was, at, s, end) && end <= later <= |buf| && |buf| == |was| && buf[..end] == was[..end]
    ensures Holds(buf, at, s, later)
  {
    assert buf[..end][at..at + |s|] == buf[at..at + |s|] && was[..end][at..at + |s|] == was[at..at + |s|];
    assert buf[..end][at + |s|] == was[..end][at + |s|];
  }

  lemma HeldFirst(buf: seq<char>, at: nat, s: string, end: nat)
    requires Holds(buf, at, s, end)
    ensures buf[at] == First(s)
  {
    if s != "" {
      assert buf[at..at + |s|][0] == s[0];
    }
  }

  lemma HeldString(buf: seq<char>, at: nat, s: string, end: nat)
    requires Holds(buf, at, s, end)
    ensures CStr(buf[at..]) == s
  {
    assert buf[at..][..|s|] == buf[at..at + |s|];
    CStrIs(buf[at..], s);
  }

  /** Cut off the string that ends in a delimiter, and step over the delimiter. */
  method UpToDelimiter(buf: array<char>, p: nat, ghost bytes: nat, c: char) returns (next: nat, ghost text: string)
    requires p <= bytes <= buf.Length && NUL !in buf[p..bytes] && UpTo(buf[p..bytes], c).Some?
    modifies buf
    ensures p < next <= bytes && UpTo(old(buf[p..bytes]), c) == Some((text, buf[next..bytes]))
    ensures Holds(buf[..], p, text, next) && buf[..p] == old(buf[..p]) && NUL !in buf[next..bytes]
  {
    hide UpTo, Holds;
    UpToFirst(buf[p..bytes], c);
    ghost var all, s := buf[..], buf[p..bytes];
    ghost var f := FirstOf(s, c);
    next := p;
    while buf[next] != c
      invariant p <= next <= p + f && forall i :: p <= i < next ==> buf[i] != c
      decreases p + f - next
    {
      next := next + 1;
    }
    assert s[next - p] == c && forall i :: 0 <= i < next - p ==> s[i] == buf[p + i];
    FirstOfAt(s, c, next - p);
    text := s[..f];
    buf[next] := NUL;
    next := next + 1;
    CutAt(all, buf[..], p, bytes, f);
  }

  lemma UpToFirst(s: string, c: char)
    requires UpTo(s, c).Some?
    ensures var f := FirstOf(s, c); 0 <= f < |s| && UpTo(s, c) == Some((s[..f], s[f + 1..]))
  {
  }

  lemma CutAt(was: seq<char>, buf: seq<char>, p: nat, bytes: nat, f: nat)
    requires p + f < bytes <= |was| && buf == was[p + f := NUL] && NUL !in was[p..bytes]
    ensures Holds(buf, p, was[p..bytes][..f], p + f + 1) && buf[..p] == was[..p]
    ensures buf[p + f + 1..bytes] == was[p..bytes][f + 1..] && NUL !in buf[p + f + 1..bytes]
  {
    assert was[p..bytes][..f] == buf[p..p + f];
  }

  // ----- the display agrees with the listing -----

  lemma ValidSound(v: Vgmini)
    requires v.Valid()
    ensures Sound(v.Values())
  {
    hide FileBox.Contents;
    var ds := v.dcs;
    forall i, j | 0 <= i < j < |ds| ensures v.Values()[i].name != v.Values()[j].name {
      assert Apart(ds[i], ds[j]);
    }
    forall i | 0 <= i < |ds| ensures NamesDistinct(v.Values()[i].items) {
      BoxDistinct(ds[i]);
    }
  }

  lemma BoxDistinct(d: DirCont)
    requires d.Ok()
    ensures NamesDistinct(d.Value().items)
  {
  }

  lemma AgreesRanked(dcs: seq<Dc>, ds: seq<Dir>)
    requires Agrees(FlushAll(dcs), ds)
    ensures Ranked(dcs) && (ds != [] ==> dcs != [])
  {
    hide Flushed, Decimal, ShownFiles, ItemsOf;
    var r := FlushAll(dcs);
    FlushedRanksSame(dcs);
    forall j | 0 <= j < |ds| ensures HasRank(dcs, j) {
      assert IsShown(r, ds[j], j);
      var k :| 0 <= k < |r| && Shows(r[k], ds[j], j);
      assert dcs[k].rank == j;
    }
    forall k | 0 <= k < |dcs| ensures 0 <= dcs[k].rank < |ds| && r[k].name == ds[dcs[k].rank].name {
      assert IsFound(r[k], ds);
    }
    assert ds != [] ==> HasRank(dcs, 0);
    assert RankedTo(dcs, |ds|);
  }

  lemma FlushedRanksSame(dcs: seq<Dc>)
    ensures forall i :: 0 <= i < |dcs| ==> FlushAll(dcs)[i].rank == dcs[i].rank
  {
    var r := FlushAll(dcs);
    forall i | 0 <= i < |dcs| ensures r[i].rank == dcs[i].rank {
      assert r[i] == Flushed(dcs[i]);
    }
  }

  // ----- and makes the right directory active -----

  /** Nothing is shown of a directory that cannot be read. */
  predicate NothingOfNothing(ds: seq<Dir>) {
    forall i :: 0 <= i < |ds| && ds[i].fileCount == 0 ==> ShownFiles(ds[i].files) == []
  }

  /** While a listing is read: of the `known` directories there were, those not read score
      nothing, nor do those nothing can be read of; the first new one has rank 0 unless an
      old one has been read. */
  ghost predicate Fair(dcs: seq<Dc>, known: nat, n: nat) {
    && known <= |dcs| && (n == 0 ==> |dcs| == known)
    && (forall k :: 0 <= k < known && (!dcs[k].marked || dcs[k].total == "0") ==> dcs[k].score == 0)
    && (forall k :: known <= k < |dcs| ==> dcs[k].marked)
    && (n > 0 ==> (exists k :: 0 <= k < known && dcs[k].marked) || (known < |dcs| && dcs[known].rank == 0))
  }

  lemma ReadKeepsScore(dc: Dc, d: Dir)
    ensures var r := FilesAdded(dc, ShownFiles(d.files), 0);
            && r.marked == dc.marked && r.total == dc.total && r.rank == dc.rank && r.name == dc.name
            && (ShownFiles(d.files) == [] ==> r.score == dc.score)
  {
    FilesAddedItems(dc, ShownFiles(d.files));
  }

  lemma NoneIsZero(n: int)
    ensures Decimal(n) == "0" <==> n == 0
  {
    DecimalRoundTrip(n);
    DecimalRoundTrip(0);
    assert Decimal(0) == "0";
  }

  lemma FairStep(dcs: seq<Dc>, ds: seq<Dir>, n: nat, known: nat)
    requires n < |ds| && Fair(dcs, known, n) && ReadSoFar(dcs, ds, n) && DirsDistinct(ds) && NothingOfNothing(ds)
    ensures Fair(ReadDir(dcs, ds[n], n), known, n + 1)
  {
    hide FilesAdded, Decimal, ShownFiles, Sound, IsRead;
    var d := ds[n];
    var k := Find(dcs, d.name);
    var a, b, c := Decimal(d.selectedCount), Decimal(d.fileCount), Decimal(d.hiddenCount);
    NoneIsZero(d.fileCount);
    if k >= 0 {
      assert forall j :: 0 <= j < n ==> ds[j].name != dcs[k].name;
      assert !dcs[k].marked;
      ReadKeepsScore(Again(dcs[k], d.isPwd, a, b, c, n), d);
      assert ReadDir(dcs, d, n)[k].marked;
    } else {
      ReadKeepsScore(NewDc(d.name, d.isPwd, a, b, c, n), d);
      if m: int :| 0 <= m < known && dcs[m].marked {
        assert ReadDir(dcs, d, n)[m].marked;
      }
    }
  }

  lemma {:induction false} FairAll(r: Reading, ds: seq<Dir>, n: nat, known: nat)
    requires DirsDistinct(ds) && NothingOfNothing(ds) && forall d :: d in ds ==> Display.Named(d)
    requires n <= |ds| && Fair(r.dcs, known, n) && ReadSoFar(r.dcs, ds, n) && r.dirRank == n - 1
    ensures Fair(ApplyAll(r, DirsEvents(ds[n..])).dcs, known, |ds|)
    decreases |ds| - n
  {
    hide ReadSoFar, Display.Named, DirEvents, ReadDir, Apply, Fair, NothingOfNothing;
    if n == |ds| {
      assert ds[n..] == [] && ApplyAll(r, []) == r;
    } else {
      assert ds[n] in ds && ds[n..][0] == ds[n] && ds[n..][1..] == ds[n + 1..];
      ReadMore(r.dcs, ds, n);
      FairStep(r.dcs, ds, n, known);
      DirApplied(r, ds[n]);
      ApplyBoth(r, DirEvents(ds[n]), DirsEvents(ds[n + 1..]));
      FairAll(ApplyAll(r, DirEvents(ds[n])), ds, n + 1, known);
    }
  }

  lemma {:induction false} CulledFirst(dcs: seq<Dc>) returns (m: nat)
    requires Culled(dcs) != []
    ensures m < |dcs| && dcs[m].marked && Culled(dcs)[0] == dcs[m] && forall j :: 0 <= j < m ==> !dcs[j].marked
  {
    if dcs[0].marked {
      m := 0;
    } else {
      m := CulledFirst(dcs[1..]);
      m := m + 1;
      assert forall j :: 0 < j < m ==> dcs[j] == dcs[1..][j - 1];
    }
  }

  /** Read by a display in any state, a listing leaves the search for the directory to be
      active a fair start. */
  lemma FairListing(dcs: seq<Dc>, ds: seq<Dir>)
    requires Sound(dcs) && DirsDistinct(ds) && NothingOfNothing(ds) && ds != [] && forall d :: d in ds ==> Display.Named(d)
    ensures var kept := Culled(ApplyAll(Reading(dcs, -1, -1, -1), [Begin] + DirsEvents(ds)).dcs);
            kept != [] ==> FairStart(kept)
  {
    hide ReadDir, ApplyAll, DirsEvents, Culled, Display.Named, NothingOfNothing;
    var start := Reading(dcs, -1, -1, -1);
    var next := Apply(start, Begin);
    ApplyFirst(start, Begin, DirsEvents(ds));
    assert ds[0..] == ds;
    FairAll(next, ds, 0, |dcs|);
    var all := ApplyAll(next, DirsEvents(ds)).dcs;
    if Culled(all) != [] {
      var m := CulledFirst(all);
    }
  }

  /** The whole way: what vgexpand prints, read by a display in any state, is what the
      display shows. */
  lemma PrintedIsShown(v: Vgmini, ds: seq<Dir>)
    requires v.Valid() && DirsDistinct(ds) && ds != [] && AllPlain(ds) && forall d :: d in ds ==> Display.Named(d)
    ensures NUL !in Text(ds) && Events(Done, Text(ds)).Some?
    ensures var kept := Culled(ApplyAll(Reading(v.Values(), -1, -1, -1), Events(Done, Text(ds)).value).dcs);
            && kept != [] && Agrees(Committed(kept, 0), ds) && Ranked(kept)
            && (NothingOfNothing(ds) ==> FairStart(kept))
  {
    hide Events, ApplyAll, Culled, Committed, Agrees, DirsEvents, Text, Vgmini.Valid, DirsText, FairStart, Ranked, NothingOfNothing;
    ValidSound(v);
    TextFree(ds);
    TextRead(ds);
    DisplayAgrees(v.Values(), ds);
    var kept := Culled(ApplyAll(Reading(v.Values(), -1, -1, -1), Events(Done, Text(ds)).value).dcs);
    AgreesRanked(kept, ds);
    CommittedAll(kept);
    if NothingOfNothing(ds) {
      FairListing(v.Values(), ds);
    }
  }
}