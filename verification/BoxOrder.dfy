/** When a file box shows a directory's files in the order of the listing.  A file whose
    item is kept stays where it is; one that is new, or whose type has changed, goes in at
    its rank, counted over the items about to be swept out as well. */
module BoxOrder {
  import opened Listings
  import opened Items

  /** The box already has the file, with the type it still has. */
  predicate Stays(items: seq<Item>, f: File) {
    var k := IndexOf(items, f.name);
    k >= 0 && items[k].fileType == f.fileType
  }

  predicate Among(fs: seq<File>, r: nat, name: string)
    requires r <= |fs|
  {
    exists j :: 0 <= j < r && fs[j].name == name
  }

  /** Reading `fs[r]` leaves it behind all the files read before it: a file that stays
      stands behind the earlier ones that stay; and when a file is put in, nothing that
      stands before an earlier one that stays is still to be read or to be swept out. */
  predicate InStep(items: seq<Item>, fs: seq<File>, r: nat)
    requires r < |fs|
  {
    if Stays(items, fs[r]) then
      forall j :: 0 <= j < r && Stays(items, fs[j]) ==> IndexOf(items, fs[j].name) < IndexOf(items, fs[r].name)
    else
      forall j, x :: 0 <= j < r && Stays(items, fs[j]) && 0 <= x < IndexOf(items, fs[j].name) ==>
        Among(fs, r + 1, items[x].name)
  }

  predicate KeepsOrder(items: seq<Item>, fs: seq<File>) {
    forall r :: 0 <= r < |fs| ==> InStep(items, fs, r)
  }

  function Listed(fs: seq<File>): (r: seq<Item>)
    ensures |r| == |fs| && forall i :: 0 <= i < |r| ==> r[i] == ItemOf(fs[i])
  {
    seq(|fs|, i requires 0 <= i < |fs| => ItemOf(fs[i]))
  }

  // ----- places -----

  lemma IndexIs(items: seq<Item>, k: nat)
    requires k < |items| && NamesDistinct(items)
    ensures IndexOf(items, items[k].name) == k
  {
  }

  lemma InsertedAt(items: seq<Item>, at: int, x: Item)
    ensures var p := Place(|items|, at); Insert(items, at, x) == items[..p] + [x] + items[p..]
  {
  }

  lemma IndexInsert(items: seq<Item>, at: int, x: Item, a: string)
    requires NamesDistinct(items) && a != x.name
    ensures var i := IndexOf(items, a);
            var i' := if i >= Place(|items|, at) then i + 1 else i;
            IndexOf(Insert(items, at, x), a) == i' && (i >= 0 ==> Insert(items, at, x)[i'] == items[i])
  {
    hide IndexOf, Insert, Place;
    var i, r := IndexOf(items, a), Insert(items, at, x);
    var p := Place(|items|, at);
    InsertedAt(items, at, x);
    var j := IndexOf(r, a);
    if i >= 0 {
      assert r[if i >= p then i + 1 else i].name == a;
    }
    if j >= 0 {
      assert items[if j > p then j - 1 else j].name == a;
    }
  }

  lemma IndexWithout(items: seq<Item>, k: nat, a: string)
    requires NamesDistinct(items) && k < |items| && a != items[k].name
    ensures var i := IndexOf(items, a); IndexOf(Without(items, k), a) == if i > k then i - 1 else i
  {
    var i, r := IndexOf(items, a), Without(items, k);
    var j := IndexOf(r, a);
    if i >= 0 {
      assert r[if i > k then i - 1 else i].name == a;
    }
    if j >= 0 {
      assert items[if j >= k then j + 1 else j].name == a;
    }
  }

  lemma IndexReplace(items: seq<Item>, k: nat, x: Item, a: string)
    requires k < |items| && x.name == items[k].name
    ensures IndexOf(items[k := x], a) == IndexOf(items, a)
  {
    var r := items[k := x];
    assert forall i :: 0 <= i < |r| ==> r[i].name == items[i].name;
  }

  /** Two names' items are there as before, and in the same order. */
  ghost predicate Alike(items: seq<Item>, next: seq<Item>, a: string, b: string) {
    var i, j := IndexOf(items, a), IndexOf(items, b);
    var i', j' := IndexOf(next, a), IndexOf(next, b);
    && (i >= 0 <==> i' >= 0) && (j >= 0 <==> j' >= 0) && (i >= 0 ==> next[i'] == items[i])
    && (i >= 0 && j >= 0 ==> (i < j <==> i' < j'))
  }

  lemma AlikeInsert(items: seq<Item>, at: int, x: Item, a: string, b: string)
    requires NamesDistinct(items) && a != x.name && b != x.name
    ensures Alike(items, Insert(items, at, x), a, b)
  {
    hide IndexOf, Insert, NamesDistinct, Place;
    IndexInsert(items, at, x, a);
    IndexInsert(items, at, x, b);
  }

  lemma AlikeWithout(items: seq<Item>, k: nat, a: string, b: string)
    requires NamesDistinct(items) && k < |items| && a != items[k].name && b != items[k].name
    ensures Alike(items, Without(items, k), a, b)
  {
    hide IndexOf, NamesDistinct;
    IndexWithout(items, k, a);
    IndexWithout(items, k, b);
  }

  lemma AlikeReplace(items: seq<Item>, k: nat, x: Item, a: string, b: string)
    requires NamesDistinct(items) && k < |items| && x.name == items[k].name && a != x.name && b != x.name
    ensures Alike(items, items[k := x], a, b)
  {
    IndexReplace(items, k, x, a);
    IndexReplace(items, k, x, b);
    hide IndexOf;
  }

  lemma AlikeBoth(items: seq<Item>, mid: seq<Item>, next: seq<Item>, a: string, b: string)
    requires Alike(items, mid, a, b) && Alike(mid, next, a, b)
    ensures Alike(items, next, a, b)
  {
    hide IndexOf;
  }

  lemma DistinctWithout(items: seq<Item>, k: nat)
    requires NamesDistinct(items) && k < |items|
    ensures NamesDistinct(Without(items, k))
  {
  }

  /** Reading a file leaves all other items in their order. */
  lemma OthersKept(items: seq<Item>, f: File, rank: int, a: string, b: string)
    requires NamesDistinct(items) && a != f.name && b != f.name
    ensures Alike(items, Added(items, f.name, f.fileType, f.selected, rank), a, b)
  {
    hide IndexOf, Insert, Without, NamesDistinct, Alike;
    var k, x := IndexOf(items, f.name), ItemOf(f);
    if k < 0 {
      AlikeInsert(items, rank, x, a, b);
    } else if items[k].fileType != f.fileType {
      var s := Without(items, k);
      DistinctWithout(items, k);
      AlikeWithout(items, k, a, b);
      AlikeInsert(s, rank, x, a, b);
      AlikeBoth(items, s, Insert(s, rank, x), a, b);
    } else {
      AlikeReplace(items, k, x, a, b);
    }
  }

  // ----- the box while a listing is read -----

  /** The item has not been moved by the first r files. */
  predicate Resident(was: seq<Item>, fs: seq<File>, r: nat, a: string)
    requires r <= |fs|
  {
    IndexOf(was, a) >= 0 && forall j :: 0 <= j < r && fs[j].name == a ==> Stays(was, fs[j])
  }

  ghost predicate Known(was: seq<Item>, fs: seq<File>, r: nat, now: seq<Item>)
    requires r <= |fs|
  {
    && NamesDistinct(now)
    && (forall a: string :: IndexOf(now, a) >= 0 <==> IndexOf(was, a) >= 0 || Among(fs, r, a))
    && (forall i :: 0 <= i < |now| ==> (now[i].marked <==> Among(fs, r, now[i].name)))
    && (forall i :: 0 <= i < |now| && !now[i].marked ==>
          IndexOf(was, now[i].name) >= 0 && now[i].fileType == was[IndexOf(was, now[i].name)].fileType)
  }

  ghost predicate SameOrder(was: seq<Item>, fs: seq<File>, r: nat, now: seq<Item>)
    requires r <= |fs|
  {
    forall a, b :: Resident(was, fs, r, a) && Resident(was, fs, r, b) ==>
      (IndexOf(now, a) < IndexOf(now, b) <==> IndexOf(was, a) < IndexOf(was, b))
  }

  /** Only read files stand before one that was put in. */
  ghost predicate PutInFront(was: seq<Item>, fs: seq<File>, r: nat, now: seq<Item>)
    requires r <= |fs|
  {
    forall h, i :: 0 <= h < i < |now| && now[i].marked && !Resident(was, fs, r, now[i].name) ==> now[h].marked
  }

  lemma AmongNext(fs: seq<File>, r: nat, a: string)
    requires r < |fs|
    ensures Among(fs, r + 1, a) <==> Among(fs, r, a) || a == fs[r].name
  {
    if Among(fs, r, a) {
      var j :| 0 <= j < r && fs[j].name == a;
      assert 0 <= j < r + 1;
    }
    if a == fs[r].name {
      assert 0 <= r < r + 1 && fs[r].name == a;
    }
  }

  lemma NewOne(fs: seq<File>, r: nat)
    requires r < |fs| && FilesDistinct(fs)
    ensures !Among(fs, r, fs[r].name)
  {
  }

  lemma ResidentNext(was: seq<Item>, fs: seq<File>, r: nat, a: string)
    requires r < |fs|
    ensures Resident(was, fs, r + 1, a) <==> Resident(was, fs, r, a) && (a == fs[r].name ==> Stays(was, fs[r]))
    ensures Resident(was, fs, r, a) ==> IndexOf(was, a) >= 0
  {
    hide Stays, IndexOf;
  }

  /** Whether a file stays shows on its item when it is read. */
  lemma StaysNow(was: seq<Item>, fs: seq<File>, r: nat, now: seq<Item>)
    requires r < |fs| && FilesDistinct(fs) && Known(was, fs, r, now)
    ensures var k := IndexOf(now, fs[r].name);
            && (k >= 0 ==> !now[k].marked)
            && (Stays(was, fs[r]) <==> k >= 0 && now[k].fileType == fs[r].fileType)
  {
    NewOne(fs, r);
    hide IndexOf, Among;
  }

  lemma KnownNext(was: seq<Item>, fs: seq<File>, r: nat, now: seq<Item>)
    requires r < |fs| && FilesDistinct(fs) && Known(was, fs, r, now)
    ensures var f := fs[r]; Known(was, fs, r + 1, Added(now, f.name, f.fileType, f.selected, r))
  {
    hide Added, IndexOf, Among;
    var f := fs[r];
    var next := Added(now, f.name, f.fileType, f.selected, r);
    DistinctAdded(now, f.name, f.fileType, f.selected, r);
    AddedThere(now, f, r);
    forall a: string ensures IndexOf(next, a) >= 0 <==> IndexOf(was, a) >= 0 || Among(fs, r + 1, a) {
      AmongNext(fs, r, a);
      if a != f.name {
        OthersKept(now, f, r, a, a);
      }
    }
    forall i | 0 <= i < |next|
      ensures next[i].marked <==> Among(fs, r + 1, next[i].name)
      ensures !next[i].marked ==> IndexOf(was, next[i].name) >= 0 && next[i].fileType == was[IndexOf(was, next[i].name)].fileType
    {
      var a := next[i].name;
      IndexIs(next, i);
      AmongNext(fs, r, a);
      if a != f.name {
        OthersKept(now, f, r, a, a);
        assert now[IndexOf(now, a)].name == a;
      }
    }
  }

  lemma AddedThere(items: seq<Item>, f: File, rank: int)
    requires NamesDistinct(items)
    ensures var r := Added(items, f.name, f.fileType, f.selected, rank);
            IndexOf(r, f.name) >= 0 && r[IndexOf(r, f.name)] == ItemOf(f)
  {
    var r := Added(items, f.name, f.fileType, f.selected, rank);
    DistinctAdded(items, f.name, f.fileType, f.selected, rank);
    AddedMembers(items, f.name, f.fileType, f.selected, rank);
    hide Added, IndexOf;
    assert ItemOf(f) in multiset(r);
    var i :| 0 <= i < |r| && r[i] == ItemOf(f);
    IndexIs(r, i);
  }

  lemma OrderNext(was: seq<Item>, fs: seq<File>, r: nat, now: seq<Item>)
    requires r < |fs| && FilesDistinct(fs) && Known(was, fs, r, now) && SameOrder(was, fs, r, now)
    ensures var f := fs[r]; SameOrder(was, fs, r + 1, Added(now, f.name, f.fileType, f.selected, r))
  {
    hide IndexOf, Among, Stays, Resident, Added;
    var f := fs[r];
    var next := Added(now, f.name, f.fileType, f.selected, r);
    forall a, b | Resident(was, fs, r + 1, a) && Resident(was, fs, r + 1, b)
      ensures IndexOf(next, a) < IndexOf(next, b) <==> IndexOf(was, a) < IndexOf(was, b)
    {
      ResidentNext(was, fs, r, a);
      ResidentNext(was, fs, r, b);
      PairNext(was, fs, r, now, a, b);
    }
  }

  lemma PairNext(was: seq<Item>, fs: seq<File>, r: nat, now: seq<Item>, a: string, b: string)
    requires r < |fs| && FilesDistinct(fs) && Known(was, fs, r, now)
    requires IndexOf(was, a) >= 0 && IndexOf(was, b) >= 0
    requires a == fs[r].name || b == fs[r].name ==> Stays(was, fs[r])
    ensures var f := fs[r]; var next := Added(now, f.name, f.fileType, f.selected, r);
            IndexOf(next, a) < IndexOf(next, b) <==> IndexOf(now, a) < IndexOf(now, b)
  {
    hide IndexOf, Among;
    var f := fs[r];
    if a == f.name || b == f.name {
      StaysNow(was, fs, r, now);
      var k := IndexOf(now, f.name);
      IndexReplace(now, k, ItemOf(f), a);
      IndexReplace(now, k, ItemOf(f), b);
    } else {
      OthersKept(now, f, r, a, b);
    }
  }

  // ----- the order of what is read -----

  /** The files read so far stand in the listing's order. */
  ghost predicate InOrder(fs: seq<File>, r: nat, now: seq<Item>)
    requires r <= |fs|
  {
    Marked(now) == Listed(fs[..r])
  }

  ghost predicate Unread(items: seq<Item>, from: nat)
    requires from <= |items|
  {
    forall i :: from <= i < |items| ==> !items[i].marked
  }

  lemma {:induction false} MarkedCount(items: seq<Item>)
    ensures |Marked(items)| <= |items|
    ensures |Marked(items)| == |items| <==> forall i :: 0 <= i < |items| ==> items[i].marked
    ensures Marked(items) == [] <==> Unread(items, 0)
  {
    if items != [] {
      MarkedCount(items[1..]);
      assert forall i :: 1 <= i < |items| ==> items[i] == items[1..][i - 1];
    }
  }

  lemma MarkedSplit(items: seq<Item>, p: nat)
    requires p <= |items|
    ensures Marked(items) == Marked(items[..p]) + Marked(items[p..])
    ensures Marked(items[p..]) == [] <==> Unread(items, p)
  {
    hide Marked, Unread;
    assert items == items[..p] + items[p..];
    MarkedConcat(items[..p], items[p..]);
    MarkedCount(items[p..]);
    UnreadTail(items, p);
  }

  lemma UnreadTail(items: seq<Item>, p: nat)
    requires p <= |items|
    ensures Unread(items[p..], 0) <==> Unread(items, p)
  {
    var rest := items[p..];
    assert forall i :: p <= i < |items| ==> items[i] == rest[i - p];
  }

  lemma LastOne<T>(a: seq<T>, x: T, b: seq<T>, s: seq<T>)
    requires x !in b
    ensures a + [x] + b == s + [x] <==> a + b == s && b == []
  {
    if b != [] {
      assert (a + [x] + b)[|a + [x] + b| - 1] == b[|b| - 1];
      assert b[|b| - 1] in b;
    } else {
      assert a + [x] + b == a + [x] && a + b == a;
      if a + [x] == s + [x] {
        assert a == (a + [x])[..|a|] == s;
      }
    }
  }

  /** An item put at `p` of a box comes last of those read when the rest is unread. */
  lemma LastRead(front: seq<Item>, x: Item, back: seq<Item>, s: seq<Item>)
    requires x.marked && forall i :: 0 <= i < |back| ==> back[i] != x
    ensures Marked(front + [x] + back) == s + [x] <==> Marked(front + back) == s && Unread(back, 0)
  {
    MarkedOne(x);
    MarkedConcat(front + [x], back);
    MarkedConcat(front, [x]);
    MarkedConcat(front, back);
    MarkedCount(back);
    MarkedIn(back);
    LastOne(Marked(front), x, Marked(back), s);
  }

  lemma {:induction false} MarkedIn(items: seq<Item>)
    ensures forall x :: x in Marked(items) ==> x in items
  {
    if items != [] {
      MarkedIn(items[1..]);
    }
  }

  lemma ListedNext(fs: seq<File>, r: nat)
    requires r < |fs|
    ensures Listed(fs[..r + 1]) == Listed(fs[..r]) + [ItemOf(fs[r])]
  {
  }

  /** The other items of the box when `fs[r]` is put in. */
  function Rest(now: seq<Item>, name: string): seq<Item> {
    var k := IndexOf(now, name);
    if k < 0 then now else Without(now, k)
  }

  lemma RestMarked(now: seq<Item>, name: string)
    requires var k := IndexOf(now, name); k >= 0 ==> !now[k].marked
    ensures Marked(Rest(now, name)) == Marked(now)
  {
    hide IndexOf, Marked;
    var k := IndexOf(now, name);
    if k >= 0 {
      ShownAround(now, k, now[k]);
      MarkedOne(now[k]);
      assert now[k := now[k]] == now;
    }
  }

  lemma RestOthers(now: seq<Item>, name: string)
    requires NamesDistinct(now)
    ensures NamesDistinct(Rest(now, name)) && forall i :: 0 <= i < |Rest(now, name)| ==> Rest(now, name)[i].name != name
  {
    hide IndexOf;
  }

  lemma ReplacedLast(now: seq<Item>, k: nat, x: Item, s: seq<Item>)
    requires k < |now| && NamesDistinct(now) && !now[k].marked && x.marked && x.name == now[k].name
    ensures Marked(now[k := x]) == s + [x] <==> Marked(now) == s && Unread(now, k + 1)
  {
    hide Marked;
    var front, back := now[..k], now[k + 1..];
    assert now[k := x] == front + [x] + back && now == front + [now[k]] + back;
    LastRead(front, x, back, s);
    MarkedOne(now[k]);
    MarkedConcat(front + [now[k]], back);
    MarkedConcat(front, [now[k]]);
    MarkedConcat(front, back);
    assert forall i :: k + 1 <= i < |now| ==> now[i] == back[i - k - 1];
  }

  lemma InsertedLast(rest: seq<Item>, r: nat, x: Item, s: seq<Item>)
    requires x.marked && |s| == r && forall i :: 0 <= i < |rest| ==> rest[i].name != x.name
    ensures Marked(Insert(rest, r, x)) == s + [x] <==> Marked(rest) == s && r <= |rest| && Unread(rest, r)
  {
    hide Marked, Insert, Unread;
    var p := Place(|rest|, r);
    InsertedAt(rest, r, x);
    LastRead(rest[..p], x, rest[p..], s);
    assert rest[..p] + rest[p..] == rest;
    MarkedCount(rest);
    MarkedCount(rest[p..]);
    MarkedSplit(rest, p);
  }

  lemma KnownDistinct(was: seq<Item>, fs: seq<File>, r: nat, now: seq<Item>)
    requires r <= |fs| && Known(was, fs, r, now)
    ensures NamesDistinct(now)
  {
    hide NamesDistinct, IndexOf, Among;
  }

  lemma StepKept(was: seq<Item>, fs: seq<File>, r: nat, now: seq<Item>)
    requires r < |fs| && FilesDistinct(fs) && Known(was, fs, r, now) && Stays(was, fs[r])
    ensures var f, k := fs[r], IndexOf(now, fs[r].name);
            && 0 <= k < |now| && Added(now, f.name, f.fileType, f.selected, r) == now[k := ItemOf(f)]
            && (InOrder(fs, r + 1, now[k := ItemOf(f)]) <==> InOrder(fs, r, now) && Unread(now, k + 1))
  {
    hide IndexOf, Among, Stays, Marked, Listed, Unread, Known, FilesDistinct, NamesDistinct, Insert, Without;
    StaysNow(was, fs, r, now);
    ListedNext(fs, r);
    KnownDistinct(was, fs, r, now);
    ReplacedLast(now, IndexOf(now, fs[r].name), ItemOf(fs[r]), Listed(fs[..r]));
  }

  lemma StepPut(was: seq<Item>, fs: seq<File>, r: nat, now: seq<Item>)
    requires r < |fs| && FilesDistinct(fs) && Known(was, fs, r, now) && !Stays(was, fs[r])
    ensures var f := fs[r]; var rest := Rest(now, f.name);
            var next := Added(now, f.name, f.fileType, f.selected, r);
            && next == Insert(rest, r, ItemOf(f)) && Marked(rest) == Marked(now)
            && (InOrder(fs, r + 1, next) <==> InOrder(fs, r, now) && r <= |rest| && Unread(rest, r))
  {
    hide IndexOf, Among, Stays, Marked, Listed, Insert, Unread;
    StaysNow(was, fs, r, now);
    var f := fs[r];
    RestMarked(now, f.name);
    RestOthers(now, f.name);
    ListedNext(fs, r);
    InsertedLast(Rest(now, f.name), r, ItemOf(f), Listed(fs[..r]));
  }

  /** A file that stays comes last of those read exactly when the earlier ones that stay
      stand before it: those put in always do. */
  lemma KeptInStep(was: seq<Item>, fs: seq<File>, r: nat, now: seq<Item>)
    requires r < |fs| && FilesDistinct(fs) && Stays(was, fs[r])
    requires Known(was, fs, r, now) && SameOrder(was, fs, r, now) && PutInFront(was, fs, r, now)
    ensures var k := IndexOf(now, fs[r].name); 0 <= k < |now| && (Unread(now, k + 1) <==> InStep(was, fs, r))
  {
    StaysNow(was, fs, r, now);
    var k := IndexOf(now, fs[r].name);
    if Unread(now, k + 1) {
      forall j | 0 <= j < r && Stays(was, fs[j]) ensures IndexOf(was, fs[j].name) < IndexOf(was, fs[r].name) {
        BehindKept(was, fs, r, now, j);
      }
    }
    if InStep(was, fs, r) {
      forall i | k + 1 <= i < |now| ensures !now[i].marked {
        NoneBehind(was, fs, r, now, i);
      }
    }
  }

  lemma ResidentFile(was: seq<Item>, fs: seq<File>, r: nat, j: nat)
    requires j < |fs| && r <= |fs| && FilesDistinct(fs) && Stays(was, fs[j])
    ensures Resident(was, fs, r, fs[j].name)
  {
    hide IndexOf;
    assert forall i :: 0 <= i < |fs| && fs[i].name == fs[j].name ==> i == j;
  }

  lemma ReadItem(was: seq<Item>, fs: seq<File>, r: nat, now: seq<Item>, j: nat)
    requires j < r <= |fs| && Known(was, fs, r, now)
    ensures var i := IndexOf(now, fs[j].name); i >= 0 && now[i].marked
  {
    hide IndexOf;
    assert Among(fs, r, fs[j].name);
  }

  lemma BehindKept(was: seq<Item>, fs: seq<File>, r: nat, now: seq<Item>, j: nat)
    requires j < r < |fs| && FilesDistinct(fs) && Stays(was, fs[r]) && Stays(was, fs[j])
    requires Known(was, fs, r, now) && SameOrder(was, fs, r, now)
    requires Unread(now, IndexOf(now, fs[r].name) + 1)
    ensures IndexOf(was, fs[j].name) < IndexOf(was, fs[r].name)
  {
    hide IndexOf, Stays, Resident, Among;
    ResidentFile(was, fs, r, j);
    ResidentFile(was, fs, r, r);
    ReadItem(was, fs, r, now, j);
    assert fs[j].name != fs[r].name;
  }

  lemma NoneBehind(was: seq<Item>, fs: seq<File>, r: nat, now: seq<Item>, i: nat)
    requires r < |fs| && FilesDistinct(fs) && Stays(was, fs[r]) && InStep(was, fs, r)
    requires Known(was, fs, r, now) && SameOrder(was, fs, r, now) && PutInFront(was, fs, r, now)
    requires 0 <= IndexOf(now, fs[r].name) < i < |now|
    ensures !now[i].marked
  {
    hide IndexOf, Stays, Among, Resident;
    StaysNow(was, fs, r, now);
    ResidentFile(was, fs, r, r);
    IndexIs(now, i);
    ReadResident(was, fs, r, now[i].name);
  }

  lemma ReadResident(was: seq<Item>, fs: seq<File>, r: nat, a: string)
    requires r <= |fs|
    ensures Among(fs, r, a) && Resident(was, fs, r, a) ==> exists j :: 0 <= j < r && fs[j].name == a && Stays(was, fs[j])
  {
    hide Stays, IndexOf;
  }

  lemma AllReadFirst(rest: seq<Item>, r: nat)
    requires r <= |rest| && |Marked(rest)| == r
    ensures Unread(rest, r) <==> forall h :: 0 <= h < r ==> rest[h].marked
  {
    MarkedSplit(rest, r);
    MarkedCount(rest[..r]);
    MarkedCount(rest[r..]);
    assert forall h :: 0 <= h < r ==> rest[h] == rest[..r][h];
  }

  /** The rest of the box has its items in their order. */
  lemma RestAlike(now: seq<Item>, name: string, a: string, b: string)
    requires NamesDistinct(now) && a != name && b != name
    ensures Alike(now, Rest(now, name), a, b)
  {
    hide IndexOf;
    var k := IndexOf(now, name);
    if k >= 0 {
      AlikeWithout(now, k, a, b);
    }
  }

  /** An unread item in front of a read one is in the way exactly as in the old box. */
  lemma InTheWay(was: seq<Item>, fs: seq<File>, r: nat, now: seq<Item>, h: nat, i: nat)
    requires r < |fs| && FilesDistinct(fs) && InStep(was, fs, r) && !Stays(was, fs[r])
    requires Known(was, fs, r, now) && SameOrder(was, fs, r, now) && PutInFront(was, fs, r, now)
    requires h < i < |now| && now[h].name != fs[r].name && now[i].name != fs[r].name
    ensures now[i].marked ==> now[h].marked
  {
    hide IndexOf, Stays, Among, Resident;
    IndexIs(now, i);
    IndexIs(now, h);
    ReadResident(was, fs, r, now[i].name);
    UnreadResident(was, fs, r, now, h);
    OldName(was, now[h].name);
    AmongNext(fs, r, now[h].name);
  }

  lemma OldName(was: seq<Item>, a: string)
    ensures IndexOf(was, a) >= 0 ==> was[IndexOf(was, a)].name == a
  {
  }

  lemma UnreadResident(was: seq<Item>, fs: seq<File>, r: nat, now: seq<Item>, h: nat)
    requires r <= |fs| && Known(was, fs, r, now) && h < |now|
    ensures !now[h].marked ==> Resident(was, fs, r, now[h].name) && IndexOf(was, now[h].name) >= 0
  {
    hide IndexOf, Stays;
  }

  /** Nor is anything else: what stood before a kept file has been read. */
  lemma NotInTheWay(was: seq<Item>, fs: seq<File>, r: nat, now: seq<Item>, j: nat, x: nat)
    requires j < r < |fs| && FilesDistinct(fs) && NamesDistinct(was) && Stays(was, fs[j]) && !Stays(was, fs[r])
    requires Known(was, fs, r, now) && SameOrder(was, fs, r, now)
    requires var rest := Rest(now, fs[r].name); |Marked(rest)| == r <= |rest| && Unread(rest, r)
    requires x < IndexOf(was, fs[j].name)
    ensures Among(fs, r + 1, was[x].name)
  {
    hide IndexOf, Stays, Among, Resident, Marked, Rest, Unread;
    var b, a, rest := was[x].name, fs[j].name, Rest(now, fs[r].name);
    AmongNext(fs, r, b);
    if b != fs[r].name {
      IndexIs(was, x);
      ResidentFile(was, fs, r, j);
      ReadItem(was, fs, r, now, j);
      assert a != fs[r].name;
      RestAlike(now, fs[r].name, a, b);
      RestAlike(now, fs[r].name, b, a);
      AllReadFirst(rest, r);
      BeforeRead(rest, r, IndexOf(rest, b), IndexOf(rest, a));
      UnreadResident(was, fs, r, now, IndexOf(now, b));
    }
  }

  lemma BeforeRead(rest: seq<Item>, r: nat, h: nat, i: nat)
    requires r <= |rest| && h < |rest| && i < |rest| && Unread(rest, r) && rest[i].marked
    requires forall h :: 0 <= h < r ==> rest[h].marked
    ensures h < i ==> rest[h].marked
  {
  }

  /** A file that is put in comes last of those read exactly when nothing unread is in the
      way. */
  lemma PutInStep(was: seq<Item>, fs: seq<File>, r: nat, now: seq<Item>)
    requires r < |fs| && FilesDistinct(fs) && NamesDistinct(was) && !Stays(was, fs[r])
    requires Known(was, fs, r, now) && SameOrder(was, fs, r, now) && PutInFront(was, fs, r, now)
    requires var rest := Rest(now, fs[r].name); |Marked(rest)| == r <= |rest|
    ensures Unread(Rest(now, fs[r].name), r) <==> InStep(was, fs, r)
  {
    hide IndexOf, Stays, Among, Marked, Unread, Rest, Known, SameOrder, PutInFront;
    var rest := Rest(now, fs[r].name);
    if Unread(rest, r) {
      forall j, x | 0 <= j < r && Stays(was, fs[j]) && 0 <= x < IndexOf(was, fs[j].name) ensures Among(fs, r + 1, was[x].name) {
        NotInTheWay(was, fs, r, now, j, x);
      }
    }
    if InStep(was, fs, r) {
      ReadInFront(was, fs, r, now);
      FrontReadCount(rest, r);
    }
  }

  lemma ReadInFront(was: seq<Item>, fs: seq<File>, r: nat, now: seq<Item>)
    requires r < |fs| && FilesDistinct(fs) && InStep(was, fs, r) && !Stays(was, fs[r])
    requires Known(was, fs, r, now) && SameOrder(was, fs, r, now) && PutInFront(was, fs, r, now)
    ensures var rest := Rest(now, fs[r].name);
            forall h, i :: 0 <= h < i < |rest| && rest[i].marked ==> rest[h].marked
  {
    hide IndexOf, Stays, Among, InStep, SameOrder, PutInFront;
    var name := fs[r].name;
    var k, rest := IndexOf(now, name), Rest(now, name);
    RestOthers(now, name);
    forall h, i | 0 <= h < i < |rest| && rest[i].marked ensures rest[h].marked {
      var h' := if 0 <= k <= h then h + 1 else h;
      var i' := if 0 <= k <= i then i + 1 else i;
      assert rest[h] == now[h'] && rest[i] == now[i'];
      InTheWay(was, fs, r, now, h', i');
    }
  }

  /** Read items first: then there are as many as they are. */
  lemma FrontReadCount(rest: seq<Item>, r: nat)
    requires |Marked(rest)| == r <= |rest|
    requires forall h, i :: 0 <= h < i < |rest| && rest[i].marked ==> rest[h].marked
    ensures Unread(rest, r)
  {
    MarkedSplit(rest, r);
    MarkedCount(rest[..r]);
    MarkedCount(rest[r..]);
    assert forall h :: 0 <= h < r ==> rest[..r][h] == rest[h];
  }

  lemma KeptInFront(was: seq<Item>, fs: seq<File>, r: nat, now: seq<Item>, k: nat)
    requires r < |fs| && FilesDistinct(fs) && Stays(was, fs[r]) && PutInFront(was, fs, r, now)
    requires k < |now| && now[k].name == fs[r].name
    ensures PutInFront(was, fs, r + 1, now[k := ItemOf(fs[r])])
  {
    hide Stays, Resident, IndexOf;
    var next := now[k := ItemOf(fs[r])];
    ResidentFile(was, fs, r + 1, r);
    forall h, i | 0 <= h < i < |next| && next[i].marked && !Resident(was, fs, r + 1, next[i].name) ensures next[h].marked {
      ResidentNext(was, fs, r, next[i].name);
    }
  }

  lemma PutFront(was: seq<Item>, fs: seq<File>, r: nat, rest: seq<Item>, x: Item)
    requires r < |fs| && x.marked && |Marked(rest)| == r <= |rest| && Unread(rest, r)
    ensures PutInFront(was, fs, r + 1, Insert(rest, r, x))
  {
    hide Resident, Marked;
    AllReadFirst(rest, r);
  }

  ghost predicate Sound(was: seq<Item>, fs: seq<File>, r: nat, now: seq<Item>)
    requires r <= |fs|
  {
    && Known(was, fs, r, now) && SameOrder(was, fs, r, now)
    && (InOrder(fs, r, now) <==> forall q :: 0 <= q < r ==> InStep(was, fs, q))
    && (InOrder(fs, r, now) ==> PutInFront(was, fs, r, now))
  }

  lemma SoundNext(was: seq<Item>, fs: seq<File>, r: nat, now: seq<Item>)
    requires r < |fs| && FilesDistinct(fs) && NamesDistinct(was) && Sound(was, fs, r, now)
    ensures var f := fs[r]; Sound(was, fs, r + 1, Added(now, f.name, f.fileType, f.selected, r))
  {
    hide Known, SameOrder, InStep, PutInFront, Added, Marked, IndexOf, Stays, Insert, Rest, Unread, FilesDistinct, NamesDistinct;
    var f := fs[r];
    var next := Added(now, f.name, f.fileType, f.selected, r);
    KnownNext(was, fs, r, now);
    OrderNext(was, fs, r, now);
    if Stays(was, f) {
      var k := IndexOf(now, f.name);
      StepKept(was, fs, r, now);
      if InOrder(fs, r, now) {
        KeptInStep(was, fs, r, now);
        assert now[k].name == f.name;
        KeptInFront(was, fs, r, now, k);
      }
    } else {
      var rest := Rest(now, f.name);
      StepPut(was, fs, r, now);
      if InOrder(fs, r, now) {
        MarkedCount(rest);
        PutInStep(was, fs, r, now);
        if Unread(rest, r) {
          PutFront(was, fs, r, rest, ItemOf(f));
        }
      }
    }
    assert (forall q :: 0 <= q < r + 1 ==> InStep(was, fs, q)) <==> (forall q :: 0 <= q < r ==> InStep(was, fs, q)) && InStep(was, fs, r);
  }

  lemma SoundStart(was: seq<Item>, fs: seq<File>)
    requires NamesDistinct(was) && forall i :: 0 <= i < |was| ==> !was[i].marked
    ensures Sound(was, fs, 0, was)
  {
    hide IndexOf, Stays;
    NoneShown(was);
    forall i | 0 <= i < |was| ensures IndexOf(was, was[i].name) == i {
      IndexIs(was, i);
    }
  }

  lemma {:induction false} SoundUpTo(was: seq<Item>, fs: seq<File>, r: nat)
    requires r <= |fs| && FilesDistinct(fs) && NamesDistinct(was) && forall i :: 0 <= i < |was| ==> !was[i].marked
    ensures Sound(was, fs, r, ReadIn(was, fs[..r]))
    decreases r
  {
    hide Added, IndexOf, Sound;
    if r == 0 {
      SoundStart(was, fs);
      assert fs[..0] == [];
    } else {
      SoundUpTo(was, fs, r - 1);
      assert fs[..r][..r - 1] == fs[..r - 1];
      SoundNext(was, fs, r - 1, ReadIn(was, fs[..r - 1]));
    }
  }

  lemma {:induction false} UnmarkedIndex(items: seq<Item>, a: string)
    ensures IndexOf(Unmarked(items), a) == IndexOf(items, a)
  {
    hide IndexOf;
  }

  lemma UnmarkedStays(items: seq<Item>, f: File)
    ensures Stays(Unmarked(items), f) == Stays(items, f)
  {
    UnmarkedIndex(items, f.name);
    hide IndexOf, Unmarked;
  }

  lemma UnmarkedInStep(items: seq<Item>, fs: seq<File>, r: nat)
    requires r < |fs|
    ensures InStep(Unmarked(items), fs, r) == InStep(items, fs, r)
  {
    hide Stays, IndexOf, Unmarked, Among;
    forall f: File ensures Stays(Unmarked(items), f) == Stays(items, f) && IndexOf(Unmarked(items), f.name) == IndexOf(items, f.name) {
      UnmarkedStays(items, f);
      UnmarkedIndex(items, f.name);
    }
  }

  /** Whatever the box held, it shows a directory's files in the order of the listing
      exactly when every file is in step. */
  lemma OrderIff(items: seq<Item>, fs: seq<File>)
    requires NamesDistinct(items) && FilesDistinct(fs)
    ensures Marked(ReadIn(Unmarked(items), fs)) == Listed(fs) <==> KeepsOrder(items, fs)
  {
    var was := Unmarked(items);
    hide Marked, ReadIn, Unmarked, InStep, Known, SameOrder, PutInFront, Listed;
    SoundUpTo(was, fs, |fs|);
    assert fs[..|fs|] == fs;
    forall r | 0 <= r < |fs| ensures InStep(was, fs, r) == InStep(items, fs, r) {
      UnmarkedInStep(items, fs, r);
    }
  }

  /** All files the box has are kept: none has a new type, and they stand in the order of
      the listing. */
  predicate Unchanged(items: seq<Item>, fs: seq<File>) {
    && (forall i :: 0 <= i < |fs| && IndexOf(items, fs[i].name) >= 0 ==> Stays(items, fs[i]))
    && (forall i, j :: 0 <= i < j < |fs| && Stays(items, fs[i]) && Stays(items, fs[j]) ==>
          IndexOf(items, fs[i].name) < IndexOf(items, fs[j].name))
  }

  /** No file is added behind a kept one that a removed one precedes. */
  predicate NoneRemovedBefore(items: seq<Item>, fs: seq<File>) {
    forall r, j, x :: 0 <= j < r < |fs| && !Stays(items, fs[r]) && Stays(items, fs[j]) && 0 <= x < IndexOf(items, fs[j].name) ==>
      Among(fs, |fs|, items[x].name)
  }

  lemma ReadEarlier(items: seq<Item>, fs: seq<File>, j: nat, x: nat)
    requires NamesDistinct(items) && Unchanged(items, fs) && j < |fs| && Stays(items, fs[j])
    requires x < IndexOf(items, fs[j].name) && Among(fs, |fs|, items[x].name)
    ensures Among(fs, j, items[x].name)
  {
    hide IndexOf, Stays, NamesDistinct;
    IndexIs(items, x);
    var q :| 0 <= q < |fs| && fs[q].name == items[x].name;
    assert Stays(items, fs[q]);
  }

  lemma AmongMore(fs: seq<File>, r: nat, n: nat, a: string)
    requires r <= n <= |fs| && Among(fs, r, a)
    ensures Among(fs, n, a)
  {
    var j :| 0 <= j < r && fs[j].name == a;
    assert 0 <= j < n;
  }

  /** When the files that were there before are unchanged, only a file removed from in front
      of them puts an added one out of order. */
  lemma OrderIffNoneRemoved(items: seq<Item>, fs: seq<File>)
    requires NamesDistinct(items) && FilesDistinct(fs) && Unchanged(items, fs)
    ensures Marked(ReadIn(Unmarked(items), fs)) == Listed(fs) <==> NoneRemovedBefore(items, fs)
  {
    hide Marked, ReadIn, Unmarked, Listed, IndexOf, Among, Stays, NamesDistinct;
    OrderIff(items, fs);
    if KeepsOrder(items, fs) {
      forall r, j, x | 0 <= j < r < |fs| && !Stays(items, fs[r]) && Stays(items, fs[j]) && 0 <= x < IndexOf(items, fs[j].name)
        ensures Among(fs, |fs|, items[x].name)
      {
        assert InStep(items, fs, r);
        AmongMore(fs, r + 1, |fs|, items[x].name);
      }
    }
    if NoneRemovedBefore(items, fs) {
      hide Unchanged;
      forall r | 0 <= r < |fs| ensures InStep(items, fs, r) {
        InStepUnchanged(items, fs, r);
      }
    }
  }

  lemma InStepUnchanged(items: seq<Item>, fs: seq<File>, r: nat)
    requires r < |fs| && NamesDistinct(items) && Unchanged(items, fs) && NoneRemovedBefore(items, fs)
    ensures InStep(items, fs, r)
  {
    hide IndexOf, Among, Stays, NamesDistinct;
    if !Stays(items, fs[r]) {
      forall j, x | 0 <= j < r && Stays(items, fs[j]) && 0 <= x < IndexOf(items, fs[j].name)
        ensures Among(fs, r + 1, items[x].name)
      {
        ReadEarlier(items, fs, j, x);
        AmongMore(fs, j, r + 1, items[x].name);
      }
    }
  }
}
