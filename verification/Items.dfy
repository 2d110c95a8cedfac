/** The items of a file box as values: what reading a directory's files into the box does
    to the list, and that it ends up holding exactly those files. */
module Items {
  import opened Listings

  datatype Item = Item(name: string, fileType: FileType, selection: FileSelection, marked: bool)

  /** `g_slist_insert`: at the end when the place is past it. */
  function Insert<T>(s: seq<T>, at: int, x: T): (r: seq<T>)
    ensures |r| == |s| + 1
  {
    if 0 <= at <= |s| then s[..at] + [x] + s[at..] else s + [x]
  }

  /** Where the new element ends up. */
  function Place(n: nat, at: int): (p: nat)
    ensures p <= n
  {
    if 0 <= at <= n then at else n
  }

  function Without<T>(s: seq<T>, at: nat): (r: seq<T>)
    requires at < |s|
    ensures |r| == |s| - 1
  {
    s[..at] + s[at + 1..]
  }

  /** The first item of that name, or -1. */
  function IndexOf(items: seq<Item>, name: string): (k: int)
    ensures -1 <= k < |items|
    ensures k >= 0 ==> items[k].name == name && forall i :: 0 <= i < k ==> items[i].name != name
    ensures k < 0 ==> forall i :: 0 <= i < |items| ==> items[i].name != name
  {
    if items == [] then -1
    else if items[0].name == name then 0
    else
      var k := IndexOf(items[1..], name);
      if k < 0 then
        assert forall i :: 0 < i < |items| ==> items[i] == items[1..][i - 1];
        -1
      else
        assert forall i :: 0 < i < |items| ==> items[i] == items[1..][i - 1];
        k + 1
  }

  /** Read one file: a known item is updated, and moved only when its type has changed; an
      unknown one goes in at its rank. */
  function Added(items: seq<Item>, name: string, t: FileType, s: FileSelection, rank: int): seq<Item> {
    var k := IndexOf(items, name);
    var item := Item(name, t, s, true);
    if k < 0 then Insert(items, rank, item)
    else if items[k].fileType != t then Insert(Without(items, k), rank, item)
    else items[k := item]
  }

  /** How much of a change it is. */
  function Points(items: seq<Item>, name: string, t: FileType, s: FileSelection): int {
    var k := IndexOf(items, name);
    if k < 0 then 2
    else (if items[k].fileType != t then 2 else 0) + if items[k].selection != s then 1 else 0
  }

  function Unmarked(items: seq<Item>): (r: seq<Item>)
    ensures |r| == |items| && forall i :: 0 <= i < |r| ==> r[i] == items[i].(marked := false)
  {
    seq(|items|, i requires 0 <= i < |items| => items[i].(marked := false))
  }

  function Marked(items: seq<Item>): seq<Item> {
    if items == [] then [] else (if items[0].marked then [items[0]] else []) + Marked(items[1..])
  }

  predicate NamesDistinct(items: seq<Item>) {
    forall i, j :: 0 <= i < j < |items| ==> items[i].name != items[j].name
  }

  // ----- the box as a set of items -----

  lemma InsertMembers<T>(s: seq<T>, at: int, x: T)
    ensures multiset(Insert(s, at, x)) == multiset(s) + multiset{x}
  {
    if 0 <= at <= |s| {
      assert s == s[..at] + s[at..];
    }
  }

  lemma WithoutMembers<T>(s: seq<T>, at: nat)
    requires at < |s|
    ensures multiset(Without(s, at)) == multiset(s) - multiset{s[at]}
  {
    assert s == s[..at] + [s[at]] + s[at + 1..];
  }

  lemma ReplaceMembers<T>(s: seq<T>, at: nat, x: T)
    requires at < |s|
    ensures multiset(s[at := x]) == multiset(s) - multiset{s[at]} + multiset{x}
  {
    assert s == s[..at] + [s[at]] + s[at + 1..];
    assert s[at := x] == s[..at] + [x] + s[at + 1..];
  }

  /** Reading a file replaces the item of its name, if there is one. */
  lemma AddedMembers(items: seq<Item>, name: string, t: FileType, s: FileSelection, rank: int)
    ensures var k := IndexOf(items, name); var item := Item(name, t, s, true);
            multiset(Added(items, name, t, s, rank))
            == (if k < 0 then multiset(items) else multiset(items) - multiset{items[k]}) + multiset{item}
  {
    var k := IndexOf(items, name);
    var item := Item(name, t, s, true);
    if k < 0 {
      InsertMembers(items, rank, item);
    } else if items[k].fileType != t {
      WithoutMembers(items, k);
      InsertMembers(Without(items, k), rank, item);
    } else {
      ReplaceMembers(items, k, item);
    }
  }

  lemma DistinctInsert(items: seq<Item>, at: int, x: Item)
    requires NamesDistinct(items) && forall i :: 0 <= i < |items| ==> items[i].name != x.name
    ensures NamesDistinct(Insert(items, at, x))
  {
  }

  lemma DistinctAdded(items: seq<Item>, name: string, t: FileType, s: FileSelection, rank: int)
    requires NamesDistinct(items)
    ensures NamesDistinct(Added(items, name, t, s, rank))
  {
    hide Insert, IndexOf;
    var k := IndexOf(items, name);
    var item := Item(name, t, s, true);
    if k < 0 {
      DistinctInsert(items, rank, item);
    } else if items[k].fileType != t {
      DistinctInsert(Without(items, k), rank, item);
    }
  }

  /** The marked items of a box. */
  function Shown(items: seq<Item>): multiset<Item> {
    multiset(Marked(items))
  }

  lemma {:induction false} MarkedConcat(a: seq<Item>, b: seq<Item>)
    ensures Marked(a + b) == Marked(a) + Marked(b)
  {
    if a == [] {
      assert a + b == b;
    } else {
      MarkedConcat(a[1..], b);
      var s, head := a + b, if a[0].marked then [a[0]] else [];
      assert s[0] == a[0] && s[1..] == a[1..] + b;
      assert head + (Marked(a[1..]) + Marked(b)) == (head + Marked(a[1..])) + Marked(b);
    }
  }

  lemma MarkedOne(x: Item)
    ensures Marked([x]) == if x.marked then [x] else []
  {
    assert [x][1..] == [];
  }

  lemma ShownInsert(s: seq<Item>, at: int, x: Item)
    requires x.marked
    ensures Shown(Insert(s, at, x)) == Shown(s) + multiset{x}
  {
    MarkedOne(x);
    var p := Place(|s|, at);
    assert s == s[..p] + s[p..];
    MarkedConcat(s[..p], s[p..]);
    assert Insert(s, at, x) == s[..p] + [x] + s[p..];
    MarkedConcat(s[..p] + [x], s[p..]);
    MarkedConcat(s[..p], [x]);
  }

  lemma ShownAround(s: seq<Item>, at: nat, x: Item)
    requires at < |s|
    ensures Marked(s[at := x]) == Marked(s[..at]) + Marked([x]) + Marked(s[at + 1..])
    ensures Marked(Without(s, at)) == Marked(s[..at]) + Marked(s[at + 1..])
  {
    assert s[at := x] == s[..at] + [x] + s[at + 1..];
    MarkedConcat(s[..at] + [x], s[at + 1..]);
    MarkedConcat(s[..at], [x]);
    MarkedConcat(s[..at], s[at + 1..]);
  }

  /** A file not read before in this listing is one more marked item. */
  lemma AddedShown(items: seq<Item>, name: string, t: FileType, s: FileSelection, rank: int)
    requires var k := IndexOf(items, name); k >= 0 ==> !items[k].marked
    ensures Shown(Added(items, name, t, s, rank)) == Shown(items) + multiset{Item(name, t, s, true)}
  {
    hide Insert, IndexOf, Marked;
    var k := IndexOf(items, name);
    var item := Item(name, t, s, true);
    if k < 0 {
      ShownInsert(items, rank, item);
    } else {
      ShownAround(items, k, item);
      ShownAround(items, k, items[k]);
      MarkedOne(item);
      MarkedOne(items[k]);
      assert items[k := items[k]] == items;
      if items[k].fileType != t {
        ShownInsert(Without(items, k), rank, item);
      }
    }
  }

  lemma {:induction false} NoneShown(items: seq<Item>)
    requires forall i :: 0 <= i < |items| ==> !items[i].marked
    ensures Shown(items) == multiset{} && Marked(items) == []
  {
    if items != [] {
      NoneShown(items[1..]);
    }
  }

  // ----- reading a directory's files -----

  function ItemOf(f: File): Item {
    Item(f.name, f.fileType, f.selected, true)
  }

  /** The files printed, in order. */
  function ShownFiles(fs: seq<File>): (r: seq<File>)
    ensures forall f :: f in r <==> f in fs && f.shown
  {
    if fs == [] then [] else (if fs[0].shown then [fs[0]] else []) + ShownFiles(fs[1..])
  }

  function ItemsOf(fs: seq<File>): multiset<Item> {
    if fs == [] then multiset{} else ItemsOf(fs[..|fs| - 1]) + multiset{ItemOf(fs[|fs| - 1])}
  }

  /** Read in a list of files, each at its rank. */
  function ReadIn(items: seq<Item>, fs: seq<File>): seq<Item> {
    if fs == [] then items
    else
      var f := fs[|fs| - 1];
      Added(ReadIn(items, fs[..|fs| - 1]), f.name, f.fileType, f.selected, |fs| - 1)
  }

  predicate FilesDistinct(fs: seq<File>) {
    forall i, j :: 0 <= i < j < |fs| ==> fs[i].name != fs[j].name
  }

  /** The only marked items are files read. */
  predicate OnlyRead(items: seq<Item>, fs: seq<File>) {
    forall i :: 0 <= i < |items| && items[i].marked ==> exists k :: 0 <= k < |fs| && ItemOf(fs[k]) == items[i]
  }

  lemma {:induction false} ReadInShows(items: seq<Item>, fs: seq<File>)
    requires NamesDistinct(items) && FilesDistinct(fs) && forall i :: 0 <= i < |items| ==> !items[i].marked
    ensures NamesDistinct(ReadIn(items, fs)) && OnlyRead(ReadIn(items, fs), fs)
    ensures Shown(ReadIn(items, fs)) == ItemsOf(fs)
  {
    hide Added, Marked, IndexOf;
    if fs == [] {
      NoneShown(items);
    } else {
      var n := |fs| - 1;
      var f := fs[n];
      ReadInShows(items, fs[..n]);
      var before := ReadIn(items, fs[..n]);
      NotReadYet(before, fs);
      AddedShown(before, f.name, f.fileType, f.selected, n);
      DistinctAdded(before, f.name, f.fileType, f.selected, n);
      OnlyReadGrows(before, fs);
    }
  }

  lemma NotReadYet(items: seq<Item>, fs: seq<File>)
    requires fs != [] && FilesDistinct(fs) && OnlyRead(items, fs[..|fs| - 1])
    ensures var k := IndexOf(items, fs[|fs| - 1].name); k >= 0 ==> !items[k].marked
  {
    hide IndexOf;
    var before := fs[..|fs| - 1];
    assert forall j :: 0 <= j < |before| ==> before[j].name != fs[|fs| - 1].name;
  }

  lemma OnlyReadGrows(items: seq<Item>, fs: seq<File>)
    requires fs != [] && OnlyRead(items, fs[..|fs| - 1])
    ensures var f := fs[|fs| - 1]; OnlyRead(Added(items, f.name, f.fileType, f.selected, |fs| - 1), fs)
  {
    hide Added, Marked, IndexOf;
    var n := |fs| - 1;
    var f := fs[n];
    var after := Added(items, f.name, f.fileType, f.selected, n);
    AddedMembers(items, f.name, f.fileType, f.selected, n);
    forall i | 0 <= i < |after| && after[i].marked ensures exists k :: 0 <= k < |fs| && ItemOf(fs[k]) == after[i] {
      assert after[i] in multiset(after);
      if after[i] == ItemOf(f) {
        assert ItemOf(fs[n]) == after[i];
      } else {
        assert after[i] in multiset(items);
        var j :| 0 <= j < |items| && items[j] == after[i];
        var k :| 0 <= k < n && ItemOf(fs[..n][k]) == items[j];
        assert ItemOf(fs[k]) == after[i];
      }
    }
  }

  lemma {:induction false} MarkedKeepsNames(items: seq<Item>)
    requires NamesDistinct(items)
    ensures NamesDistinct(Marked(items)) && forall x :: x in Marked(items) ==> x in items && x.marked
  {
    if items != [] {
      MarkedKeepsNames(items[1..]);
      forall i | 0 <= i < |Marked(items[1..])| ensures Marked(items[1..])[i].name != items[0].name {
        assert Marked(items[1..])[i] in items[1..];
      }
    }
  }

  /** Whatever the box held before, once a directory's files have been read in and the rest
      swept out it holds exactly those files, each once. */
  lemma BoxAgrees(items: seq<Item>, fs: seq<File>)
    requires NamesDistinct(items) && FilesDistinct(fs)
    ensures var after := Marked(ReadIn(Unmarked(items), fs));
            multiset(after) == ItemsOf(fs) && NamesDistinct(after)
  {
    hide Added, Marked;
    ReadInShows(Unmarked(items), fs);
    MarkedKeepsNames(ReadIn(Unmarked(items), fs));
  }

  /** An empty box shows the files in the order of the listing. */
  lemma {:induction false} FreshBoxOrder(fs: seq<File>)
    requires FilesDistinct(fs)
    ensures var r := ReadIn([], fs); |r| == |fs| && Marked(r) == r && forall i :: 0 <= i < |fs| ==> r[i] == ItemOf(fs[i])
  {
    hide IndexOf, Added, Marked;
    if fs == [] {
      NoneShown([]);
    } else {
      var n, x := |fs| - 1, ItemOf(fs[|fs| - 1]);
      FreshBoxOrder(fs[..n]);
      var before := ReadIn([], fs[..n]);
      assert forall i :: 0 <= i < n ==> before[i].name == fs[i].name;
      AddedNew(before, x, n);
      assert before[n..] == [] && before[..n] == before && before + [x] + [] == before + [x];
      MarkedConcat(before, [x]);
      MarkedOne(x);
    }
  }

  /** A box that held files before may show them in another order: a new file goes in by its
      rank among items some of which are about to be swept out. */
  lemma OrderMayDiffer()
    ensures var fs := [Letter('a'), Letter('b'), Letter('c')];
            Marked(ReadIn(Unmarked(ReadIn([], fs)), [Letter('b'), Letter('c'), Letter('d')]))
            == [ItemOf(Letter('b')), ItemOf(Letter('d')), ItemOf(Letter('c'))]
  {
    hide Added, IndexOf, Marked;
    var a, b, c, d := ItemOf(Letter('a')), ItemOf(Letter('b')), ItemOf(Letter('c')), ItemOf(Letter('d'));
    FreshBoxOrder([Letter('a'), Letter('b'), Letter('c')]);
    assert ReadIn([], [Letter('a'), Letter('b'), Letter('c')]) == [a, b, c];
    var x, y, z := a.(marked := false), b.(marked := false), c.(marked := false);
    var was := [x, y, z];
    assert Unmarked([a, b, c]) == was;
    var one, two, three := [Letter('b')], [Letter('b'), Letter('c')], [Letter('b'), Letter('c'), Letter('d')];
    assert one[..0] == [] && two[..1] == one && three[..2] == two;
    AddedKnown(was, 1, b);
    AddedKnown([x, b, z], 2, c);
    AddedNew([x, b, c], d, 2);
    assert was[1 := b] == [x, b, z] && [x, b, z][2 := c] == [x, b, c];
    assert ReadIn(was, one) == Added(ReadIn(was, []), b.name, b.fileType, b.selection, 0) == [x, b, z];
    assert ReadIn(was, two) == [x, b, c] && ReadIn(was, three) == [x, b, d, c];
    MarkedOne(x);
    MarkedOne(b);
    MarkedOne(d);
    MarkedOne(c);
    MarkedConcat([x], [b]);
    MarkedConcat([x, b], [d]);
    MarkedConcat([x, b, d], [c]);
    assert [x] + [b] == [x, b] && [x, b] + [d] == [x, b, d] && [x, b, d] + [c] == [x, b, d, c];
  }

  lemma AddedKnown(items: seq<Item>, k: nat, item: Item)
    requires k < |items| && NamesDistinct(items) && items[k] == item.(marked := false) && item.marked
    ensures forall rank :: Added(items, item.name, item.fileType, item.selection, rank) == items[k := item]
  {
    assert IndexOf(items, item.name) == k;
  }

  lemma AddedNew(items: seq<Item>, item: Item, rank: nat)
    requires (forall i :: 0 <= i < |items| ==> items[i].name != item.name) && item.marked && rank <= |items|
    ensures Added(items, item.name, item.fileType, item.selection, rank) == items[..rank] + [item] + items[rank..]
  {
  }

  function Letter(c: char): File {
    File([c], FsNo, FtRegular, true)
  }
}
