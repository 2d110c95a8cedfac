/** A directory's box of files on the display: a list of items, and the wrap box's list of
    their widgets, updated in place as a listing is read. */
module FileBoxes {
  import opened Listings
  import opened Items

  const NO_WIDGET := -1

  class FItem {
    const name: string
    var fileType: FileType
    var selection: FileSelection
    var marked: bool
    /** The widget's identity. */
    var widget: int

    ghost function Value(): Item
      reads this
    {
      Item(name, fileType, selection, marked)
    }

    constructor (name: string, t: FileType, s: FileSelection)
      ensures this.name == name && Value() == Item(name, t, s, false) && widget == NO_WIDGET
    {
      this.name, fileType, selection, marked, widget := name, t, s, false, NO_WIDGET;
    }
  }

  ghost function Values(fs: seq<FItem>): (r: seq<Item>)
    reads fs
    ensures |r| == |fs| && forall i :: 0 <= i < |fs| ==> r[i] == fs[i].Value()
  {
    seq(|fs|, i requires 0 <= i < |fs| reads fs => fs[i].Value())
  }

  ghost function WidgetsOf(fs: seq<FItem>): (r: seq<int>)
    reads fs
    ensures |r| == |fs| && forall i :: 0 <= i < |fs| ==> r[i] == fs[i].widget
  {
    seq(|fs|, i requires 0 <= i < |fs| reads fs => fs[i].widget)
  }

  /** No two items of one name, so no item twice. */
  ghost predicate Named(fs: seq<FItem>) {
    forall i, j :: 0 <= i < j < |fs| ==> fs[i].name != fs[j].name
  }

  /** Children stand for widgets made so far, none twice. */
  predicate Children(children: seq<int>, next: nat) {
    && (forall i, j :: 0 <= i < j < |children| ==> children[i] != children[j])
    && forall i :: 0 <= i < |children| ==> 0 <= children[i] < next
  }

  /** The children are the items' widgets, in order; the item at `hole`, if any, has none. */
  predicate PackedAs(widgets: seq<int>, children: seq<int>, next: nat, hole: int) {
    && Children(children, next) && hole <= |children|
    && widgets == if hole < 0 then children else Insert(children, hole, NO_WIDGET)
  }

  class FileBox {
    var fis: seq<FItem>
    var children: seq<int>
    var nextWidget: nat
    var changedFi: FItem?

    ghost function Contents(): seq<Item>
      reads this, fis
    {
      Values(fis)
    }

    ghost predicate Packed(hole: int)
      reads this, fis
    {
      PackedAs(WidgetsOf(fis), children, nextWidget, hole)
    }

    ghost predicate Valid()
      reads this, fis
    {
      && Named(fis) && Packed(-1)
      && (changedFi != null ==> changedFi in fis && changedFi.marked)
    }

    constructor ()
      ensures Valid() && fis == [] && changedFi == null
    {
      fis, children, nextWidget, changedFi := [], [], 0, null;
    }

    // ----- the wrap box -----

    /** Pack a widget at a place in the list of children. */
    method PackPos(widget: int, pos: nat)
      modifies this`children
      ensures children == Insert(old(children), pos, widget)
    {
      var at, left := 0, pos;
      while left > 0 && at < |children|
        invariant 0 <= at <= |children| && left == pos - at >= 0
      {
        at, left := at + 1, left - 1;
      }
      children := children[..at] + [widget] + children[at..];
    }

    method RemoveWidget(widget: int)
      modifies this`children
      ensures widget !in old(children) ==> children == old(children)
      ensures forall k :: 0 <= k < |old(children)| && old(children)[k] == widget && widget !in old(children)[..k]
                          ==> children == Without(old(children), k)
    {
      var k := 0;
      while k < |children|
        invariant 0 <= k <= |children| && widget !in children[..k] && children == old(children)
      {
        if children[k] == widget {
          children := children[..k] + children[k + 1..];
          return;
        }
        k := k + 1;
      }
    }

    // ----- the file box -----

    method Find(name: string) returns (k: int)
      ensures k == IndexOf(Contents(), name)
    {
      k := 0;
      while k < |fis|
        invariant 0 <= k <= |fis|
        invariant forall i :: 0 <= i < k ==> fis[i].name != name
      {
        if fis[k].name == name {
          assert Contents()[k].name == name;
          return;
        }
        k := k + 1;
      }
      k := -1;
    }

    method GetDisplayPos(fi: FItem) returns (pos: nat)
      ensures pos <= |fis| && (forall i :: 0 <= i < pos ==> fis[i] != fi) && (pos < |fis| ==> fis[pos] == fi)
    {
      pos := 0;
      while pos < |fis|
        invariant pos <= |fis| && forall i :: 0 <= i < pos ==> fis[i] != fi
      {
        if fis[pos] == fi {
          break;
        }
        pos := pos + 1;
      }
    }

    /** Put an item that has no widget in the list. */
    method PutIn(fi: FItem, rank: int)
      requires Named(fis) && Packed(-1) && fi.widget == NO_WIDGET
      requires forall i :: 0 <= i < |fis| ==> fis[i].name != fi.name
      modifies this`fis
      ensures Named(fis) && Packed(Place(|old(fis)|, rank)) && fis == Insert(old(fis), rank, fi)
      ensures fis[Place(|old(fis)|, rank)] == fi && forall f :: f in fis <==> f in old(fis) || f == fi
      ensures Contents() == Insert(old(Contents()), rank, fi.Value())
    {
      hide Named, Values, WidgetsOf, Children;
      NamedInsert(fis, rank, fi);
      ListInsert(fis, rank, fi);
      InsertedIn(fis, rank, fi);
      fis := Insert(fis, rank, fi);
    }

    /** Take the item at `k` off the list, and destroy its widget. */
    method Take(k: nat)
      requires Named(fis) && Packed(-1) && k < |fis|
      modifies this`fis, this`children
      ensures Named(fis) && Packed(-1) && fis == Without(old(fis), k) && old(fis)[k] !in fis
      ensures Contents() == Without(old(Contents()), k)
    {
      hide Children;
      ListWithout(fis, k);
      TakeChild(children, nextWidget, k);
      var fi := fis[k];
      fis := fis[..k] + fis[k + 1..];
      if fi.widget != NO_WIDGET {
        RemoveWidget(fi.widget);
      }
    }

    /** An item of another type loses its widget, and moves to its rank. */
    method Retype(k: nat, t: FileType, rank: int) returns (ghost at: nat)
      requires Named(fis) && Packed(-1) && k < |fis|
      modifies this`fis, this`children, fis[k]
      ensures old(fis[k]).widget == NO_WIDGET
      ensures |fis| == |old(fis)| && at == Place(|fis| - 1, rank) && fis[at] == old(fis[k]) && Named(fis) && Packed(at)
      ensures Contents() == Insert(Without(old(Contents()), k), rank, old(fis[k].Value()).(fileType := t))
      ensures forall fi :: fi in fis <==> fi in old(fis)
    {
      hide PackedAs, Values, WidgetsOf;
      var fi := fis[k];
      at := Place(|fis| - 1, rank);
      ghost var list := fis;
      Take(k);
      ghost var items, widgets := Contents(), WidgetsOf(fis);
      fi.fileType, fi.widget := t, NO_WIDGET;
      assert Contents() == items && WidgetsOf(fis) == widgets;
      PutIn(fi, rank);
      MovedMembers(list, k, rank);
      assert fis == Insert(Without(list, k), rank, list[k]);
    }

    /** Take over the selection of the item at `at`; the point it is worth. */
    method Select(fi: FItem, s: FileSelection, ghost at: nat) returns (points: int)
      requires Named(fis) && at < |fis| && fis[at] == fi
      modifies fi`selection
      ensures Contents() == old(Contents())[at := old(fi.Value()).(selection := s)]
      ensures WidgetsOf(fis) == old(WidgetsOf(fis))
      ensures points == if old(fi.selection) != s then 1 else 0
    {
      points := 0;
      if fi.selection != s {
        fi.selection := s;
        points := 1;
      }
    }

    method Mark(fi: FItem, ghost at: nat)
      requires Named(fis) && at < |fis| && fis[at] == fi
      modifies fi`marked
      ensures fi.marked && Contents() == old(Contents())[at := old(fi.Value()).(marked := true)]
      ensures WidgetsOf(fis) == old(WidgetsOf(fis))
    {
      fi.marked := true;
    }

    method SetWidget(fi: FItem, widget: int, ghost at: nat)
      requires Named(fis) && at < |fis| && fis[at] == fi
      modifies fi`widget
      ensures fi.widget == widget && Contents() == old(Contents())
      ensures WidgetsOf(fis) == old(WidgetsOf(fis))[at := widget]
    {
      fi.widget := widget;
    }

    /** A known item has been read again: take over its type and selection. */
    method Update(fi: FItem, k: nat, t: FileType, s: FileSelection, rank: int) returns (points: int, ghost at: nat)
      requires Named(fis) && Packed(-1) && k < |fis| && fis[k] == fi
      modifies this`fis, this`children, fi
      ensures Named(fis) && at < |fis| && fis[at] == fi
      ensures at == if old(fi.fileType) == t then k else Place(|fis| - 1, rank)
      ensures Packed(if old(fi.fileType) == t then -1 else at)
      ensures points == (if old(fi.fileType) != t then 2 else 0) + if old(fi.selection) != s then 1 else 0
      ensures Contents() == Moved(old(Contents()), k, Item(fi.name, t, s, old(fi.marked)), rank)
      ensures fi.widget == NO_WIDGET <==> old(fi.fileType) != t
      ensures forall f :: f in fis <==> f in old(fis)
    {
      hide PackedAs, Named, Insert, Without, Values, WidgetsOf;
      ghost var was, items := fi.Value(), Contents();
      points, at := 0, k;
      HasWidget(WidgetsOf(fis), children, nextWidget, k);
      if fi.fileType != t {
        at := Retype(k, t, rank);
        points := 2;
        InsertedInstead(Without(items, k), rank, was.(fileType := t), was.(fileType := t, selection := s));
      }
      var more := Select(fi, s, at);
      points := points + more;
    }

    /** Make the widget of the item at `at`, and pack it where the item stands. */
    method BuildWidget(fi: FItem, ghost at: nat)
      requires Named(fis) && at < |fis| && fis[at] == fi && Packed(at) && fi.marked
      requires changedFi != null ==> changedFi in fis && changedFi.marked
      modifies this, fi`widget
      ensures Valid() && fis == old(fis) && Contents() == old(Contents())
    {
      hide Named, PackedAs, Insert, Values, WidgetsOf;
      NewChild(WidgetsOf(fis), children, nextWidget, at);
      SetWidget(fi, nextWidget, at);
      nextWidget := nextWidget + 1;
      var pos := GetDisplayPos(fi);
      OnePlace(fis, at);
      PackPos(fi.widget, pos);
      if changedFi == null {
        changedFi := fi;
      }
    }

    /** Read one file of the listing; the answer says how much of a change it is. */
    method Add(name: string, t: FileType, s: FileSelection, rank: int) returns (points: int)
      requires Valid()
      modifies this, fis
      ensures Valid() && Contents() == Added(old(Contents()), name, t, s, rank)
      ensures points == Points(old(Contents()), name, t, s)
      ensures forall fi :: fi in fis ==> fi in old(fis) || fresh(fi)
    {
      hide PackedAs, Named, Insert, Without, Values, WidgetsOf;
      var k := Find(name);
      if k >= 0 {
        points := AddKnown(fis[k], k, t, s, rank);
      } else {
        points := AddNew(name, t, s, rank);
      }
    }

    /** The file has been read: it is marked, and gets a widget if it has none. */
    method MarkAndBuild(fi: FItem, ghost at: nat)
      requires Named(fis) && at < |fis| && fis[at] == fi && Packed(if fi.widget == NO_WIDGET then at else -1)
      requires changedFi != null ==> changedFi in fis && (changedFi == fi || changedFi.marked)
      modifies this, fi`marked, fi`widget
      ensures Valid() && fis == old(fis)
      ensures Contents() == old(Contents())[at := old(fi.Value()).(marked := true)]
    {
      hide PackedAs, Named, Values, WidgetsOf;
      Mark(fi, at);
      if fi.widget == NO_WIDGET {
        BuildWidget(fi, at);
      }
    }

    /** The first file that changed is remembered. */
    method UpdateAndNote(fi: FItem, k: nat, t: FileType, s: FileSelection, rank: int) returns (points: int, ghost at: nat)
      requires Valid() && k < |fis| && fis[k] == fi
      modifies this, fi
      ensures Named(fis) && at < |fis| && fis[at] == fi
      ensures at == if old(fi.fileType) == t then k else Place(|old(fis)| - 1, rank)
      ensures Packed(if fi.widget == NO_WIDGET then at else -1)
      ensures points == (if old(fi.fileType) != t then 2 else 0) + if old(fi.selection) != s then 1 else 0
      ensures Contents() == Moved(old(Contents()), k, Item(fi.name, t, s, old(fi.marked)), rank)
      ensures changedFi != null ==> changedFi in fis && (changedFi == fi || changedFi.marked)
      ensures forall f :: f in fis <==> f in old(fis)
    {
      hide PackedAs, Named, Insert, Without, Values, WidgetsOf, Place, Children;
      points, at := Update(fi, k, t, s, rank);
      if points > 0 && changedFi == null {
        changedFi := fi;
      }
    }

    method AddKnown(fi: FItem, k: nat, t: FileType, s: FileSelection, rank: int) returns (points: int)
      requires Valid() && k < |fis| && fis[k] == fi
      modifies this, fi
      ensures Valid() && Contents() == Moved(old(Contents()), k, Item(fi.name, t, s, true), rank)
      ensures points == (if old(fi.fileType) != t then 2 else 0) + if old(fi.selection) != s then 1 else 0
      ensures forall f :: f in fis <==> f in old(fis)
    {
      hide PackedAs, Named, Insert, Without, Values, WidgetsOf, Place, Children;
      ghost var items := Contents();
      ghost var at;
      points, at := UpdateAndNote(fi, k, t, s, rank);
      MovedInstead(items, k, Item(fi.name, t, s, items[k].marked), rank, at);
      MarkAndBuild(fi, at);
    }

    method AddNew(name: string, t: FileType, s: FileSelection, rank: int) returns (points: int)
      requires Valid() && IndexOf(Contents(), name) < 0
      modifies this
      ensures Valid() && Contents() == Insert(old(Contents()), rank, Item(name, t, s, true)) && points == 2
      ensures forall fi :: fi in fis ==> fi in old(fis) || fresh(fi)
    {
      hide PackedAs, Named, Values, WidgetsOf, Insert;
      ghost var items := Contents();
      var fi := new FItem(name, t, s);
      ghost var at := Place(|fis|, rank);
      PutIn(fi, rank);
      points := 2;
      InsertedInstead(items, rank, Item(name, t, s, false), Item(name, t, s, true));
      MarkAndBuild(fi, at);
    }

    /** Unmark all items: a new listing is about to be read. */
    method BeginRead()
      requires Valid()
      modifies this`changedFi, fis
      ensures Valid() && Contents() == Unmarked(old(Contents()))
    {
      hide PackedAs, Named, Values, WidgetsOf;
      ClearMarks();
      ghost var items, widgets := Contents(), WidgetsOf(fis);
      changedFi := null;
      assert Contents() == items && WidgetsOf(fis) == widgets;
    }

    method ClearMarks()
      modifies fis
      ensures Contents() == Unmarked(old(Contents())) && WidgetsOf(fis) == old(WidgetsOf(fis))
    {
      hide Values, WidgetsOf;
      var k := 0;
      while k < |fis|
        invariant 0 <= k <= |fis|
        invariant forall i :: 0 <= i < k ==> !fis[i].marked
        invariant forall i :: 0 <= i < |fis| ==>
                    && fis[i].fileType == old(fis[i].fileType) && fis[i].selection == old(fis[i].selection)
                    && fis[i].widget == old(fis[i].widget)
      {
        fis[k].marked := false;
        k := k + 1;
      }
    }

    /** Sweep out the items that are not marked, and their widgets. */
    method Flush()
      requires Valid()
      modifies this`fis, this`children
      ensures Valid() && Contents() == Marked(old(Contents())) && forall fi :: fi in fis ==> fi in old(fis)
    {
      hide Named, PackedAs, Marked, Values, WidgetsOf, Without;
      ghost var was, now := Contents(), Contents();
      var k := 0;
      SweptNothing(now);
      while k < |fis|
        invariant 0 <= k <= |fis| && Valid() && now == Contents()
        invariant forall fi :: fi in fis ==> fi in old(fis)
        invariant now[..k] + Marked(now[k..]) == Marked(was)
        decreases |fis| - k
      {
        SweepStep(now, k);
        if !fis[k].marked {
          WithoutIn(fis, k);
          Take(k);
          now := Without(now, k);
        } else {
          k := k + 1;
        }
      }
      SweptAll(now);
    }
  }

  /** The list with the item at `k` replaced, and moved if its type is another. */
  function Moved(items: seq<Item>, k: nat, item: Item, rank: int): seq<Item>
    requires k < |items|
  {
    if items[k].fileType != item.fileType then Insert(Without(items, k), rank, item) else items[k := item]
  }

  // ----- lists of items -----

  lemma InsertedAt<T>(s: seq<T>, at: int, x: T)
    ensures var r, p := Insert(s, at, x), Place(|s|, at);
            forall i :: 0 <= i < |r| ==> r[i] == if i < p then s[i] else if i == p then x else s[i - 1]
  {
  }

  lemma NamedInsert(fs: seq<FItem>, at: int, x: FItem)
    requires Named(fs) && forall i :: 0 <= i < |fs| ==> fs[i].name != x.name
    ensures Named(Insert(fs, at, x))
  {
    InsertedAt(fs, at, x);
  }

  lemma ListInsert(fs: seq<FItem>, at: int, x: FItem)
    ensures var r := Insert(fs, at, x);
            && r[Place(|fs|, at)] == x
            && Values(r) == Insert(Values(fs), at, x.Value()) && WidgetsOf(r) == Insert(WidgetsOf(fs), at, x.widget)
  {
    hide Values, WidgetsOf;
    InsertedAt(fs, at, x);
    assert Values(Insert(fs, at, x)) == Insert(Values(fs), at, x.Value()) by {
      InsertedAt(Values(fs), at, x.Value());
    }
    assert WidgetsOf(Insert(fs, at, x)) == Insert(WidgetsOf(fs), at, x.widget) by {
      InsertedAt(WidgetsOf(fs), at, x.widget);
    }
  }

  lemma ListWithout(fs: seq<FItem>, k: nat)
    requires Named(fs) && k < |fs|
    ensures var r := Without(fs, k);
            && Named(r) && fs[k] !in r
            && Values(r) == Without(Values(fs), k) && WidgetsOf(r) == Without(WidgetsOf(fs), k)
  {
  }

  lemma InsertedInstead<T>(s: seq<T>, at: int, x: T, y: T)
    ensures Insert(s, at, x)[Place(|s|, at)] == x && Insert(s, at, x)[Place(|s|, at) := y] == Insert(s, at, y)
  {
    InsertedAt(s, at, x);
    InsertedAt(s, at, y);
  }

  lemma OnePlace(fs: seq<FItem>, at: nat)
    requires Named(fs) && at < |fs|
    ensures forall i :: 0 <= i < |fs| && fs[i] == fs[at] ==> i == at
  {
  }

  lemma InsertedIn<T>(s: seq<T>, at: int, x: T)
    ensures forall y :: y in Insert(s, at, x) <==> y in s || y == x
  {
    InsertMembers(s, at, x);
    forall y ensures y in Insert(s, at, x) <==> y in s || y == x {
      assert y in multiset(Insert(s, at, x)) <==> y in multiset(s) + multiset{x};
    }
  }

  lemma MovedMembers<T>(s: seq<T>, k: nat, at: int)
    requires k < |s|
    ensures forall x :: x in Insert(Without(s, k), at, s[k]) <==> x in s
  {
    WithoutMembers(s, k);
    InsertMembers(Without(s, k), at, s[k]);
    assert multiset(Insert(Without(s, k), at, s[k])) == multiset(s);
    forall x ensures x in Insert(Without(s, k), at, s[k]) <==> x in s {
      assert x in multiset(s) <==> x in s;
    }
  }

  lemma HasWidget(widgets: seq<int>, children: seq<int>, next: nat, k: nat)
    requires PackedAs(widgets, children, next, -1) && k < |widgets|
    ensures widgets[k] != NO_WIDGET
  {
  }

  lemma NewChild(widgets: seq<int>, children: seq<int>, next: nat, at: nat)
    requires PackedAs(widgets, children, next, at)
    ensures at < |widgets| && PackedAs(widgets[at := next], Insert(children, at, next), next + 1, -1)
  {
    InsertedAt(children, at, next);
    InsertedAt(children, at, NO_WIDGET);
  }

  lemma TakeChild(children: seq<int>, next: nat, k: nat)
    requires Children(children, next) && k < |children|
    ensures Children(Without(children, k), next) && children[k] !in children[..k] && children[k] != NO_WIDGET
  {
  }

  lemma MovedInstead(items: seq<Item>, k: nat, item: Item, rank: int, at: nat)
    requires k < |items| && at == if items[k].fileType == item.fileType then k else Place(|items| - 1, rank)
    ensures |Moved(items, k, item, rank)| == |items| && at < |items| && Moved(items, k, item, rank)[at] == item
    ensures Moved(items, k, item, rank)[at := item.(marked := true)] == Moved(items, k, item.(marked := true), rank)
  {
    InsertedInstead(Without(items, k), rank, item, item.(marked := true));
  }

  lemma WithoutIn<T>(s: seq<T>, k: nat)
    requires k < |s|
    ensures forall x :: x in Without(s, k) ==> x in s
    ensures forall x :: x in s && x != s[k] ==> x in Without(s, k)
  {
    assert s == s[..k] + [s[k]] + s[k + 1..];
  }

  lemma SweptNothing(s: seq<Item>)
    ensures s[..0] + Marked(s[0..]) == Marked(s)
  {
    assert s[0..] == s && s[..0] == [];
  }

  lemma SweptAll(s: seq<Item>)
    ensures s[..|s|] + Marked(s[|s|..]) == s
  {
    assert s[|s|..] == [];
  }

  lemma SweepStep(s: seq<Item>, k: nat)
    requires k < |s|
    ensures s[k].marked ==> s[..k + 1] + Marked(s[k + 1..]) == s[..k] + Marked(s[k..])
    ensures !s[k].marked ==> var t := Without(s, k); t[..k] + Marked(t[k..]) == s[..k] + Marked(s[k..])
  {
    assert s[k..][1..] == s[k + 1..] && s[k..][0] == s[k];
    if s[k].marked {
      assert s[..k + 1] == s[..k] + [s[k]];
      assert s[..k] + ([s[k]] + Marked(s[k + 1..])) == (s[..k] + [s[k]]) + Marked(s[k + 1..]);
    } else {
      assert Without(s, k)[..k] == s[..k] && Without(s, k)[k..] == s[k + 1..];
    }
  }
}
