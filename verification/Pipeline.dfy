/** The whole way of a listing: printed by vgexpand, cut out of the sandbox shell's output,
    framed and sent, received, and read by the display. */
module Pipeline {
  import opened Bytes
  import opened Listings
  import opened GlobData
  import opened Split
  import opened Expansion
  import opened Vgexpand
  import opened DaemonSpec
  import Items
  import Display
  import ParamIo
  import Sandbox
  import Vgmini

  /** `vgexpand-data` in the parameter table. */
  const P_VGEXPAND_DATA: ParamIo.Param := 10

  /** However the shell's output is split into reads, and whatever came before it: when the
      listing fits a frame and holds no delimiter, the display ends up agreeing with it. */
  lemma ListingArrives(chunks: seq<string>, junk: string, ds: seq<Dir>, more: string, v: Vgmini.Vgmini, after: string)
    requires Sandbox.Flat(chunks) == junk + Output(ds) + more && NUL !in junk && STX !in junk
    requires v.Valid() && ds != [] && AllPlain(ds) && Display.DirsDistinct(ds) && forall d :: d in ds ==> Display.Named(d)
    requires ParamIo.Clean(Text(ds)) && ParamIo.Fits(P_VGEXPAND_DATA, Text(ds))
    ensures Sandbox.Expansion(chunks) == Some(Text(ds))
    ensures ParamIo.Next(ParamIo.Frame(P_VGEXPAND_DATA, Text(ds)) + after)
            == (ParamIo.Pair(P_VGEXPAND_DATA, Text(ds)), after)
    ensures Events(Done, Text(ds)).Some?
    ensures var kept := Display.Culled(Display.ApplyAll(Display.Reading(v.Values(), -1, -1, -1), Events(Done, Text(ds)).value).dcs);
            && kept != [] && Display.Agrees(Vgmini.Committed(kept, 0), ds) && Vgmini.Ranked(kept)
            && (Vgmini.NothingOfNothing(ds) ==> Vgmini.FairStart(kept))
  {
    hide *;
    TextFree(ds);
    FreeOfNul(Text(ds));
    Sandbox.OutputComesThrough(chunks, junk, ds, more);
    ParamIo.FrameNext(P_VGEXPAND_DATA, Text(ds), after);
    ParamIo.SurvivesIff(Text(ds));
    CStrId(Text(ds));
    Vgmini.PrintedIsShown(v, ds);
  }

  lemma FreeOfNul(s: string)
    requires Free(s)
    ensures NUL !in s
  {
  }

  // ----- from a command line to the display -----

  predicate SameNames(fs: seq<File>, entries: seq<(string, FileType)>) {
    |fs| == |entries| && forall j :: 0 <= j < |fs| ==> fs[j].name == entries[j].0
  }

  /** The directory is the one looked at, whatever has been marked in it. */
  predicate From(n: Node, l: Look, isPwd: bool) {
    && n.dev == l.dev && n.inode == l.inode && n.dir.name == l.name && n.dir.isPwd == isPwd
    && SameNames(n.dir.files, l.entries)
  }

  lemma {:induction false} MarkNames(d: Dir, lookup: string, i: nat)
    requires i <= |d.files|
    ensures var r := MarkFrom(d, lookup, i);
            && r.name == d.name && r.isPwd == d.isPwd && |r.files| == |d.files|
            && forall j :: 0 <= j < |d.files| ==> r.files[j].name == d.files[j].name
    decreases |d.files| - i
  {
    if i < |d.files| {
      var n := if Picks(d.files[i], lookup) then 1 else 0;
      MarkNames(d.(files := d.files[i := MarkFile(d.files[i], lookup)],
                   selectedCount := d.selectedCount + n, hiddenCount := d.hiddenCount - n), lookup, i + 1);
    }
  }

  lemma {:induction false} MaskNames(fnmatch: (string, string) -> bool, masks: seq<Mask>, d: Dir, i: nat)
    requires i <= |d.files|
    ensures var r := MaskFrom(fnmatch, masks, d, i);
            && r.name == d.name && r.isPwd == d.isPwd && |r.files| == |d.files|
            && forall j :: 0 <= j < |d.files| ==> r.files[j].name == d.files[j].name
    decreases |d.files| - i
  {
    hide MaskTakes;
    if i < |d.files| {
      var f := d.files[i];
      var n := if f.selected != FsYes && MaskTakes(fnmatch, masks, f) then 1 else 0;
      MaskNames(fnmatch, masks, d.(files := d.files[i := MaskFile(fnmatch, masks, f)], hiddenCount := d.hiddenCount - n), i + 1);
    }
  }

  lemma LookedIn(n: Node, l: Look, isPwd: bool, file: Option<string>)
    requires From(n, l, isPwd)
    ensures From(LookIn(n, file), l, isPwd)
  {
    if file.Some? {
      MarkNames(n.dir, file.value, 0);
    }
  }

  lemma NewFrom(l: Look, isPwd: bool)
    ensures From(NewNode(l, isPwd), l, isPwd)
  {
  }

  ghost predicate FromSome(n: Node, looks: seq<Look>) {
    exists l :: l in looks && From(n, l, false)
  }

  ghost predicate Sourced(nodes: seq<Node>, pwd: Look, looks: seq<Look>) {
    nodes != [] && From(nodes[0], pwd, true) && forall i :: 1 <= i < |nodes| ==> FromSome(nodes[i], looks)
  }

  lemma SomeMore(n: Node, looks: seq<Look>, l: Look)
    ensures FromSome(n, looks) ==> FromSome(n, looks + [l])
    ensures From(n, l, false) ==> FromSome(n, looks + [l])
  {
    hide From;
    assert l in looks + [l] && forall x :: x in looks ==> x in looks + [l];
  }

  lemma LookedInSome(n: Node, looks: seq<Look>, file: Option<string>)
    requires FromSome(n, looks)
    ensures FromSome(LookIn(n, file), looks)
  {
    hide From, LookIn;
    var l :| l in looks && From(n, l, false);
    LookedIn(n, l, false, file);
  }

  lemma {:induction false} CompiledSourced(pwd: Look, looks: seq<Look>)
    ensures Sourced(Compiled(pwd, looks), pwd, looks)
  {
    hide From, LookIn, NewNode, Locate, FromSome;
    if looks == [] {
      NewFrom(pwd, true);
    } else {
      var before, l := looks[..|looks| - 1], looks[|looks| - 1];
      var nodes := Compiled(pwd, before);
      CompiledSourced(pwd, before);
      assert looks == before + [l];
      var k := Locate(nodes, l.dev, l.inode);
      NewFrom(l, false);
      LookedIn(NewNode(l, false), l, false, l.file);
      SomeMore(LookIn(NewNode(l, false), l.file), before, l);
      forall i | 1 <= i < |nodes| ensures FromSome(nodes[i], looks) && FromSome(LookIn(nodes[i], l.file), looks) {
        SomeMore(nodes[i], before, l);
        LookedInSome(nodes[i], looks, l.file);
      }
      LookedIn(nodes[0], pwd, true, l.file);
    }
  }

  predicate PlainLook(l: Look) {
    && PlainName(l.name) && (forall j :: 0 <= j < |l.entries| ==> PlainName(l.entries[j].0))
    && forall i, j :: 0 <= i < j < |l.entries| ==> l.entries[i].0 != l.entries[j].0
  }

  /** Names the listing's format can carry, and that tell directories apart. */
  ghost predicate Tellable(pwd: Look, looks: seq<Look>) {
    && (forall l :: l in [pwd] + looks ==> PlainLook(l))
    && (forall l :: l in looks ==> GlobData.First(l.name) != PWD_CHAR)
    && forall x, y :: x in [pwd] + looks && y in [pwd] + looks && x.name == y.name ==> At(x, y.dev, y.inode)
  }

  /** What a directory needs to be printed and read back. */
  predicate Printable(d: Dir) {
    Listings.Plain(d) && Display.Named(d)
  }

  lemma {:induction false} ShownDistinct(fs: seq<File>)
    requires Items.FilesDistinct(fs)
    ensures Items.FilesDistinct(Items.ShownFiles(fs))
  {
    if fs != [] {
      assert forall i, j :: 0 <= i < j < |fs[1..]| ==> fs[1..][i] == fs[i + 1] && fs[1..][j] == fs[j + 1];
      ShownDistinct(fs[1..]);
    }
  }

  lemma FromPrintable(n: Node, l: Look, isPwd: bool)
    requires From(n, l, isPwd) && PlainLook(l) && (!isPwd ==> GlobData.First(l.name) != PWD_CHAR)
    ensures Printable(n.dir)
  {
    ShownDistinct(n.dir.files);
  }

  lemma MaskedFrom(fnmatch: (string, string) -> bool, masks: seq<Mask>, n: Node, l: Look, isPwd: bool)
    requires From(n, l, isPwd)
    ensures From(n.(dir := MaskFrom(fnmatch, masks, n.dir, 0)), l, isPwd)
  {
    MaskNames(fnmatch, masks, n.dir, 0);
  }

  /** Every directory reported comes from one looked at. */
  lemma NodeSource(nodes: seq<Node>, pwd: Look, looks: seq<Look>, i: nat) returns (l: Look)
    requires Sourced(nodes, pwd, looks) && i < |nodes|
    ensures l in [pwd] + looks && From(nodes[i], l, i == 0) && (i > 0 ==> l in looks)
  {
    hide From;
    if i == 0 {
      l := pwd;
    } else {
      assert FromSome(nodes[i], looks);
      l :| l in looks && From(nodes[i], l, false);
    }
  }

  predicate NamesApart(nodes: seq<Node>) {
    forall i, j :: 0 <= i < j < |nodes| ==> nodes[i].dir.name != nodes[j].dir.name
  }

  lemma SourcesApart(nodes: seq<Node>, pwd: Look, looks: seq<Look>)
    requires Sourced(nodes, pwd, looks) && Mentioned(nodes, pwd, looks) && Tellable(pwd, looks)
    ensures NamesApart(nodes)
  {
    hide Sourced, PlainLook, Locate;
    forall i, j | 0 <= i < j < |nodes| ensures nodes[i].dir.name != nodes[j].dir.name {
      var x := NodeSource(nodes, pwd, looks, i);
      var y := NodeSource(nodes, pwd, looks, j);
    }
  }

  lemma OrderedApart(nodes: seq<Node>, order: SortOrder)
    requires NamesApart(nodes)
    ensures NamesApart(Ordered(nodes, order))
  {
    if order == AscendingPwdFirst && nodes != [] {
      assert forall i :: 0 <= i < |nodes| - 1 ==> nodes[1..][i] == nodes[i + 1];
    }
  }

  /** The listing of a command line can be printed and read back. */
  lemma ListingPrintable(pwd: Look, looks: seq<Look>, fnmatch: (string, string) -> bool, masks: seq<Mask>, order: SortOrder)
    requires Tellable(pwd, looks)
    ensures var ds := Listing(pwd, looks, fnmatch, masks, order);
            ds != [] && AllPlain(ds) && Display.DirsDistinct(ds) && forall d :: d in ds ==> Display.Named(d)
  {
    hide Compiled, Sourced, From, Listings.Plain, Display.Named, PlainLook, MaskFrom, Ordered, Mentioned, Found;
    var nodes := Compiled(pwd, looks);
    var masked := MaskDirs(fnmatch, masks, nodes);
    CompiledSourced(pwd, looks);
    CompiledFound(pwd, looks);
    SourcesApart(nodes, pwd, looks);
    forall i | 0 <= i < |nodes| ensures Printable(masked[i].dir) && masked[i].dir.name == nodes[i].dir.name {
      MaskedPrintable(pwd, looks, fnmatch, masks, nodes, i);
      MaskNames(fnmatch, masks, nodes[i].dir, 0);
    }
    OrderedApart(masked, order);
    SourcedSome(nodes, pwd, looks);
    OrderedPrintable(masked, order);
  }

  lemma SourcedSome(nodes: seq<Node>, pwd: Look, looks: seq<Look>)
    requires Sourced(nodes, pwd, looks)
    ensures nodes != []
  {
  }

  lemma MaskedPrintable(pwd: Look, looks: seq<Look>, fnmatch: (string, string) -> bool, masks: seq<Mask>, nodes: seq<Node>, i: nat)
    requires Tellable(pwd, looks) && Sourced(nodes, pwd, looks) && i < |nodes|
    ensures Printable(MaskFrom(fnmatch, masks, nodes[i].dir, 0))
  {
    hide Sourced, From, PlainLook, MaskFrom, Printable;
    var l := NodeSource(nodes, pwd, looks, i);
    MaskedFrom(fnmatch, masks, nodes[i], l, i == 0);
    FromPrintable(nodes[i].(dir := MaskFrom(fnmatch, masks, nodes[i].dir, 0)), l, i == 0);
  }

  lemma OrderedPrintable(nodes: seq<Node>, order: SortOrder)
    requires nodes != [] && forall i :: 0 <= i < |nodes| ==> Printable(nodes[i].dir)
    ensures Ordered(nodes, order) != [] && forall d :: d in Dirs(Ordered(nodes, order)) ==> Printable(d)
  {
    hide Printable, Ordered;
    var r := Ordered(nodes, order);
    EachOnce(nodes, order);
    assert |multiset(r)| == |multiset(nodes)|;
    forall d | d in Dirs(r) ensures Printable(d) {
      var i :| 0 <= i < |r| && r[i].dir == d;
      assert r[i] in multiset(r);
      var j :| 0 <= j < |nodes| && nodes[j] == r[i];
    }
  }

  /** What vgexpand lists. */
  function Listing(pwd: Look, looks: seq<Look>, fnmatch: (string, string) -> bool, masks: seq<Mask>, order: SortOrder): seq<Dir> {
    Dirs(Ordered(MaskDirs(fnmatch, masks, Compiled(pwd, looks)), order))
  }

  /** A directory's count of files is the number of its files, so nothing is shown of one
      that has none. */
  lemma ListingFair(pwd: Look, looks: seq<Look>, fnmatch: (string, string) -> bool, masks: seq<Mask>, order: SortOrder)
    ensures Vgmini.NothingOfNothing(Listing(pwd, looks, fnmatch, masks, order))
  {
    hide Ordered, MaskFrom, Compiled;
    var nodes := MaskDirs(fnmatch, masks, Compiled(pwd, looks));
    var r := Ordered(nodes, order);
    EachOnce(nodes, order);
    forall i | 0 <= i < |r| && Dirs(r)[i].fileCount == 0 ensures Items.ShownFiles(Dirs(r)[i].files) == [] {
      assert r[i] in multiset(r);
      NodeCounted(fnmatch, masks, pwd, looks, r[i]);
    }
  }

  /** What the daemon is sent for the current client goes on to a running display as it is. */
  lemma Forwarded(s: Daemon, c: Client, data: string)
    requires DaemonSpec.HasFd(s.clients, c.fd) && s.running && s.current == Some(c.fd)
    ensures DaemonSpec.Heard(s, c, CExpanded(data)).sent == s.sent + [MExpanded(data)]
  {
  }

  /** From the words of a command line to what is on the screen: what vgexpand prints for
      them is cut out of the sandbox shell's output, framed for the daemon, passed on by it
      in a frame of its own, and read by the display, which ends up showing exactly the
      directories and files listed; and its search for the directory to be active has a
      fair start, so that `ProcessGlobData` ends on one of the highest score. */
  lemma CommandShown(pwd: Look, looks: seq<Look>, fnmatch: (string, string) -> bool, masks: seq<Mask>, order: SortOrder,
                     chunks: seq<string>, junk: string, more: string, after: string,
                     s: Daemon, c: Client, after': string, v: Vgmini.Vgmini)
    requires Tellable(pwd, looks) && NUL !in junk && STX !in junk && v.Valid()
    requires Sandbox.Flat(chunks) == junk + Output(Listing(pwd, looks, fnmatch, masks, order)) + more
    requires var text := Text(Listing(pwd, looks, fnmatch, masks, order)); ParamIo.Clean(text) && ParamIo.Fits(P_VGEXPAND_DATA, text)
    requires DaemonSpec.HasFd(s.clients, c.fd) && s.running && s.current == Some(c.fd)
    ensures var ds := Listing(pwd, looks, fnmatch, masks, order); var text := Text(ds);
            && Sandbox.Expansion(chunks) == Some(text)
            && ParamIo.Next(ParamIo.Frame(P_VGEXPAND_DATA, text) + after) == (ParamIo.Pair(P_VGEXPAND_DATA, text), after)
            && DaemonSpec.Heard(s, c, CExpanded(text)).sent == s.sent + [MExpanded(text)]
            && ParamIo.Next(ParamIo.Frame(P_VGEXPAND_DATA, text) + after') == (ParamIo.Pair(P_VGEXPAND_DATA, text), after')
            && Events(Done, text).Some?
            && var kept := Display.Culled(Display.ApplyAll(Display.Reading(v.Values(), -1, -1, -1), Events(Done, text).value).dcs);
               && kept != [] && Display.Agrees(Vgmini.Committed(kept, 0), ds)
               && Vgmini.Ranked(kept) && Vgmini.FairStart(kept)
  {
    hide *;
    ListingFair(pwd, looks, fnmatch, masks, order);
    var ds := Listing(pwd, looks, fnmatch, masks, order);
    ListingPrintable(pwd, looks, fnmatch, masks, order);
    ListingArrives(chunks, junk, ds, more, v, after);
    ListingArrives(chunks, junk, ds, more, v, after');
    Forwarded(s, c, Text(ds));
  }
}
