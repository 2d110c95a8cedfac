/** The daemon: client records shared between the list and the current pointer, and the
    pipe to the display.  Each handler is the step `DaemonSpec` describes. */
module DaemonImpl {
  import opened Bytes
  import opened DaemonSpec

  class VgseerClient {
    const fd: nat
    const win: nat
    var status: Status
    var cli: string
    var pwd: string
    var developingMask: string
    var mask: string
    var expanded: string

    function Value(): Client
      reads this
    {
      Client(fd, win, status, cli, pwd, developingMask, mask, expanded)
    }

    constructor (fd: nat, win: nat)
      ensures Value() == NewClient(fd, win)
    {
      this.fd, this.win := fd, win;
      status, cli, pwd, developingMask, mask, expanded := Lost, "", "", "", "", "";
    }
  }

  ghost function Values(cs: seq<VgseerClient>): (r: seq<Client>)
    reads cs
    ensures |r| == |cs| && forall i :: 0 <= i < |cs| ==> r[i] == cs[i].Value()
  {
    if cs == [] then [] else [cs[0].Value()] + Values(cs[1..])
  }

  lemma CutTail<T>(cs: seq<T>, i: nat)
    requires 0 < i < |cs|
    ensures cs[..i] + cs[i + 1..] == [cs[0]] + (cs[1..][..i - 1] + cs[1..][i..])
    ensures ([cs[0]] + (cs[1..][..i - 1] + cs[1..][i..]))[1..] == cs[1..][..i - 1] + cs[1..][i..]
  {
  }

  lemma {:induction false} ValuesWithout(cs: seq<VgseerClient>, i: nat)
    requires i < |cs| && Distinct(Values(cs))
    ensures Values(cs[..i] + cs[i + 1..]) == Without(Values(cs), cs[i].fd)
    decreases |cs|
  {
    var vs := Values(cs);
    if i == 0 {
      assert cs[..0] + cs[1..] == cs[1..];
    } else {
      assert vs[0].fd != vs[i].fd;
      assert vs[1..] == Values(cs[1..]);
      ValuesWithout(cs[1..], i - 1);
      CutTail(cs, i);
    }
  }

  lemma SixSent(ms: seq<Msg>, c: Client)
    ensures ms + [MStatus(c.status)] + [MCmd(c.cli)] + [MDevelopingMask(c.developingMask)] + [MMask(c.mask)]
            + [MWin(c.win)] + [MExpanded(c.expanded)] == ms + Picture(c)
  {
  }

  class Vgd {
    var clients: seq<VgseerClient>
    var current: VgseerClient?
    var active: bool
    var running: bool
    var sent: seq<Msg>
    ghost var switched: bool
    const persistent: bool
    var exited: bool

    ghost function Value(): Daemon
      reads this, clients
    {
      Daemon(Values(clients), if current == null then None else Some(current.fd),
             active, running, sent, switched, persistent, exited)
    }

    ghost predicate Valid()
      reads this, clients
    {
      && Inv(Value())
      && (current != null ==> current in clients)
    }

    lemma Facts()
      requires Valid()
      ensures Distinct(Values(clients)) && (current != null <==> clients != []) && (running ==> clients != [])
      ensures Consistent(Value()) && (!running ==> sent == [] && !switched)
    {
    }

    /** In a list of distinct descriptors, equal descriptors mean the same record. */
    lemma Same(v: VgseerClient, w: VgseerClient)
      requires Distinct(Values(clients)) && v in clients && w in clients
      ensures v == w <==> v.fd == w.fd
    {
      var i :| 0 <= i < |clients| && clients[i] == v;
      var j :| 0 <= j < |clients| && clients[j] == w;
      assert Values(clients)[i].fd == v.fd && Values(clients)[j].fd == w.fd;
    }

    lemma Known(v: VgseerClient)
      requires Distinct(Values(clients)) && v in clients
      ensures HasFd(Values(clients), v.fd) && Lookup(Values(clients), v.fd) == v.Value()
    {
      var i :| 0 <= i < |clients| && clients[i] == v;
      assert Values(clients)[i] == v.Value();
      LookupUnique(Values(clients), v.Value());
    }

    constructor (persistent: bool)
      ensures Valid() && Value() == Init(persistent)
    {
      clients, current, active, running, sent, switched := [], null, false, false, [], false;
      this.persistent, exited := persistent, false;
    }

    method PutParam(m: Msg)
      requires running
      modifies this`sent
      ensures sent == old(sent) + [m]
    {
      sent := sent + [m];
    }

    method SendPicture(v: VgseerClient)
      requires running
      modifies this`sent
      ensures sent == old(sent) + Picture(v.Value())
    {
      PutParam(MStatus(v.status));
      PutParam(MCmd(v.cli));
      PutParam(MDevelopingMask(v.developingMask));
      PutParam(MMask(v.mask));
      PutParam(MWin(v.win));
      PutParam(MExpanded(v.expanded));
      SixSent(old(sent), v.Value());
    }

    method ContextSwitch(v: VgseerClient)
      modifies this`sent, this`switched
      ensures Value() == Switched(old(Value()), v.Value())
    {
      hide Values, Picture;
      if !running {
        return;
      }
      SendPicture(v);
      switched := true;
    }

    method UpdateDisplay(v: VgseerClient, m: Msg)
      requires Distinct(Values(clients)) && v in clients && (current != null ==> current in clients)
      modifies this`sent
      ensures Value() == Updated(old(Value()), v.fd, [m])
    {
      if current != null {
        Same(current, v);
      }
      if current == v && running {
        PutParam(m);
      }
    }

    method TerminateDisplay()
      modifies this`running, this`sent, this`switched
      ensures Value() == Killed(old(Value()))
    {
      running, sent, switched := false, [], false;
    }

    method ForkDisplay()
      modifies this`running, this`sent, this`switched
      ensures Value() == Forked(old(Value()))
    {
      running, sent, switched := true, [], false;
    }

    method RemoveClient(v: VgseerClient)
      requires Distinct(Values(clients)) && v in clients
      modifies this`clients
      ensures Values(clients) == Without(old(Values(clients)), v.fd)
      ensures forall c :: c in clients <==> c in old(clients) && c != v
    {
      var i := 0;
      while clients[i] != v
        invariant 0 <= i < |clients| && v !in clients[..i]
        decreases |clients| - i
      {
        i := i + 1;
      }
      ValuesWithout(clients, i);
      forall j | 0 <= j < |clients| && j != i ensures clients[j] != v {
        assert Values(clients)[j].fd != Values(clients)[i].fd;
      }
      clients := clients[..i] + clients[i + 1..];
    }

    method RemoveAndKill(v: VgseerClient)
      requires Distinct(Values(clients)) && v in clients && (!running ==> sent == [] && !switched)
      modifies this`clients, this`running, this`sent, this`switched
      ensures Value() == Removed(old(Value()), v.fd)
      ensures forall c :: c in clients <==> c in old(clients) && c != v
    {
      hide Without, Distinct, Values;
      RemoveClient(v);
      if running && clients == [] {
        TerminateDisplay();
      }
    }

    method Repoint(v: VgseerClient)
      modifies this`current, this`sent, this`switched
      requires current != null ==> (current == v <==> current.fd == v.fd)
      ensures Value() == Repointed(old(Value()), v.fd)
      ensures old(current) != v ==> current == old(current)
      ensures old(current) == v ==> if clients == [] then current == null else current == clients[0]
    {
      hide Picture;
      if current == v {
        if clients != [] {
          current := clients[0];
          assert Values(clients)[0] == clients[0].Value();
          ContextSwitch(current);
        } else {
          current := null;
        }
      }
    }

    /** Take the client out, kill the display with the last one, and move on to the first
        of the others when it was current. */
    method DropClient(v: VgseerClient)
      requires Valid() && v in clients
      modifies this
      ensures Valid() && Value() == Dropped(old(Value()), v.fd)
    {
      hide Inv, Removed, Repointed, Values, Distinct, Lookup, HasFd, Without, Consistent;
      ghost var was := Value();
      Facts();
      Same(current, v);
      Known(v);
      DroppedKeeps(was, v.fd);
      RemoveAndKill(v);
      Repoint(v);
      if !persistent && clients == [] {
        exited := true;
      }
    }

    method NewVgseerClient(fd: nat, win: nat)
      requires Valid() && !HasFd(Value().clients, fd)
      modifies this
      ensures Valid() && Value() == Connected(old(Value()), fd, win)
    {
      hide Inv, Distinct, HasFd, Lookup, Values;
      Facts();
      ghost var was := Value();
      var v := new VgseerClient(fd, win);
      JoinedConsistent(was, v.Value());
      ConnectedKeeps(was, fd, win);
      AddFirst(v);
      if !running {
        StartDisplay(v);
      }
    }

    /** Fork the display, and send the window in case this client is the current one. */
    method StartDisplay(v: VgseerClient)
      requires Distinct(Values(clients)) && v in clients && (current != null ==> current in clients)
      modifies this`running, this`sent, this`switched
      ensures Value() == Updated(Forked(old(Value())).(switched := |clients| == 1), v.fd, [MWin(v.win)])
    {
      hide Distinct, Values;
      ForkDisplay();
      switched := |clients| == 1;
      UpdateDisplay(v, MWin(v.win));
    }

    method AddFirst(v: VgseerClient)
      modifies this`clients, this`current
      ensures clients == [v] + old(clients) && Values(clients) == [v.Value()] + old(Values(clients))
      ensures current == if old(clients) == [] then v else old(current)
    {
      if clients == [] {
        current := v;
      }
      clients := [v] + clients;
      assert clients[1..] == old(clients);
    }

    /** Only `v` changed, so the list holds its new value in its place. */
    twostate lemma OnlyChanged(v: VgseerClient)
      requires old(Distinct(Values(clients))) && v in clients && clients == old(clients)
      requires forall c :: c in clients && c != v ==> unchanged(c)
      ensures Values(clients) == Replaced(old(Values(clients)), v.Value()) && Distinct(Values(clients))
    {
      hide Replaced;
      var was := old(Values(clients));
      ReplacedKeeps(was, v.Value());
      var k :| 0 <= k < |clients| && clients[k] == v;
      assert was[k].fd == v.fd;
      forall i | 0 <= i < |clients|
        ensures Values(clients)[i] == Replaced(was, v.Value())[i]
      {
        if i != k {
          assert was[i].fd != was[k].fd;
          assert clients[i] != v && clients[i] in clients;
          assert unchanged(clients[i]);
        }
      }
    }

    method SetStatus(v: VgseerClient, x: Status)
      requires Distinct(Values(clients)) && v in clients && (current != null ==> current in clients)
      modifies this`sent, v
      ensures v.Value() == old(v.Value()).(status := x)
      ensures Value() == Stored(old(Value()), v.Value(), [MStatus(x)])
    {
      hide Replaced, Values, Distinct;
      v.status := x;
      OnlyChanged(v);
      assert Value() == old(Value()).(clients := Replaced(old(Value()).clients, v.Value()));
      UpdateDisplay(v, MStatus(x));
    }

    method SetCmd(v: VgseerClient, x: string)
      requires Distinct(Values(clients)) && v in clients && (current != null ==> current in clients)
      modifies this`sent, v
      ensures v.Value() == old(v.Value()).(cli := x)
      ensures Value() == Stored(old(Value()), v.Value(), [MCmd(x)])
    {
      hide Replaced, Values, Distinct;
      v.cli := x;
      OnlyChanged(v);
      assert Value() == old(Value()).(clients := Replaced(old(Value()).clients, v.Value()));
      UpdateDisplay(v, MCmd(x));
    }

    method SetDevelopingMask(v: VgseerClient, x: string)
      requires Distinct(Values(clients)) && v in clients && (current != null ==> current in clients)
      modifies this`sent, v
      ensures v.Value() == old(v.Value()).(developingMask := x)
      ensures Value() == Stored(old(Value()), v.Value(), [MDevelopingMask(x)])
    {
      hide Replaced, Values, Distinct;
      v.developingMask := x;
      OnlyChanged(v);
      assert Value() == old(Value()).(clients := Replaced(old(Value()).clients, v.Value()));
      UpdateDisplay(v, MDevelopingMask(x));
    }

    method SetExpanded(v: VgseerClient, x: string)
      requires Distinct(Values(clients)) && v in clients && (current != null ==> current in clients)
      modifies this`sent, v
      ensures v.Value() == old(v.Value()).(expanded := x)
      ensures Value() == Stored(old(Value()), v.Value(), [MExpanded(x)])
    {
      hide Replaced, Values, Distinct;
      v.expanded := x;
      OnlyChanged(v);
      assert Value() == old(Value()).(clients := Replaced(old(Value()).clients, v.Value()));
      UpdateDisplay(v, MExpanded(x));
    }

    method SetPwd(v: VgseerClient, x: string)
      requires Distinct(Values(clients)) && v in clients && (current != null ==> current in clients)
      modifies this`sent, v
      ensures v.Value() == old(v.Value()).(pwd := x)
      ensures Value() == Stored(old(Value()), v.Value(), [])
    {
      hide Replaced, Values, Distinct;
      v.pwd := x;
      OnlyChanged(v);
      assert Value() == old(Value()).(clients := Replaced(old(Value()).clients, v.Value()));
      NothingSaid(sent);
    }

    method SetMask(v: VgseerClient, x: string)
      requires Distinct(Values(clients)) && v in clients && (current != null ==> current in clients)
      modifies this`sent, v
      ensures v.Value() == old(v.Value()).(developingMask := "", mask := x)
      ensures Value() == Stored(old(Value()), v.Value(), [MDevelopingMask(""), MMask(x)])
    {
      hide Replaced, Values, Distinct;
      v.developingMask := "";
      v.mask := x;
      OnlyChanged(v);
      assert Value() == old(Value()).(clients := Replaced(old(Value()).clients, v.Value()));
      ShowMasks(v, x);
    }

    method ShowMasks(v: VgseerClient, x: string)
      requires Distinct(Values(clients)) && v in clients && (current != null ==> current in clients)
      modifies this`sent
      ensures Value() == Updated(old(Value()), v.fd, [MDevelopingMask(""), MMask(x)])
    {
      hide Values, Distinct;
      UpdateDisplay(v, MDevelopingMask(""));
      UpdateDisplay(v, MMask(x));
      assert old(sent) + [MDevelopingMask("")] + [MMask(x)] == old(sent) + [MDevelopingMask(""), MMask(x)];
    }

    /** The parameters that store a value and show it. */
    method StoreAndShow(v: VgseerClient, msg: ClientMsg)
      requires Valid() && v in clients
      requires msg.CPwd? || msg.CCmd? || msg.CMask? || msg.CDevelopingMask? || msg.CExpanded? || (msg.CStatus? && msg.status.Some?)
      modifies this`sent, v
      ensures Valid() && Value() == Heard(old(Value()), old(v.Value()), msg)
    {
      hide Inv, Stored, Values, Distinct, Consistent, Lookup, HasFd;
      Facts();
      Known(v);
      HeardKeeps(Value(), v.Value(), msg);
      match msg
      case CStatus(Some(st)) =>
        if st != v.status {
          SetStatus(v, st);
        }
      case CPwd(pwd) => SetPwd(v, pwd);
      case CCmd(cmd) => SetCmd(v, cmd);
      case CMask(mask) => SetMask(v, mask);
      case CDevelopingMask(mask) => SetDevelopingMask(v, mask);
      case CExpanded(data) => SetExpanded(v, data);
    }

    method ObeyOrder(v: VgseerClient, order: string)
      requires Valid() && v in clients
      modifies this
      ensures Valid() && Value() == Heard(old(Value()), v.Value(), COrder(order))
    {
      hide ViewOf, Mirrors, Picture, Lookup, Without, Replaced, FirstWin, Values, Inv, Consistent, Distinct, HasFd;
      Facts();
      Known(v);
      HeardKeeps(Value(), v.Value(), COrder(order));
      Same(current, v);
      if order == "refocus" {
        if current != v {
          current := v;
          ContextSwitch(v);
        } else {
          UpdateDisplay(v, MOrder(order));
        }
      } else if order == "toggle" {
        if running {
          TerminateDisplay();
        } else {
          Known(current);
          ForkDisplay();
          ContextSwitch(current);
        }
      } else {
        UpdateDisplay(v, MOrder(order));
      }
    }

    /** A client the daemon drops is not looked at again. */
    method ProcessClient(v: VgseerClient, msg: ClientMsg)
      requires Valid() && v in clients
      modifies this, v
      ensures Valid() && Value() == Heard(old(Value()), old(v.Value()), msg)
    {
      hide ViewOf, Mirrors, Picture, Lookup, Without, Replaced, FirstWin, Values, Inv, Consistent, Distinct, HasFd;
      Facts();
      Known(v);
      if msg.CEof? || msg.CBroken? || msg == CStatus(None) {
        DropClient(v);
      } else if msg.COrder? {
        ObeyOrder(v, msg.order);
      } else {
        StoreAndShow(v, msg);
      }
    }

    method ProcessDisplay(reply: DisplayMsg)
      requires Valid() && running
      modifies this
      ensures Valid() && Value() == Replied(old(Value()), reply)
    {
      hide Inv, Values, Dropped;
      Facts();
      RepliedKeeps(Value(), reply);
      if reply == DUnreadable {
        TerminateDisplay();
        ForkDisplay();
      } else if reply == DEof {
        TerminateDisplay();
      } else if reply == DPass(false) {
        DropClient(current);
      }
    }

    method FindWin(win: nat) returns (v: VgseerClient?)
      ensures v == null ==> FirstWin(Values(clients), win) == None
      ensures v != null ==> v in clients && FirstWin(Values(clients), win) == Some(v.Value())
    {
      var i := 0;
      while i < |clients|
        invariant 0 <= i <= |clients|
        invariant FirstWin(Values(clients), win) == FirstWin(Values(clients)[i..], win)
      {
        assert Values(clients)[i..][1..] == Values(clients)[i + 1..];
        if clients[i].win == win {
          return clients[i];
        }
        i := i + 1;
      }
      return null;
    }

    /** The window belongs to no client, or to one that becomes current. */
    method FocusOn(win: nat)
      requires Valid() && clients != [] && win != current.win
      modifies this`active, this`current, this`sent, this`switched
      ensures current in clients && Value() == Focused(old(Value()), win)
    {
      hide Inv, Values, Distinct, Consistent, HasFd, Lookup, FirstWin, Switched, Updated;
      Facts();
      Known(current);
      active := false;
      var v := FindWin(win);
      if v != null {
        current := v;
        active := true;
        ContextSwitch(v);
      }
    }

    method CheckActiveWindow(win: nat)
      requires Valid() && clients != []
      modifies this
      ensures Valid() && Value() == Focused(old(Value()), win)
    {
      hide Inv, Values, Distinct, Consistent, HasFd, Lookup, FirstWin, Switched, Updated;
      Facts();
      FocusedKeeps(Value(), win);
      Known(current);
      if win == current.win {
        if !active {
          active := true;
          UpdateDisplay(current, MWin(win));
        }
      } else {
        FocusOn(win);
      }
    }
  }
}
