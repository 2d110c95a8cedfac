/** What each event does to the daemon, read off the state before and after: who becomes
    current, what is stored, and what the display comes to know. */
module DaemonLaws {
  import opened Bytes
  import opened DaemonSpec

  function Current(s: Daemon): Client
    requires s.current.Some? && HasFd(s.clients, s.current.value)
  {
    Lookup(s.clients, s.current.value)
  }

  /** The display is up, has been switched, and shows the current client. */
  ghost predicate ShowsCurrent(s: Daemon) {
    s.running && s.switched && s.current.Some? && HasFd(s.clients, s.current.value) && Mirrors(ViewOf(s.sent), Current(s))
  }

  /** Only who is current, what is known to be active and what was sent may differ. */
  predicate SameClients(s: Daemon, t: Daemon) {
    t.clients == s.clients && t.running == s.running && t.persistent == s.persistent && t.exited == s.exited
  }

  lemma SwitchKeepsRest(s: Daemon, c: Client)
    ensures SameClients(s, Switched(s, c)) && Switched(s, c).current == s.current && Switched(s, c).active == s.active
  {
  }

  lemma SwitchShows(s: Daemon, c: Client)
    requires Consistent(s) && c in s.clients && s.current == Some(c.fd) && s.running
    ensures ShowsCurrent(Switched(s, c)) && Current(Switched(s, c)) == c
  {
    hide ViewOf, Mirrors, Agrees, Picture;
    SwitchedKeeps(s, c);
    LookupUnique(s.clients, c);
  }

  lemma {:induction false} FirstWinAt(cs: seq<Client>, k: nat)
    requires k < |cs| && forall i :: 0 <= i < k ==> cs[i].win != cs[k].win
    ensures FirstWin(cs, cs[k].win) == Some(cs[k])
    decreases |cs|
  {
    if k > 0 {
      FirstWinAt(cs[1..], k - 1);
    }
  }

  // ----- the active window -----

  /** The window is the current client's already: it stays current, and the display is told
      the window if it was not known to be active. */
  lemma FocusStays(s: Daemon, win: nat)
    requires Inv(s) && Enabled(s, ActiveWindow(win)) && Current(s).win == win
    ensures var t := Step(s, ActiveWindow(win));
            && SameClients(s, t) && t.current == s.current && t.active && t.switched == s.switched
            && t.sent == s.sent + if s.running && !s.active then [MWin(win)] else []
  {
    hide ViewOf, Mirrors, Agrees, Lookup;
    NothingSaid(s.sent);
  }

  /** The window is another client's: the first that has it becomes current, and a running
      display is switched to it. */
  lemma FocusMoves(s: Daemon, k: nat)
    requires Inv(s) && !s.exited && k < |s.clients| && Current(s).win != s.clients[k].win
    requires forall i :: 0 <= i < k ==> s.clients[i].win != s.clients[k].win
    ensures var t := Step(s, ActiveWindow(s.clients[k].win));
            && SameClients(s, t) && t.current == Some(s.clients[k].fd) && t.active
            && HasFd(t.clients, t.current.value) && Current(t) == s.clients[k]
            && (s.running ==> ShowsCurrent(t))
  {
    hide ViewOf, Mirrors, Agrees, Lookup, Picture;
    var c := s.clients[k];
    FirstWinAt(s.clients, k);
    LookupUnique(s.clients, c);
    if s.running { SwitchShows(s.(current := Some(c.fd), active := true), c); }
  }

  lemma FirstOf(cs: seq<Client>, win: nat, i: nat) returns (k: nat)
    requires i < |cs| && cs[i].win == win
    ensures k <= i && cs[k].win == win && forall j :: 0 <= j < k ==> cs[j].win != win
  {
    k := 0;
    while cs[k].win != win
      invariant k <= i && forall j :: 0 <= j < k ==> cs[j].win != win
      decreases i - k
    {
      k := k + 1;
    }
  }

  lemma NoneHasWin(cs: seq<Client>, win: nat)
    requires forall c :: c in cs ==> c.win != win
    ensures FirstWin(cs, win) == None
  {
    FirstWinFound(cs, win);
  }

  /** Focus follows the active window, in every state a run reaches: if some client has the
      window, a client with it is current afterwards, and a display switched to it shows
      it; if none has it, nothing changes but that the current client is not active. */
  lemma FocusFollows(persistent: bool, es: seq<Event>, s: Daemon, win: nat)
    requires Reaches(Init(persistent), es, s) && !s.exited && s.clients != []
    ensures Inv(s) && Enabled(s, ActiveWindow(win))
    ensures var t := Step(s, ActiveWindow(win));
            if exists c :: c in s.clients && c.win == win then
              && SameClients(s, t) && t.active
              && t.current.Some? && HasFd(t.clients, t.current.value) && Current(t).win == win
              && (t.running && (s.switched || t.current != s.current) ==> ShowsCurrent(t))
            else t == s.(active := false)
  {
    hide ViewOf, Mirrors, Agrees, Lookup, Picture, Step, Reaches;
    RunKeeps(Init(persistent), es, s);
    StepKeeps(s, ActiveWindow(win));
    if Current(s).win == win {
      FocusStays(s, win);
    } else if c :| c in s.clients && c.win == win {
      var i :| 0 <= i < |s.clients| && s.clients[i] == c;
      var k := FirstOf(s.clients, win, i);
      FocusMoves(s, k);
    } else {
      FocusLost(s, win);
    }
  }

  lemma FocusLost(s: Daemon, win: nat)
    requires Inv(s) && Enabled(s, ActiveWindow(win)) && forall c :: c in s.clients ==> c.win != win
    ensures Step(s, ActiveWindow(win)) == s.(active := false)
  {
    hide ViewOf, Mirrors, Agrees, Lookup, Picture;
    NoneHasWin(s.clients, win);
  }

  // ----- orders -----

  /** Refocusing makes the sender current, and switches a running display to it; sent by the
      current client, it goes to the display. */
  lemma RefocusTakes(s: Daemon, fd: nat)
    requires Inv(s) && Enabled(s, FromClient(fd, COrder("refocus")))
    ensures var t := Step(s, FromClient(fd, COrder("refocus")));
            && SameClients(s, t) && t.active == s.active && t.current == Some(fd)
            && (if s.current == Some(fd) then
                  t.switched == s.switched && t.sent == s.sent + if s.running then [MOrder("refocus")] else []
                else s.running ==> ShowsCurrent(t) && Current(t) == Lookup(s.clients, fd))
  {
    hide ViewOf, Mirrors, Agrees, Lookup, Picture;
    NothingSaid(s.sent);
    var c := Lookup(s.clients, fd);
    if s.current != Some(fd) && s.running { SwitchShows(s.(current := Some(fd)), c); }
  }

  /** Toggling ends a running display; one that is started is switched to the current
      client. */
  lemma ToggleFlips(s: Daemon, fd: nat)
    requires Inv(s) && Enabled(s, FromClient(fd, COrder("toggle")))
    ensures var t := Step(s, FromClient(fd, COrder("toggle")));
            && t.clients == s.clients && t.current == s.current && t.active == s.active && t.exited == s.exited
            && t.running == !s.running
            && (if t.running then ShowsCurrent(t) && |t.sent| == 6 else t.sent == [])
  {
    hide ViewOf, Mirrors, Agrees, Lookup;
    LookupUnique(s.clients, Lookup(s.clients, s.current.value));
    if !s.running { SwitchShows(Forked(s), Current(s)); }
  }

  /** Any other order goes to the display, if the sender is current, and changes nothing
      else. */
  lemma OrdersPassOn(s: Daemon, fd: nat, order: string)
    requires Inv(s) && Enabled(s, FromClient(fd, COrder(order))) && order != "refocus" && order != "toggle"
    ensures Step(s, FromClient(fd, COrder(order)))
            == s.(sent := s.sent + if s.running && s.current == Some(fd) then [MOrder(order)] else [])
  {
    hide ViewOf, Mirrors, Agrees, Lookup;
    NothingSaid(s.sent);
  }

  // ----- what a message stores -----

  /** The message gives a client a value. */
  predicate GivesValue(msg: ClientMsg) {
    match msg
    case CStatus(st) => st.Some?
    case CPwd(_) => true
    case CCmd(_) => true
    case CMask(_) => true
    case CDevelopingMask(_) => true
    case CExpanded(_) => true
    case COrder(_) => false
    case CEof => false
    case CBroken => false
  }

  /** The client with the value the message gives; a mask that is given ends the one being
      typed. */
  function With(c: Client, msg: ClientMsg): Client
    requires GivesValue(msg)
  {
    match msg
    case CStatus(st) => c.(status := st.value)
    case CPwd(pwd) => c.(pwd := pwd)
    case CCmd(cmd) => c.(cli := cmd)
    case CMask(mask) => c.(developingMask := "", mask := mask)
    case CDevelopingMask(mask) => c.(developingMask := mask)
    case CExpanded(data) => c.(expanded := data)
  }

  /** The display knows the value the message gave; it never hears of working directories. */
  predicate Knows(v: View, msg: ClientMsg)
    requires GivesValue(msg)
  {
    match msg
    case CStatus(st) => v.status == st
    case CPwd(_) => true
    case CCmd(cmd) => v.cmd == Some(cmd)
    case CMask(mask) => v.developingMask == Some("") && v.mask == Some(mask)
    case CDevelopingMask(mask) => v.developingMask == Some(mask)
    case CExpanded(data) => v.expanded == Some(data)
  }

  /** Every client but the sender is as it was, and the sender has the value. */
  predicate StoresOnly(cs: seq<Client>, ds: seq<Client>, fd: nat, msg: ClientMsg)
    requires GivesValue(msg)
  {
    |ds| == |cs| && forall i :: 0 <= i < |cs| ==> ds[i] == if cs[i].fd == fd then With(cs[i], msg) else cs[i]
  }

  lemma ReplacedStores(cs: seq<Client>, fd: nat, msg: ClientMsg)
    requires Distinct(cs) && HasFd(cs, fd) && GivesValue(msg)
    ensures StoresOnly(cs, Replaced(cs, With(Lookup(cs, fd), msg)), fd, msg)
  {
    hide Lookup, Replaced;
    var c := Lookup(cs, fd);
    ReplacedKeeps(cs, With(c, msg));
    forall i | 0 <= i < |cs| && cs[i].fd == fd ensures cs[i] == c {
      LookupUnique(cs, cs[i]);
    }
  }

  lemma SameStores(cs: seq<Client>, fd: nat, msg: ClientMsg)
    requires Distinct(cs) && HasFd(cs, fd) && msg == CStatus(Some(Lookup(cs, fd).status))
    ensures StoresOnly(cs, cs, fd, msg)
  {
    hide Lookup;
    forall i | 0 <= i < |cs| && cs[i].fd == fd ensures cs[i] == Lookup(cs, fd) {
      LookupUnique(cs, cs[i]);
    }
  }

  lemma ToldKnows(ms: seq<Msg>, msg: ClientMsg)
    requires GivesValue(msg)
    ensures msg.CStatus? ==> Knows(ViewOf(ms + [MStatus(msg.status.value)]), msg)
    ensures msg.CPwd? ==> Knows(ViewOf(ms), msg)
    ensures msg.CCmd? ==> Knows(ViewOf(ms + [MCmd(msg.cmd)]), msg)
    ensures msg.CMask? ==> Knows(ViewOf(ms + [MDevelopingMask(""), MMask(msg.mask)]), msg)
    ensures msg.CDevelopingMask? ==> Knows(ViewOf(ms + [MDevelopingMask(msg.mask)]), msg)
    ensures msg.CExpanded? ==> Knows(ViewOf(ms + [MExpanded(msg.data)]), msg)
  {
    hide ViewOf;
    if msg.CStatus? { ViewAppend(ms, MStatus(msg.status.value)); }
    if msg.CCmd? { ViewAppend(ms, MCmd(msg.cmd)); }
    if msg.CMask? { ViewTwo(ms, MDevelopingMask(""), MMask(msg.mask)); }
    if msg.CDevelopingMask? { ViewAppend(ms, MDevelopingMask(msg.mask)); }
    if msg.CExpanded? { ViewAppend(ms, MExpanded(msg.data)); }
  }

  /** A value is stored with its sender and nowhere else, and a running display hears it
      exactly when the sender is current; only a status that is stored already is not told
      again. */
  lemma ValueStored(s: Daemon, fd: nat, msg: ClientMsg)
    requires Inv(s) && Enabled(s, FromClient(fd, msg)) && GivesValue(msg)
    ensures var t := Step(s, FromClient(fd, msg));
            && StoresOnly(s.clients, t.clients, fd, msg)
            && t == s.(clients := t.clients, sent := t.sent) && s.sent <= t.sent
            && (s.current != Some(fd) || !s.running ==> t.sent == s.sent)
            && (s.current == Some(fd) && s.running ==>
                  Knows(ViewOf(t.sent), msg) || msg == CStatus(Some(Lookup(s.clients, fd).status)))
  {
    hide ViewOf, Mirrors, Agrees, Lookup, Replaced, StoresOnly, Knows;
    ReplacedStores(s.clients, fd, msg);
    ToldKnows(s.sent, msg);
    if msg == CStatus(Some(Lookup(s.clients, fd).status)) { SameStores(s.clients, fd, msg); }
    NothingSaid(s.sent);
  }

  // ----- clients that leave and join -----

  lemma {:induction false} WithoutAt(cs: seq<Client>, k: nat)
    requires Distinct(cs) && k < |cs|
    ensures Without(cs, cs[k].fd) == cs[..k] + cs[k + 1..]
    decreases |cs|
  {
    if k > 0 {
      WithoutAt(cs[1..], k - 1);
      assert cs[1..][..k - 1] == cs[1..k] && cs[1..][k..] == cs[k + 1..];
      assert [cs[0]] + cs[1..k] == cs[..k];
    }
  }

  /** The message ends the connection. */
  predicate Leaves(msg: ClientMsg) {
    msg == CEof || msg == CBroken || msg == CStatus(None)
  }

  /** A client that leaves is taken out of the list and no other is moved.  If it was
      current, the first of the rest is, and a running display shows that one; with the last
      client the display goes, and the daemon too unless it is to persist. */
  lemma ClientLeaves(s: Daemon, k: nat, msg: ClientMsg)
    requires Inv(s) && !s.exited && k < |s.clients| && Leaves(msg)
    ensures HasFd(s.clients, s.clients[k].fd)
    ensures var t := Step(s, FromClient(s.clients[k].fd, msg));
            && t.clients == s.clients[..k] + s.clients[k + 1..]
            && t.active == s.active && t.persistent == s.persistent
            && t.exited == (|s.clients| == 1 && !s.persistent)
            && t.running == (s.running && |s.clients| > 1)
            && (s.current != Some(s.clients[k].fd) ==> t.current == s.current && t.sent == s.sent && t.switched == s.switched)
            && (s.current == Some(s.clients[k].fd) && |s.clients| > 1 ==>
                  t.current == Some(t.clients[0].fd) && (s.running ==> ShowsCurrent(t) && Current(t) == t.clients[0]))
  {
    LeavingShows(s, k);
    hide Lookup, Without, ViewOf, Mirrors, Agrees, Picture;
    LookupUnique(s.clients, s.clients[k]);
  }

  lemma LeavingShows(s: Daemon, k: nat)
    requires Consistent(s) && !s.exited && k < |s.clients|
    ensures var t := Dropped(s, s.clients[k].fd);
            && t.clients == s.clients[..k] + s.clients[k + 1..]
            && t.active == s.active && t.persistent == s.persistent
            && t.exited == (|s.clients| == 1 && !s.persistent)
            && t.running == (s.running && |s.clients| > 1)
            && (s.current != Some(s.clients[k].fd) ==> t.current == s.current && t.sent == s.sent && t.switched == s.switched)
            && (s.current == Some(s.clients[k].fd) && |s.clients| > 1 ==>
                  t.current == Some(t.clients[0].fd) && (s.running ==> ShowsCurrent(t) && Current(t) == t.clients[0]))
  {
    hide Lookup, Without, Switched, ShowsCurrent, Distinct;
    var c := s.clients[k];
    var cs := s.clients[..k] + s.clients[k + 1..];
    WithoutAt(s.clients, k);
    if s.current == Some(c.fd) && cs != [] {
      var u := s.(clients := cs, current := Some(cs[0].fd));
      SwitchKeepsRest(u, cs[0]);
      WithoutKeeps(s.clients, c.fd);
      assert cs[0] in cs;
      if s.running { SwitchShows(u, cs[0]); }
    }
  }

  /** A client that joins comes first in the list, with nothing known of it but its window;
      it becomes current only when it is alone.  The display runs afterwards, and one that
      ran already hears nothing. */
  lemma ClientJoins(s: Daemon, fd: nat, win: nat)
    requires Inv(s) && Enabled(s, Connect(fd, win))
    ensures var t := Step(s, Connect(fd, win));
            && |t.clients| == |s.clients| + 1 && t.clients[1..] == s.clients
            && t.clients[0] == Client(fd, win, Lost, "", "", "", "", "")
            && t.current == (if s.clients == [] then Some(fd) else s.current)
            && t.active == s.active && !t.exited && t.running
            && (s.running ==> t.sent == s.sent && t.switched == s.switched)
            && (s.clients == [] ==> ShowsCurrent(t) && Current(t) == t.clients[0])
  {
    hide ViewOf, Mirrors, Agrees, Lookup;
    ConnectedKeeps(s, fd, win);
    if s.clients == [] {
      LookupUnique([NewClient(fd, win)], NewClient(fd, win));
    }
  }

  /** A reply the current client cannot be given counts as that client leaving.  No other
      reply touches the clients: a display that ends is gone, one that cannot be understood
      is started anew and knows nothing. */
  lemma RepliesTouchDisplay(s: Daemon, reply: DisplayMsg)
    requires Inv(s) && Enabled(s, FromDisplay(reply))
    ensures s.current.Some? && Enabled(s, FromClient(s.current.value, CEof))
    ensures var t := Step(s, FromDisplay(reply));
            if reply == DPass(false) then t == Step(s, FromClient(s.current.value, CEof))
            else
              && t == s.(running := t.running, sent := t.sent, switched := t.switched)
              && t.running == (reply != DEof)
              && (if reply == DEof || reply == DUnreadable then t.sent == [] && !t.switched
                  else t.sent == s.sent && t.switched == s.switched)
  {
    hide ViewOf, Mirrors, Agrees, Lookup, Dropped;
  }
}
