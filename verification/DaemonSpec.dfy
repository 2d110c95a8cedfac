/** The daemon's state as a value: its clients, which of them is current, and what the
    running display has been sent.  One event is one pass through the poll loop's
    handlers. */
module DaemonSpec {
  import opened Bytes

  datatype Status = Executing | Prompt | Lost | TitleSet

  /** `fd` identifies a client; `win` is its terminal's window. */
  datatype Client = Client(fd: nat, win: nat, status: Status, cli: string, pwd: string,
                           developingMask: string, mask: string, expanded: string)

  function NewClient(fd: nat, win: nat): Client {
    Client(fd, win, Lost, "", "", "", "", "")
  }

  /** A parameter written to the display. */
  datatype Msg =
    | MStatus(status: Status) | MCmd(cmd: string) | MDevelopingMask(mask: string) | MMask(mask: string)
    | MWin(win: nat) | MExpanded(data: string) | MOrder(order: string)

  /** `sent` is everything the running display instance has been written; `switched`
      tells that it has had a context switch, or was started for the first client. */
  datatype Daemon = Daemon(clients: seq<Client>, current: Option<nat>, active: bool,
                           running: bool, sent: seq<Msg>, switched: bool, persistent: bool, exited: bool)

  function Init(persistent: bool): Daemon {
    Daemon([], None, false, false, [], false, persistent, false)
  }

  /** What a client sends; `Broken` is anything unreadable or unexpected. */
  datatype ClientMsg =
    | CStatus(status: Option<Status>) | CPwd(pwd: string) | CCmd(cmd: string) | CMask(mask: string)
    | CDevelopingMask(mask: string) | COrder(order: string) | CExpanded(data: string) | CEof | CBroken

  /** What the display sends; a failed pass-on names a client whose connection is gone. */
  datatype DisplayMsg = DPass(delivered: bool) | DWin | DEof | DOther | DUnreadable

  datatype Event =
    | Connect(fd: nat, win: nat)
    | FromClient(fd: nat, msg: ClientMsg)
    | FromDisplay(reply: DisplayMsg)
    | ActiveWindow(win: nat)

  // ----- the parts of a step -----

  predicate HasFd(cs: seq<Client>, fd: nat) {
    exists i :: 0 <= i < |cs| && cs[i].fd == fd
  }

  function Lookup(cs: seq<Client>, fd: nat): (c: Client)
    requires HasFd(cs, fd)
    ensures c in cs && c.fd == fd
  {
    if cs[0].fd == fd then cs[0] else Lookup(cs[1..], fd)
  }

  function Without(cs: seq<Client>, fd: nat): seq<Client> {
    if cs == [] then [] else if cs[0].fd == fd then cs[1..] else [cs[0]] + Without(cs[1..], fd)
  }

  function Replaced(cs: seq<Client>, c: Client): seq<Client> {
    if cs == [] then [] else [if cs[0].fd == c.fd then c else cs[0]] + Replaced(cs[1..], c)
  }

  function Sent(s: Daemon, ms: seq<Msg>): Daemon {
    if s.running then s.(sent := s.sent + ms) else s
  }

  /** The six parameters of a context switch. */
  function Picture(c: Client): seq<Msg> {
    [MStatus(c.status), MCmd(c.cli), MDevelopingMask(c.developingMask), MMask(c.mask), MWin(c.win), MExpanded(c.expanded)]
  }

  function Switched(s: Daemon, c: Client): Daemon {
    if s.running then Sent(s, Picture(c)).(switched := true) else s
  }

  function Updated(s: Daemon, fd: nat, ms: seq<Msg>): Daemon {
    if s.current == Some(fd) then Sent(s, ms) else s
  }

  function Killed(s: Daemon): Daemon {
    s.(running := false, sent := [], switched := false)
  }

  function Forked(s: Daemon): Daemon {
    s.(running := true, sent := [], switched := false)
  }

  /** The client gone, and with the last one the display. */
  function Removed(s: Daemon, fd: nat): Daemon {
    var t := s.(clients := Without(s.clients, fd));
    if t.clients == [] then Killed(t) else t
  }

  /** The current pointer moved off a client that is gone. */
  function Repointed(s: Daemon, fd: nat): Daemon {
    if s.current != Some(fd) then s
    else if s.clients != [] then Switched(s.(current := Some(s.clients[0].fd)), s.clients[0])
    else s.(current := None)
  }

  function Dropped(s: Daemon, fd: nat): Daemon {
    var t := Repointed(Removed(s, fd), fd);
    t.(exited := t.exited || (!t.persistent && t.clients == []))
  }

  function Connected(s: Daemon, fd: nat, win: nat): Daemon {
    var first := s.clients == [];
    var c := NewClient(fd, win);
    var t := s.(clients := [c] + s.clients, current := if first then Some(fd) else s.current);
    if t.running then t else Updated(Forked(t).(switched := first), fd, [MWin(win)])
  }

  /** Stored first, then shown if the client is current. */
  function Stored(s: Daemon, c: Client, ms: seq<Msg>): Daemon {
    Updated(s.(clients := Replaced(s.clients, c)), c.fd, ms)
  }

  function Heard(s: Daemon, c: Client, msg: ClientMsg): Daemon
    requires HasFd(s.clients, c.fd) && (s.current.Some? ==> HasFd(s.clients, s.current.value))
  {
    match msg
    case CStatus(None) => Dropped(s, c.fd)
    case CStatus(Some(st)) => if st == c.status then s else Stored(s, c.(status := st), [MStatus(st)])
    case CPwd(pwd) => Stored(s, c.(pwd := pwd), [])
    case CCmd(cmd) => Stored(s, c.(cli := cmd), [MCmd(cmd)])
    case CMask(mask) => Stored(s, c.(developingMask := "", mask := mask), [MDevelopingMask(""), MMask(mask)])
    case CDevelopingMask(mask) => Stored(s, c.(developingMask := mask), [MDevelopingMask(mask)])
    case COrder(order) =>
      if order == "refocus" then
        if s.current != Some(c.fd) then Switched(s.(current := Some(c.fd)), c)
        else Updated(s, c.fd, [MOrder(order)])
      else if order == "toggle" then
        if s.running then Killed(s)
        else if s.current.Some? then Switched(Forked(s), Lookup(s.clients, s.current.value))
        else s
      else Updated(s, c.fd, [MOrder(order)])
    case CExpanded(data) => Stored(s, c.(expanded := data), [MExpanded(data)])
    case CEof => Dropped(s, c.fd)
    case CBroken => Dropped(s, c.fd)
  }

  function FirstWin(cs: seq<Client>, win: nat): Option<Client> {
    if cs == [] then None else if cs[0].win == win then Some(cs[0]) else FirstWin(cs[1..], win)
  }

  /** The active window changed, or the display is asked to come back up. */
  function Focused(s: Daemon, win: nat): Daemon
    requires s.current.Some? && HasFd(s.clients, s.current.value)
  {
    var cur := Lookup(s.clients, s.current.value);
    if win == cur.win then
      if s.active then s else Updated(s.(active := true), cur.fd, [MWin(win)])
    else
      match FirstWin(s.clients, win)
      case None => s.(active := false)
      case Some(c) => Switched(s.(current := Some(c.fd), active := true), c)
  }

  function Replied(s: Daemon, reply: DisplayMsg): Daemon {
    match reply
    case DPass(delivered) => if delivered || s.current.None? then s else Dropped(s, s.current.value)
    case DWin => s
    case DEof => Killed(s)
    case DOther => s
    case DUnreadable => Forked(s)
  }

  /** The poll loop only meets what is there: a client of its list, a running display, an
      unused descriptor, and no more events once the daemon has gone. */
  predicate Enabled(s: Daemon, e: Event) {
    !s.exited &&
    match e
    case Connect(fd, win) => !HasFd(s.clients, fd)
    case FromClient(fd, msg) => HasFd(s.clients, fd)
    case FromDisplay(reply) => s.running
    case ActiveWindow(win) => s.clients != []
  }

  function Step(s: Daemon, e: Event): Daemon
    requires Enabled(s, e) && Consistent(s)
  {
    match e
    case Connect(fd, win) => Connected(s, fd, win)
    case FromClient(fd, msg) => Heard(s, Lookup(s.clients, fd), msg)
    case FromDisplay(reply) => Replied(s, reply)
    case ActiveWindow(win) => Focused(s, win)
  }

  // ----- what every step keeps -----

  ghost predicate Distinct(cs: seq<Client>) {
    forall i, j :: 0 <= i < j < |cs| ==> cs[i].fd != cs[j].fd
  }

  /** The current client is one of the clients, there is one exactly when there are
      clients, and a display runs only for somebody. */
  ghost predicate Consistent(s: Daemon) {
    && Distinct(s.clients)
    && (s.current.Some? <==> s.clients != [])
    && (s.current.Some? ==> HasFd(s.clients, s.current.value))
    && (s.running ==> s.clients != [])
    && (!s.running ==> s.sent == [] && !s.switched)
  }

  /** What the display instance was last told, message by message. */
  datatype View = View(status: Option<Status>, cmd: Option<string>, developingMask: Option<string>,
                       mask: Option<string>, win: Option<nat>, expanded: Option<string>)

  const BLANK := View(None, None, None, None, None, None)

  function Told(v: View, m: Msg): View {
    match m
    case MStatus(x) => v.(status := Some(x))
    case MCmd(x) => v.(cmd := Some(x))
    case MDevelopingMask(x) => v.(developingMask := Some(x))
    case MMask(x) => v.(mask := Some(x))
    case MWin(x) => v.(win := Some(x))
    case MExpanded(x) => v.(expanded := Some(x))
    case MOrder(_) => v
  }

  function ViewOf(ms: seq<Msg>): View {
    if ms == [] then BLANK else Told(ViewOf(ms[..|ms| - 1]), ms[|ms| - 1])
  }

  predicate Tells<T(==)>(last: Option<T>, stored: T, initial: T) {
    last == Some(stored) || (last == None && stored == initial)
  }

  /** The view shows the client; a value never sent is still the one a client starts with. */
  predicate Mirrors(v: View, c: Client) {
    && Tells(v.status, c.status, Lost)
    && Tells(v.cmd, c.cli, "")
    && Tells(v.developingMask, c.developingMask, "")
    && Tells(v.mask, c.mask, "")
    && v.win == Some(c.win)
    && Tells(v.expanded, c.expanded, "")
  }

  predicate NotWrong<T(==)>(last: Option<T>, stored: T) {
    last == None || last == Some(stored)
  }

  /** Nothing the view holds is wrong of the client. */
  predicate Agrees(v: View, c: Client) {
    && NotWrong(v.status, c.status)
    && NotWrong(v.cmd, c.cli)
    && NotWrong(v.developingMask, c.developingMask)
    && NotWrong(v.mask, c.mask)
    && NotWrong(v.win, c.win)
    && NotWrong(v.expanded, c.expanded)
  }

  /** The view holds the window, and what else it does not hold is as a client starts. */
  predicate Complete(v: View, c: Client) {
    && v.win.Some?
    && (v.status.None? ==> c.status == Lost)
    && (v.cmd.None? ==> c.cli == "")
    && (v.developingMask.None? ==> c.developingMask == "")
    && (v.mask.None? ==> c.mask == "")
    && (v.expanded.None? ==> c.expanded == "")
  }

  ghost predicate Inv(s: Daemon) {
    && Consistent(s)
    && (s.running ==> Agrees(ViewOf(s.sent), Lookup(s.clients, s.current.value)))
    && (s.switched ==> Mirrors(ViewOf(s.sent), Lookup(s.clients, s.current.value)))
  }

  // ----- clients come and go -----

  lemma {:induction false} LookupUnique(cs: seq<Client>, c: Client)
    requires Distinct(cs) && c in cs
    ensures HasFd(cs, c.fd) && Lookup(cs, c.fd) == c
    decreases |cs|
  {
    var i :| 0 <= i < |cs| && cs[i] == c;
    if cs[0].fd != c.fd {
      assert c in cs[1..] by { assert cs[1..][i - 1] == c; }
      LookupUnique(cs[1..], c);
    }
  }

  lemma {:induction false} WithoutMembers(cs: seq<Client>, fd: nat)
    requires Distinct(cs)
    ensures forall c :: c in Without(cs, fd) <==> c in cs && c.fd != fd
    decreases |cs|
  {
    if cs != [] {
      assert cs == [cs[0]] + cs[1..];
      assert forall c :: c in cs[1..] ==> c.fd != cs[0].fd;
      WithoutMembers(cs[1..], fd);
    }
  }

  lemma {:induction false} WithoutKeeps(cs: seq<Client>, fd: nat)
    requires Distinct(cs)
    ensures Distinct(Without(cs, fd))
    ensures forall c :: c in Without(cs, fd) <==> c in cs && c.fd != fd
    decreases |cs|
  {
    WithoutMembers(cs, fd);
    if cs != [] && cs[0].fd != fd {
      WithoutKeeps(cs[1..], fd);
      var t := Without(cs[1..], fd);
      assert forall c :: c in cs[1..] ==> c.fd != cs[0].fd;
      assert forall j :: 0 <= j < |t| ==> t[j] in t;
    }
  }

  lemma {:induction false} ReplacedKeeps(cs: seq<Client>, c: Client)
    requires Distinct(cs)
    ensures |Replaced(cs, c)| == |cs|
    ensures forall i :: 0 <= i < |cs| ==> Replaced(cs, c)[i] == if cs[i].fd == c.fd then c else cs[i]
    ensures Distinct(Replaced(cs, c))
    decreases |cs|
  {
    if cs != [] {
      ReplacedKeeps(cs[1..], c);
    }
  }

  lemma {:induction false} LookupReplaced(cs: seq<Client>, c: Client, fd: nat)
    requires Distinct(cs) && HasFd(cs, c.fd) && HasFd(cs, fd)
    ensures HasFd(Replaced(cs, c), fd)
    ensures Lookup(Replaced(cs, c), fd) == if fd == c.fd then c else Lookup(cs, fd)
  {
    ReplacedKeeps(cs, c);
    var r := Replaced(cs, c);
    var i :| 0 <= i < |cs| && cs[i].fd == fd;
    assert r[i].fd == fd && r[i] in r;
    LookupUnique(r, r[i]);
    LookupUnique(cs, cs[i]);
  }

  lemma LookupWithout(cs: seq<Client>, gone: nat, fd: nat)
    requires Distinct(cs) && HasFd(cs, fd) && fd != gone
    ensures HasFd(Without(cs, gone), fd) && Lookup(Without(cs, gone), fd) == Lookup(cs, fd)
  {
    WithoutKeeps(cs, gone);
    LookupUnique(Without(cs, gone), Lookup(cs, fd));
  }

  // ----- what the display was told -----

  lemma ViewAppend(ms: seq<Msg>, m: Msg)
    ensures ViewOf(ms + [m]) == Told(ViewOf(ms), m)
  {
    assert (ms + [m])[..|ms|] == ms;
  }

  lemma ViewTwo(ms: seq<Msg>, m: Msg, n: Msg)
    ensures ViewOf(ms + [m, n]) == Told(Told(ViewOf(ms), m), n)
  {
    hide ViewOf, Told;
    ViewAppend(ms, m);
    ViewAppend(ms + [m], n);
    assert ms + [m, n] == (ms + [m]) + [n];
  }

  /** A context switch makes the view the client's, whatever it was. */
  lemma PictureMirrors(ms: seq<Msg>, c: Client)
    ensures Mirrors(ViewOf(ms + Picture(c)), c)
  {
    var p := Picture(c);
    ViewTwo(ms, p[0], p[1]);
    ViewTwo(ms + [p[0], p[1]], p[2], p[3]);
    ViewTwo(ms + [p[0], p[1]] + [p[2], p[3]], p[4], p[5]);
    assert ms + p == ms + [p[0], p[1]] + [p[2], p[3]] + [p[4], p[5]];
  }

  lemma MirrorsExactly(v: View, c: Client)
    ensures Mirrors(v, c) <==> Agrees(v, c) && Complete(v, c)
  {
  }

  lemma BlankAgrees(c: Client)
    ensures Agrees(ViewOf([]), c)
  {
  }

  lemma NothingSaid(ms: seq<Msg>)
    ensures ms + [] == ms
  {
  }

  // ----- every step keeps the invariant -----

  lemma SwitchedKeeps(s: Daemon, c: Client)
    requires Consistent(s) && c in s.clients && s.current == Some(c.fd)
    ensures Inv(Switched(s, c))
  {
    hide ViewOf, Mirrors, Agrees, Complete, Picture;
    LookupUnique(s.clients, c);
    PictureMirrors(s.sent, c);
    MirrorsExactly(ViewOf(s.sent + Picture(c)), c);
  }

  lemma DroppedKeeps(s: Daemon, fd: nat)
    requires Inv(s) && HasFd(s.clients, fd)
    ensures Inv(Dropped(s, fd))
  {
    hide ViewOf, Mirrors, Agrees, Picture, Without, Lookup;
    var cs := Without(s.clients, fd);
    WithoutKeeps(s.clients, fd);
    var t := s.(clients := cs);
    if cs != [] {
      if s.current == Some(fd) {
        assert cs[0] in cs;
        var u := t.(current := Some(cs[0].fd));
        assert HasFd(cs, cs[0].fd);
        SwitchedKeeps(u, cs[0]);
      } else {
        LookupWithout(s.clients, fd, s.current.value);
      }
    } else {
      if s.current != Some(fd) {
        LookupWithout(s.clients, fd, s.current.value);
        assert false;
      }
    }
  }

  lemma JoinedConsistent(s: Daemon, c: Client)
    requires Consistent(s) && !HasFd(s.clients, c.fd)
    ensures var first := s.clients == [];
            var t := s.(clients := [c] + s.clients, current := if first then Some(c.fd) else s.current);
            && Consistent(t)
            && Lookup(t.clients, t.current.value) == if first then c else Lookup(s.clients, s.current.value)
  {
    var cs := [c] + s.clients;
    assert cs[0] == c && cs[1..] == s.clients;
    assert forall i :: 1 <= i < |cs| ==> cs[i] == s.clients[i - 1];
    if s.clients != [] {
      var i :| 0 <= i < |s.clients| && s.clients[i].fd == s.current.value;
      assert cs[i + 1].fd == s.current.value;
    }
  }

  lemma ConnectedKeeps(s: Daemon, fd: nat, win: nat)
    requires Inv(s) && !HasFd(s.clients, fd)
    ensures Inv(Connected(s, fd, win))
  {
    hide ViewOf, Lookup, HasFd;
    var c := NewClient(fd, win);
    JoinedConsistent(s, c);
    ViewOfNothing();
    ViewAppend([], MWin(win));
    assert [] + [MWin(win)] == [MWin(win)];
    assert s.clients != [] ==> s.current != Some(fd);
  }

  lemma ViewOfNothing()
    ensures ViewOf([]) == BLANK
  {
  }

  /** Storing values and showing them to the display keeps the mirror when the messages
      say just what changed. */
  lemma StoredKeeps(s: Daemon, c: Client, ms: seq<Msg>)
    requires Inv(s) && HasFd(s.clients, c.fd)
    requires s.current == Some(c.fd) && s.running ==> Agrees(ViewOf(s.sent + ms), c)
    requires s.current == Some(c.fd) && s.switched ==> Mirrors(ViewOf(s.sent + ms), c)
    ensures Inv(Stored(s, c, ms))
  {
    hide ViewOf, Mirrors, Agrees, Lookup, Replaced;
    ReplacedKeeps(s.clients, c);
    LookupReplaced(s.clients, c, s.current.value);
  }

  lemma OrderKeeps(s: Daemon, fd: nat, order: string)
    requires Inv(s)
    ensures Inv(Updated(s, fd, [MOrder(order)]))
  {
    hide ViewOf, Mirrors, Agrees, Lookup;
    ViewAppend(s.sent, MOrder(order));
  }

  lemma ToggleKeeps(s: Daemon)
    requires Inv(s) && s.current.Some?
    ensures Inv(if s.running then Killed(s) else Switched(Forked(s), Lookup(s.clients, s.current.value)))
  {
    hide ViewOf, Mirrors, Agrees, Picture;
    if !s.running {
      SwitchedKeeps(Forked(s), Lookup(s.clients, s.current.value));
    }
  }

  lemma HeardKeeps(s: Daemon, c: Client, msg: ClientMsg)
    requires Inv(s) && c in s.clients
    ensures HasFd(s.clients, c.fd) && Inv(Heard(s, c, msg))
  {
    hide ViewOf, Lookup, Replaced, Picture, Dropped;
    LookupUnique(s.clients, c);
    var ms := s.sent;
    match msg
    case CStatus(None) => DroppedKeeps(s, c.fd);
    case CStatus(Some(st)) => ViewAppend(ms, MStatus(st)); StoredKeeps(s, c.(status := st), [MStatus(st)]);
    case CPwd(pwd) => NothingSaid(ms); StoredKeeps(s, c.(pwd := pwd), []);
    case CCmd(cmd) => ViewAppend(ms, MCmd(cmd)); StoredKeeps(s, c.(cli := cmd), [MCmd(cmd)]);
    case CMask(mask) =>
      ViewTwo(ms, MDevelopingMask(""), MMask(mask));
      StoredKeeps(s, c.(developingMask := "", mask := mask), [MDevelopingMask(""), MMask(mask)]);
    case CDevelopingMask(mask) =>
      ViewAppend(ms, MDevelopingMask(mask));
      StoredKeeps(s, c.(developingMask := mask), [MDevelopingMask(mask)]);
    case COrder(order) =>
      OrderKeeps(s, c.fd, order);
      ToggleKeeps(s);
      if s.current != Some(c.fd) { SwitchedKeeps(s.(current := Some(c.fd)), c); }
    case CExpanded(data) => ViewAppend(ms, MExpanded(data)); StoredKeeps(s, c.(expanded := data), [MExpanded(data)]);
    case CEof => DroppedKeeps(s, c.fd);
    case CBroken => DroppedKeeps(s, c.fd);
  }

  lemma {:induction false} FirstWinFound(cs: seq<Client>, win: nat)
    ensures match FirstWin(cs, win)
            case None => forall c :: c in cs ==> c.win != win
            case Some(c) => c in cs && c.win == win
    decreases |cs|
  {
    if cs != [] && cs[0].win != win {
      FirstWinFound(cs[1..], win);
    }
  }

  lemma FocusedKeeps(s: Daemon, win: nat)
    requires Inv(s) && s.clients != []
    ensures Inv(Focused(s, win))
  {
    hide ViewOf, Lookup, Picture, FirstWin;
    ViewAppend(s.sent, MWin(win));
    FirstWinFound(s.clients, win);
    if FirstWin(s.clients, win).Some? {
      var c := FirstWin(s.clients, win).value;
      LookupUnique(s.clients, c);
      SwitchedKeeps(s.(current := Some(c.fd), active := true), c);
    }
  }

  lemma RepliedKeeps(s: Daemon, reply: DisplayMsg)
    requires Inv(s) && s.running
    ensures Inv(Replied(s, reply))
  {
    hide ViewOf, Mirrors, Agrees, Lookup, Dropped;
    BlankAgrees(Lookup(s.clients, s.current.value));
    if reply == DPass(false) { DroppedKeeps(s, s.current.value); }
  }

  lemma StepKeeps(s: Daemon, e: Event)
    requires Inv(s) && Enabled(s, e)
    ensures Inv(Step(s, e))
  {
    hide ViewOf, Mirrors, Agrees, Picture, Lookup, Dropped, Heard, Focused, Connected;
    match e
    case Connect(fd, win) => ConnectedKeeps(s, fd, win);
    case FromClient(fd, msg) => HeardKeeps(s, Lookup(s.clients, fd), msg);
    case FromDisplay(reply) => RepliedKeeps(s, reply);
    case ActiveWindow(win) => FocusedKeeps(s, win);
  }

  // ----- every run -----

  /** The events lead from one state to the other, each enabled where it happens. */
  ghost predicate Reaches(s: Daemon, es: seq<Event>, t: Daemon)
    decreases |es|
  {
    if es == [] then s == t
    else Consistent(s) && Enabled(s, es[0]) && Reaches(Step(s, es[0]), es[1..], t)
  }

  lemma {:induction false} RunKeeps(s: Daemon, es: seq<Event>, t: Daemon)
    requires Inv(s) && Reaches(s, es, t)
    ensures Inv(t)
    decreases |es|
  {
    hide ViewOf, Mirrors, Agrees, Step, Lookup, Enabled;
    if es != [] {
      StepKeeps(s, es[0]);
      RunKeeps(Step(s, es[0]), es[1..], t);
    }
  }

  /** Daemon mirror: in every state a run can reach, the current client is one of the
      clients and exists exactly when one does, a running display has somebody to show,
      and a display that has been switched to shows what is stored for the current
      client. */
  lemma MirrorAlways(persistent: bool, es: seq<Event>, s: Daemon)
    requires Reaches(Init(persistent), es, s)
    ensures (s.current.None? <==> s.clients == [])
    ensures s.current.Some? ==> HasFd(s.clients, s.current.value)
    ensures s.running ==> s.clients != []
    ensures s.running && s.switched ==> Mirrors(ViewOf(s.sent), Lookup(s.clients, s.current.value))
  {
    RunKeeps(Init(persistent), es, s);
  }

  /** Nothing a running display has been told is wrong of the current client, switched or
      not; so it mirrors that client exactly when it has been told the window, and what
      else it has not been told is as a client starts. */
  lemma MirrorsIff(persistent: bool, es: seq<Event>, s: Daemon)
    requires Reaches(Init(persistent), es, s) && s.running
    ensures s.current.Some? && HasFd(s.clients, s.current.value)
    ensures var v, c := ViewOf(s.sent), Lookup(s.clients, s.current.value);
            Agrees(v, c) && (Mirrors(v, c) <==> Complete(v, c))
  {
    hide ViewOf, Mirrors, Agrees, Complete, Lookup;
    RunKeeps(Init(persistent), es, s);
    MirrorsExactly(ViewOf(s.sent), Lookup(s.clients, s.current.value));
  }

  /** Right after two starts a display mirrors nobody, since it has not been told a window:
      when it is restarted after a read error, or forked for a later client. */
  lemma UnswitchedStarts(s: Daemon, fd: nat, win: nat)
    requires Inv(s) && s.clients != []
    ensures s.running ==> forall c :: !Mirrors(ViewOf(Replied(s, DUnreadable).sent), c)
    ensures !s.running && !HasFd(s.clients, fd) ==> forall c :: !Mirrors(ViewOf(Connected(s, fd, win).sent), c)
  {
    hide Lookup, Agrees;
    ViewOfNothing();
    if !HasFd(s.clients, fd) {
      assert s.current != Some(fd);
    }
  }

  /** A display started for a client that joins mirrors the current client exactly when
      that one is the first. */
  lemma JoinedMirrorsIff(s: Daemon, fd: nat, win: nat)
    requires Inv(s) && !s.running && !HasFd(s.clients, fd)
    ensures var t := Connected(s, fd, win);
            && t.running && t.current.Some? && HasFd(t.clients, t.current.value)
            && (Mirrors(ViewOf(t.sent), Lookup(t.clients, t.current.value)) <==> s.clients == [])
  {
    hide ViewOf, Lookup, HasFd;
    ConnectedKeeps(s, fd, win);
    ViewOfNothing();
    assert s.clients != [] ==> s.current != Some(fd);
  }

  /** One client, and a display that has been told so much without a switch. */
  function Restarted(sent: seq<Msg>, active: bool): Daemon {
    Daemon([NewClient(1, 7)], Some(1), active, true, sent, false, true, false)
  }

  lemma OneClient(sent: seq<Msg>, active: bool)
    ensures Consistent(Restarted(sent, active)) && Lookup([NewClient(1, 7)], 1) == NewClient(1, 7)
  {
    assert [NewClient(1, 7)][0].fd == 1;
  }

  lemma FirstJoins()
    ensures Consistent(Init(true)) && Enabled(Init(true), Connect(1, 7))
    ensures Step(Init(true), Connect(1, 7)) == Restarted([MWin(7)], false).(switched := true)
    ensures Consistent(Restarted([MWin(7)], false).(switched := true))
  {
    OneClient([MWin(7)], false);
    assert [NewClient(1, 7)] + [] == [NewClient(1, 7)] && [] + [MWin(7)] == [MWin(7)];
  }

  lemma FocusReturns()
    ensures Consistent(Restarted([], false))
    ensures Step(Restarted([], false), ActiveWindow(9)) == Restarted([], false)
    ensures Step(Restarted([], false), ActiveWindow(7)) == Restarted([MWin(7)], true)
  {
    OneClient([], false);
    hide Lookup;
    assert [NewClient(1, 7)][1..] == [] && FirstWin([], 9) == None;
    assert [] + [MWin(7)] == [MWin(7)];
  }

  /** Without a switch a display may come to mirror the current client: it was restarted,
      the focus went elsewhere and came back. */
  lemma MirrorsUnswitched()
    ensures var s := Restarted([MWin(7)], true);
            && Reaches(Init(true), [Connect(1, 7), FromDisplay(DUnreadable), ActiveWindow(9), ActiveWindow(7)], s)
            && s.running && !s.switched && Mirrors(ViewOf(s.sent), Lookup(s.clients, s.current.value))
  {
    hide Consistent, ViewOf, Lookup, Focused;
    var a, b, d := Restarted([MWin(7)], false).(switched := true), Restarted([], false), Restarted([MWin(7)], true);
    FirstJoins();
    OneClient([], false);
    OneClient([MWin(7)], true);
    FocusReturns();
    ViewOfNothing();
    ViewAppend([], MWin(7));
    assert [] + [MWin(7)] == [MWin(7)];
    ReachesFour(Init(true), Connect(1, 7), FromDisplay(DUnreadable), ActiveWindow(9), ActiveWindow(7), a, b, b, d);
  }

  lemma ReachesFour(s: Daemon, e: Event, f: Event, g: Event, h: Event, a: Daemon, b: Daemon, c: Daemon, d: Daemon)
    requires Consistent(s) && Enabled(s, e) && Step(s, e) == a
    requires Consistent(a) && Enabled(a, f) && Step(a, f) == b
    requires Consistent(b) && Enabled(b, g) && Step(b, g) == c
    requires Consistent(c) && Enabled(c, h) && Step(c, h) == d
    ensures Reaches(s, [e, f, g, h], d)
  {
    hide Step, Enabled, Consistent;
    assert [e, f, g, h][1..] == [f, g, h] && [f, g, h][1..] == [g, h] && [g, h][1..] == [h] && [h][1..] == [];
    assert Reaches(d, [], d) && Reaches(c, [h], d) && Reaches(b, [g, h], d);
  }
}
