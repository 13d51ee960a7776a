/** Every step a program or the reactor can take on the socket table. */
module SocketSteps {
  import opened Bytes
  import opened SocketModel

  datatype Action =
    // Tasks, while the reactor has yielded
    | Connect(ok: bool)
    | Bind(port: nat, backlog: nat)
    | BindUdp(port: nat)
    | Accept(listener: nat)
    | CloseStream(stream: nat)
    | AbortStream(stream: nat)
    | DropStream(stream: nat)
    | DropListener(listener: nat)
    | DropUdp(udp: nat)
    // The reactor's loop
    | Start
    | Ingest(packet: bool, net: Table)
    | Egress(net: Table)
    | Cleanup

  // ---- Tasks ----

  /** `TcpListener::bind_with_backlog`: at least one listening socket; the table is left alone on port 0. */
  function AddListening(t: Table, next: nat, n: nat): (Table, seq<Claim>) {
    if n == 0 then (t, [])
    else
      var (t', claims) := AddListening(t, next, n - 1);
      (Place(t', Tcp(next + n - 1, Listen)), claims + [Claim(FirstFree(t', 0), next + n - 1, true)])
  }

  function DoBind(w: World, port: nat, backlog: nat): World {
    if port == 0 then w
    else
      var n := if backlog == 0 then 1 else backlog;
      var (t, claims) := AddListening(w.sockets, w.next, n);
      w.(sockets := t, next := w.next + n, listeners := w.listeners + [Listener(port, n, claims)])
  }

  function AddOne(w: World, sock: Sock): (World, Claim)
    requires sock.uid == w.next
  {
    (w.(sockets := Place(w.sockets, sock), next := w.next + 1),
     Claim(FirstFree(w.sockets, 0), sock.uid, sock.Tcp?))
  }

  function DoConnect(w: World, ok: bool): World {
    if !ok then w
    else
      var (w', c) := AddOne(w, Tcp(w.next, SynSent));
      w'.(streams := w.streams + [c])
  }

  function DoBindUdp(w: World, port: nat): World {
    if port == 0 then w
    else
      var (w', c) := AddOne(w, Udp(w.next));
      w'.(udps := w.udps + [c])
  }

  /** Every handle of the backlog can be looked up; `accept` may look at all of them. */
  predicate AllTcp(t: Table, cs: seq<Claim>) {
    forall i | 0 <= i < |cs| :: TcpState(t, cs[i].handle).Some?
  }

  /** The first established socket of the backlog, or its length. */
  function FirstEstablished(t: Table, cs: seq<Claim>, from: nat): (k: nat)
    requires from <= |cs|
    ensures from <= k <= |cs|
    ensures k < |cs| ==> TcpState(t, cs[k].handle) == Some(Established)
    ensures forall i | from <= i < k :: TcpState(t, cs[i].handle) != Some(Established)
    decreases |cs| - from
  {
    if from == |cs| || TcpState(t, cs[from].handle) == Some(Established) then from
    else FirstEstablished(t, cs, from + 1)
  }

  /** `AcceptFuture::poll`: hand out an established socket and put a new listening one in its place. */
  function DoAccept(w: World, l: nat): Option<World>
    requires l < |w.listeners|
  {
    var lis := w.listeners[l];
    if !AllTcp(w.sockets, lis.backlog) then None
    else
      var k := FirstEstablished(w.sockets, lis.backlog, 0);
      if k == |lis.backlog| then Some(w)
      else
        var (w', c) := AddOne(w, Tcp(w.next, Listen));
        Some(w'.(
          streams := w.streams + [lis.backlog[k]],
          listeners := w.listeners[l := lis.(backlog := lis.backlog[k := c])]))
  }

  /** smoltcp's `close`. */
  function CloseState(s: State): State {
    match s
    case Listen => Closed
    case SynSent => Closed
    case SynReceived => FinWait1
    case Established => FinWait1
    case CloseWait => LastAck
    case _ => s
  }

  /** `poll_close_io`: closing and closed sockets are left alone. */
  function DoClose(w: World, i: nat): Option<World>
    requires i < |w.streams|
  {
    match TcpState(w.sockets, w.streams[i].handle)
    case None => None
    case Some(s) =>
      if Winding(s) then Some(w)
      else Some(w.(sockets := SetState(w.sockets, w.streams[i].handle, CloseState(s))))
  }

  function DoAbort(w: World, i: nat): Option<World>
    requires i < |w.streams|
  {
    match TcpState(w.sockets, w.streams[i].handle)
    case None => None
    case Some(_) => Some(w.(sockets := SetState(w.sockets, w.streams[i].handle, Closed)))
  }

  function Without<T>(s: seq<T>, i: nat): seq<T>
    requires i < |s|
  {
    s[..i] + s[i + 1..]
  }

  /** `Drop for TcpStream`: remove a finished socket, orphan a closing one, abort and orphan any other. */
  function DoDropStream(w: World, i: nat): Option<World>
    requires i < |w.streams|
  {
    var c := w.streams[i];
    var w' := w.(streams := Without(w.streams, i));
    match TcpState(w.sockets, c.handle)
    case None => None
    case Some(s) =>
      if Finished(s) then Some(w'.(sockets := Remove(w.sockets, c.handle)))
      else if Winding(s) then Some(w'.(orphans := w.orphans + [Orphan(c, false)]))
      else Some(w'.(
        sockets := SetState(w.sockets, c.handle, Closed),
        orphans := w.orphans + [Orphan(c, false)]))
  }

  /** `Drop for TcpListener`: abort and remove every socket of the backlog. */
  function RemoveAll(t: Table, cs: seq<Claim>): Option<Table>
    decreases |cs|
  {
    if cs == [] then Some(t)
    else if TcpState(t, cs[0].handle).None? then None
    else RemoveAll(Remove(t, cs[0].handle), cs[1..])
  }

  function DoDropListener(w: World, l: nat): Option<World>
    requires l < |w.listeners|
  {
    match RemoveAll(w.sockets, w.listeners[l].backlog)
    case None => None
    case Some(t) => Some(w.(sockets := t, listeners := Without(w.listeners, l)))
  }

  function DoDropUdp(w: World, i: nat): Option<World>
    requires i < |w.udps|
  {
    var h := w.udps[i].handle;
    if !UdpAt(w.sockets, h) then None
    else Some(w.(sockets := Remove(w.sockets, h), udps := Without(w.udps, i)))
  }

  // ---- The reactor ----

  /** What packets and timers may do to a connection (section 3.3.2 of RFC 9293; a reset may return SYN-RECEIVED to LISTEN). */
  predicate NetMay(s: State, s': State) {
    s' == s || s' == Closed ||
    match s
    case Listen => s' == SynReceived
    case SynSent => s' == SynReceived || s' == Established
    case SynReceived => s' == Listen || s' == Established || s' == CloseWait
    case Established => s' == CloseWait
    case FinWait1 => s' == FinWait2 || s' == Closing || s' == TimeWait
    case FinWait2 => s' == TimeWait
    case Closing => s' == TimeWait
    case _ => false
  }

  predicate SlotMay(a: Option<Sock>, b: Option<Sock>) {
    match a
    case None => b.None?
    case Some(Udp(_)) => b == a
    case Some(Tcp(u, s)) => b.Some? && b.value.Tcp? && b.value.uid == u && NetMay(s, b.value.state)
  }

  /** A pass over the network: sockets may change state, but none is created, moved or removed. */
  predicate TableMay(t: Table, t': Table) {
    |t'| == |t| && forall h | 0 <= h < |t| :: SlotMay(t[h], t'[h])
  }

  function AllFlushed(os: seq<Orphan>): seq<Orphan> {
    if os == [] then [] else [os[0].(flushed := true)] + AllFlushed(os[1..])
  }

  /** `cleanup_orphaned`: remove finished orphans, keep the others in order. */
  function Sweep(t: Table, os: seq<Orphan>): Option<(Table, seq<Orphan>)>
    decreases |os|
  {
    if os == [] then Some((t, []))
    else
      match TcpState(t, os[0].claim.handle)
      case None => None
      case Some(s) =>
        if Finished(s) then Sweep(Remove(t, os[0].claim.handle), os[1..])
        else
          match Sweep(t, os[1..])
          case None => None
          case Some((t', kept)) => Some((t', [os[0]] + kept))
  }

  function DoCleanup(w: World): Option<World> {
    match Sweep(w.sockets, w.orphans)
    case None => None
    case Some((t, kept)) => Some(w.(sockets := t, orphans := kept, phase := Yielded))
  }

  function AfterPacket(n: nat, batch: nat): Phase {
    if n + 1 >= batch then Ingested else Ingesting(n + 1)
  }

  // ---- Runs ----

  predicate Enabled(w: World, a: Action, batch: nat) {
    match a
    case Start => w.phase.Yielded?
    case Ingest(_, net) => w.phase.Ingesting? && TableMay(w.sockets, net)
    case Egress(net) => w.phase.Ingested? && TableMay(w.sockets, net)
    case Cleanup => w.phase.Flushed?
    case Accept(l) => w.phase.Yielded? && l < |w.listeners|
    case DropListener(l) => w.phase.Yielded? && l < |w.listeners|
    case CloseStream(i) => w.phase.Yielded? && i < |w.streams|
    case AbortStream(i) => w.phase.Yielded? && i < |w.streams|
    case DropStream(i) => w.phase.Yielded? && i < |w.streams|
    case DropUdp(i) => w.phase.Yielded? && i < |w.udps|
    case _ => w.phase.Yielded?
  }

  /** One step; `None` is a panic. */
  function Step(w: World, a: Action, batch: nat): Option<World>
    requires Enabled(w, a, batch)
  {
    match a
    case Connect(ok) => Some(DoConnect(w, ok))
    case Bind(port, backlog) => Some(DoBind(w, port, backlog))
    case BindUdp(port) => Some(DoBindUdp(w, port))
    case Accept(l) => DoAccept(w, l)
    case CloseStream(i) => DoClose(w, i)
    case AbortStream(i) => DoAbort(w, i)
    case DropStream(i) => DoDropStream(w, i)
    case DropListener(l) => DoDropListener(w, l)
    case DropUdp(i) => DoDropUdp(w, i)
    case Start => Some(w.(phase := Ingesting(0)))
    case Ingest(packet, net) =>
      if packet then Some(w.(sockets := net, phase := AfterPacket(w.phase.packets, batch)))
      else Some(w.(phase := Ingested))
    case Egress(net) => Some(w.(sockets := net, orphans := AllFlushed(w.orphans), phase := Flushed))
    case Cleanup => DoCleanup(w)
  }
}
