/**
 * Who owns the slots of the socket table: the lifecycle of streams, listeners,
 * UDP sockets and orphans over one table whose indices are reused.
 */
module SocketModel {

  import opened Bytes

  /** The connection states of section 3.3.2 of RFC 9293. */
  datatype State =
    | Closed | Listen | SynSent | SynReceived | Established | FinWait1 | FinWait2
    | CloseWait | Closing | LastAck | TimeWait

  /** A socket in the table; `uid` tells it from every other socket ever created. */
  datatype Sock = Tcp(uid: nat, state: State) | Udp(uid: nat)

  type Table = seq<Option<Sock>>

  /** A handle to a slot, with the socket its holder was given. */
  datatype Claim = Claim(handle: nat, uid: nat, tcp: bool)

  datatype Listener = Listener(port: nat, size: nat, backlog: seq<Claim>)

  /** An orphaned handle, and whether an egress pass ran since it was orphaned. */
  datatype Orphan = Orphan(claim: Claim, flushed: bool)

  /** Where the reactor's loop is: other tasks run only while it has yielded. */
  datatype Phase = Yielded | Ingesting(packets: nat) | Ingested | Flushed

  datatype World = World(
    sockets: Table,
    streams: seq<Claim>,
    listeners: seq<Listener>,
    udps: seq<Claim>,
    orphans: seq<Orphan>,
    next: nat,
    phase: Phase)

  // ---- The table as a multiset of claims ----

  function SlotClaim(h: nat, slot: Option<Sock>): multiset<Claim> {
    match slot
    case None => multiset{}
    case Some(sock) => multiset{Claim(h, sock.uid, sock.Tcp?)}
  }

  /** One claim for every occupied slot. */
  function Occupied(t: Table): multiset<Claim> {
    if t == [] then multiset{}
    else Occupied(t[..|t| - 1]) + SlotClaim(|t| - 1, t[|t| - 1])
  }

  predicate Holds(t: Table, c: Claim) {
    c.handle < |t| && SlotClaim(c.handle, t[c.handle]) == multiset{c}
  }

  /** Each claim occurs once if its slot holds that very socket, and otherwise not at all. */
  lemma {:induction false} OccupiedCount(t: Table, c: Claim)
    ensures Occupied(t)[c] == if Holds(t, c) then 1 else 0
  {
    if t != [] {
      var n := |t| - 1;
      OccupiedCount(t[..n], c);
      assert c.handle < n ==> t[..n][c.handle] == t[c.handle];
      if c.handle == n && t[n].Some? {
        assert SlotClaim(n, t[n])[Claim(n, t[n].value.uid, t[n].value.Tcp?)] == 1;
      }
    }
  }

  lemma {:induction false} OccupiedSet(t: Table, h: nat, slot: Option<Sock>)
    requires h < |t|
    ensures Occupied(t[h := slot]) + SlotClaim(h, t[h]) == Occupied(t) + SlotClaim(h, slot)
  {
    var n := |t| - 1;
    if h == n {
      assert t[h := slot][..n] == t[..n];
    } else {
      var t' := t[h := slot];
      assert t'[..n] == t[..n][h := slot];
      OccupiedSet(t[..n], h, slot);
      var a, b := Occupied(t'[..n]), Occupied(t[..n]);
      var x, y, z := SlotClaim(h, t[h]), SlotClaim(h, slot), SlotClaim(n, t[n]);
      Swap(a, b, x, y, z);
    }
  }

  lemma OccupiedPush(t: Table, slot: Option<Sock>)
    ensures Occupied(t + [slot]) == Occupied(t) + SlotClaim(|t|, slot)
  {
    assert (t + [slot])[..|t|] == t;
  }

  lemma Swap<T>(a: multiset<T>, b: multiset<T>, x: multiset<T>, y: multiset<T>, z: multiset<T>)
    requires a + x == b + y
    ensures (a + z) + x == (b + z) + y
  {
    assert (a + z) + x == (a + x) + z;
    assert (b + y) + z == (b + z) + y;
  }

  // ---- smoltcp's socket set ----

  function FirstFree(t: Table, from: nat): (h: nat)
    requires from <= |t|
    ensures from <= h <= |t|
    ensures h < |t| ==> t[h].None?
    ensures forall i | from <= i < h :: t[i].Some?
    decreases |t| - from
  {
    if from == |t| || t[from].None? then from else FirstFree(t, from + 1)
  }

  /** `SocketSet::add` takes the first empty slot, or grows the table. */
  function Place(t: Table, sock: Sock): Table {
    var h := FirstFree(t, 0);
    if h < |t| then t[h := Some(sock)] else t + [Some(sock)]
  }

  lemma PlaceOccupied(t: Table, sock: Sock)
    ensures Occupied(Place(t, sock)) == Occupied(t) + multiset{Claim(FirstFree(t, 0), sock.uid, sock.Tcp?)}
  {
    var h := FirstFree(t, 0);
    if h < |t| {
      OccupiedSet(t, h, Some(sock));
    } else {
      OccupiedPush(t, Some(sock));
    }
  }

  /** `get::<tcp::Socket>`; `None` stands for its panic on an empty slot or another kind of socket. */
  function TcpState(t: Table, h: nat): Option<State> {
    if h < |t| && t[h].Some? && t[h].value.Tcp? then Some(t[h].value.state) else None
  }

  function SetState(t: Table, h: nat, s: State): Table
    requires TcpState(t, h).Some?
  {
    t[h := Some(t[h].value.(state := s))]
  }

  predicate UdpAt(t: Table, h: nat) {
    h < |t| && t[h].Some? && t[h].value.Udp?
  }

  /** `SocketSet::remove`. */
  function Remove(t: Table, h: nat): Table
    requires h < |t|
  {
    t[h := None]
  }

  lemma RemoveOccupied(t: Table, c: Claim)
    requires Holds(t, c)
    ensures Occupied(Remove(t, c.handle)) + multiset{c} == Occupied(t)
  {
    OccupiedSet(t, c.handle, None);
  }

  lemma SetStateOccupied(t: Table, h: nat, s: State)
    requires TcpState(t, h).Some?
    ensures Occupied(SetState(t, h, s)) == Occupied(t)
  {
    OccupiedSet(t, h, Some(t[h].value.(state := s)));
    Cancel(Occupied(SetState(t, h, s)), Occupied(t), SlotClaim(h, t[h]));
  }

  // ---- Owners ----

  function BacklogClaims(ls: seq<Listener>): multiset<Claim> {
    if ls == [] then multiset{}
    else BacklogClaims(ls[..|ls| - 1]) + multiset(ls[|ls| - 1].backlog)
  }

  function OrphanClaims(os: seq<Orphan>): multiset<Claim> {
    if os == [] then multiset{} else multiset{os[0].claim} + OrphanClaims(os[1..])
  }

  /** Every claim held by a live object or by the orphan list. */
  function Owned(w: World): multiset<Claim> {
    multiset(w.streams) + BacklogClaims(w.listeners) + multiset(w.udps) + OrphanClaims(w.orphans)
  }

  /** States in which a stream no longer exchanges data and never will again. */
  predicate Winding(s: State) {
    s in {FinWait1, FinWait2, Closing, LastAck, TimeWait, Closed}
  }

  predicate Finished(s: State) {
    s == Closed || s == TimeWait
  }

  predicate Fresh(t: Table, next: nat) {
    forall h | 0 <= h < |t| && t[h].Some? :: t[h].value.uid < next
  }

  predicate WindingOrphans(t: Table, os: seq<Orphan>) {
    forall i | 0 <= i < |os| ::
      var s := TcpState(t, os[i].claim.handle);
      s.Some? && Winding(s.value)
  }

  predicate Kinds(w: World) {
    && (forall c | c in w.streams :: c.tcp)
    && (forall c | c in w.udps :: !c.tcp)
    && (forall i | 0 <= i < |w.listeners| :: BacklogOk(w.listeners[i]))
    && (forall o | o in w.orphans :: o.claim.tcp)
  }

  /** A bound listener has a port and always as many sockets as it was bound with, at least one. */
  predicate BacklogOk(l: Listener) {
    l.port != 0 && |l.backlog| == l.size >= 1 && forall c | c in l.backlog :: c.tcp
  }

  /** The occupied slots are exactly the owned ones, each owned once and by the holder of that very socket. */
  predicate Inv(w: World) {
    && Owned(w) == Occupied(w.sockets)
    && Fresh(w.sockets, w.next)
    && Kinds(w)
    && WindingOrphans(w.sockets, w.orphans)
    && (w.phase.Flushed? ==> forall o | o in w.orphans :: o.flushed)
  }

  /** An owned claim is a slot that holds the very socket, of the right kind. */
  lemma OwnedHolds(w: World, c: Claim)
    requires Inv(w) && c in Owned(w)
    ensures Holds(w.sockets, c)
    ensures c.tcp ==> TcpState(w.sockets, c.handle).Some?
    ensures !c.tcp ==> UdpAt(w.sockets, c.handle)
  {
    OccupiedCount(w.sockets, c);
    var slot := w.sockets[c.handle];
    assert slot.Some? ==> c == Claim(c.handle, slot.value.uid, slot.value.Tcp?) by {
      if slot.Some? {
        assert Claim(c.handle, slot.value.uid, slot.value.Tcp?) in multiset{c};
      }
    }
    assert c in multiset{c};
  }

  /** No slot has two owners. */
  lemma OneOwner(w: World, a: Claim, b: Claim)
    requires Inv(w) && a in Owned(w) && b in Owned(w) && a.handle == b.handle
    ensures a == b && Owned(w)[a] == 1
  {
    OwnedHolds(w, a);
    OwnedHolds(w, b);
    OccupiedCount(w.sockets, a);
    assert a in multiset{b};
  }
}
