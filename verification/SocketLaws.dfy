/**
 * What each step does for the object it works on, with the connection states
 * written out (section 3.3.2 of RFC 9293), and what that means over runs.
 */
module SocketLaws {
  import opened Bytes
  import opened SocketModel
  import opened SocketSteps
  import opened SocketSafety

  /** The state of the socket that a claim was given. */
  ghost function StateOf(w: World, c: Claim): Option<State> {
    if Holds(w.sockets, c) then TcpState(w.sockets, c.handle) else None
  }

  lemma PlacedAt(t: Table, sock: Sock)
    ensures
      var h := FirstFree(t, 0);
      h < |Place(t, sock)| && Place(t, sock)[h] == Some(sock)
  {
  }

  /** A connect that smoltcp accepts gives one new stream, which sends a SYN; a refused one changes nothing. */
  lemma ConnectGives(w: World, ok: bool)
    requires Inv(w)
    ensures
      var w' := DoConnect(w, ok);
      if ok then
        && |w'.streams| == |w.streams| + 1 && w'.streams[..|w.streams|] == w.streams
        && StateOf(w', w'.streams[|w.streams|]) == Some(SynSent)
        && w'.streams[|w.streams|].uid == w.next
      else w' == w
  {
    PlacedAt(w.sockets, Tcp(w.next, SynSent));
  }

  lemma {:induction false} ListeningAt(t: Table, next: nat, n: nat, k: nat)
    requires k < n
    ensures
      var (t', cs) := AddListening(t, next, n);
      |cs| == n && Holds(t', cs[k]) && TcpState(t', cs[k].handle) == Some(Listen) && cs[k].uid == next + k
  {
    var (t1, cs1) := AddListening(t, next, n - 1);
    var sock := Tcp(next + n - 1, Listen);
    ListeningSize(t, next, n - 1);
    if k < n - 1 {
      ListeningAt(t, next, n - 1, k);
      PlaceKeeps(t1, sock, cs1[k].handle);
    } else {
      PlacedAt(t1, sock);
    }
  }

  lemma {:induction false} ListeningSize(t: Table, next: nat, n: nat)
    ensures |AddListening(t, next, n).1| == n
  {
    if n > 0 {
      ListeningSize(t, next, n - 1);
    }
  }

  /** Binding a port gives a listener with as many listening sockets as asked for, but at least one. */
  lemma BindGives(w: World, port: nat, backlog: nat)
    requires Inv(w)
    ensures
      var w' := DoBind(w, port, backlog);
      if port == 0 then w' == w
      else
        && |w'.listeners| == |w.listeners| + 1 && w'.listeners[..|w.listeners|] == w.listeners
        && var l := w'.listeners[|w.listeners|];
           && l.port == port && |l.backlog| == l.size == (if backlog == 0 then 1 else backlog)
           && forall k | 0 <= k < |l.backlog| :: StateOf(w', l.backlog[k]) == Some(Listen)
  {
    if port != 0 {
      var n := if backlog == 0 then 1 else backlog;
      ListeningSize(w.sockets, w.next, n);
      var (t', cs) := AddListening(w.sockets, w.next, n);
      forall k | 0 <= k < n ensures Holds(t', cs[k]) && TcpState(t', cs[k].handle) == Some(Listen) {
        ListeningAt(w.sockets, w.next, n, k);
      }
    }
  }

  lemma BindUdpGives(w: World, port: nat)
    requires Inv(w)
    ensures
      var w' := DoBindUdp(w, port);
      if port == 0 then w' == w
      else
        && |w'.udps| == |w.udps| + 1 && w'.udps[..|w.udps|] == w.udps
        && Holds(w'.sockets, w'.udps[|w.udps|]) && UdpAt(w'.sockets, w'.udps[|w.udps|].handle)
  {
    PlacedAt(w.sockets, Udp(w.next));
  }

  ghost predicate EstablishedAt(w: World, l: nat, k: nat)
    requires l < |w.listeners|
  {
    k < |w.listeners[l].backlog| && StateOf(w, w.listeners[l].backlog[k]) == Some(Established)
  }

  /** Socket `k` of the backlog became a stream, still established, and a listening one has exactly its place. */
  ghost predicate HandedOut(w: World, l: nat, k: nat, w': World)
    requires l < |w.listeners| && k < |w.listeners[l].backlog|
  {
    var before := w.listeners[l].backlog;
    && w'.streams == w.streams + [before[k]] && StateOf(w', before[k]) == Some(Established)
    && |w'.listeners| == |w.listeners| && |w'.listeners[l].backlog| == |before|
    && StateOf(w', w'.listeners[l].backlog[k]) == Some(Listen)
    && forall i | 0 <= i < |before| && i != k :: w'.listeners[l].backlog[i] == before[i]
  }

  /** Accepting hands out the first established socket of the backlog; without one nothing changes. */
  lemma AcceptGives(w: World, l: nat, w': World) returns (k: nat)
    requires Inv(w) && l < |w.listeners| && DoAccept(w, l) == Some(w')
    ensures forall i | 0 <= i < k :: !EstablishedAt(w, l, i)
    ensures
      if k < |w.listeners[l].backlog| then EstablishedAt(w, l, k) && HandedOut(w, l, k, w')
      else k == |w.listeners[l].backlog| && w' == w
  {
    hide Inv, Place, FirstFree, HandedOut, StateOf;
    BacklogHolds(w, l);
    k := FirstEstablished(w.sockets, w.listeners[l].backlog, 0);
    if k < |w.listeners[l].backlog| {
      AcceptedAt(w, l, k, w');
    }
  }

  lemma BacklogHolds(w: World, l: nat)
    requires Inv(w) && l < |w.listeners|
    ensures forall i | 0 <= i < |w.listeners[l].backlog| ::
      StateOf(w, w.listeners[l].backlog[i]) == TcpState(w.sockets, w.listeners[l].backlog[i].handle)
  {
    var cs := w.listeners[l].backlog;
    forall i | 0 <= i < |cs| ensures StateOf(w, cs[i]) == TcpState(w.sockets, cs[i].handle) {
      BacklogHas(w.listeners, l, cs[i]);
      OwnedHolds(w, cs[i]);
    }
  }

  lemma AcceptedAt(w: World, l: nat, k: nat, w': World)
    requires Inv(w) && l < |w.listeners| && DoAccept(w, l) == Some(w')
    requires k == FirstEstablished(w.sockets, w.listeners[l].backlog, 0) < |w.listeners[l].backlog|
    ensures HandedOut(w, l, k, w')
  {
    hide Place, FirstFree, Occupied;
    var before := w.listeners[l].backlog;
    var sock := Tcp(w.next, Listen);
    BacklogHas(w.listeners, l, before[k]);
    OwnedHolds(w, before[k]);
    PlaceKeeps(w.sockets, sock, before[k].handle);
    PlacedAt(w.sockets, sock);
  }

  // ---- Closing and dropping ----

  /** The state after `close`: a connection that may still send gets to send its FIN. */
  lemma CloseGives(w: World, i: nat, w': World)
    requires Inv(w) && i < |w.streams| && DoClose(w, i) == Some(w')
    ensures w'.streams == w.streams && w'.orphans == w.orphans
    ensures
      var s, s' := StateOf(w, w.streams[i]), StateOf(w', w.streams[i]);
      && s.Some? && s'.Some?
      && (s.value in {SynReceived, Established} ==> s'.value == FinWait1)
      && (s.value == CloseWait ==> s'.value == LastAck)
      && (s.value in {Listen, SynSent} ==> s'.value == Closed)
      && (Winding(s.value) ==> w' == w)
  {
    hide Occupied;
    StreamLookup(w, i);
  }

  lemma AbortGives(w: World, i: nat, w': World)
    requires Inv(w) && i < |w.streams| && DoAbort(w, i) == Some(w')
    ensures StateOf(w', w.streams[i]) == Some(Closed) && w'.streams == w.streams
  {
    hide Occupied;
    StreamLookup(w, i);
  }

  /**
   * Dropping a stream. A finished socket's slot is free at once. A closing one
   * keeps its state, and any other is aborted; both keep their slot and wait on
   * the orphan list for an egress pass.
   */
  lemma DropGives(w: World, i: nat, w': World)
    requires Inv(w) && i < |w.streams| && DoDropStream(w, i) == Some(w')
    ensures
      var c := w.streams[i];
      var s := StateOf(w, c);
      && s.Some? && w'.streams == w.streams[..i] + w.streams[i + 1..]
      && (if s.value == Closed || s.value == TimeWait then
            w'.orphans == w.orphans && c.handle < |w'.sockets| && w'.sockets[c.handle].None?
          else
            && w'.orphans == w.orphans + [Orphan(c, false)] && Holds(w'.sockets, c)
            && StateOf(w', c) ==
               if s.value in {FinWait1, FinWait2, Closing, LastAck} then s else Some(Closed))
  {
    hide Occupied;
    StreamLookup(w, i);
  }

  /** The listener's sockets are gone, whatever their state. */
  lemma DropListenerGives(w: World, l: nat, w': World)
    requires Inv(w) && l < |w.listeners| && DoDropListener(w, l) == Some(w')
    ensures w'.listeners == w.listeners[..l] + w.listeners[l + 1..] && w'.streams == w.streams
    ensures |w'.sockets| == |w.sockets|
    ensures forall c | c in w.listeners[l].backlog :: c.handle < |w'.sockets| && w'.sockets[c.handle].None?
  {
    hide Inv, Occupied, RemoveAll;
    var cs := w.listeners[l].backlog;
    RemoveAllOnly(w.sockets, cs);
    forall c | c in cs ensures c.handle < |w'.sockets| && w'.sockets[c.handle].None? {
      BacklogHas(w.listeners, l, c);
      OwnedHolds(w, c);
      RemovedGone(w.sockets, cs, c);
    }
  }

  lemma {:induction false} RemovedGone(t: Table, cs: seq<Claim>, c: Claim)
    requires c in cs && RemoveAll(t, cs).Some? && c.handle < |t|
    ensures
      var t' := RemoveAll(t, cs).value;
      |t'| == |t| && t'[c.handle].None?
    decreases |cs|
  {
    RemoveAllOnly(t, cs);
    var t1 := Remove(t, cs[0].handle);
    if c in cs[1..] {
      RemovedGone(t1, cs[1..], c);
    } else {
      RemoveAllOnly(t1, cs[1..]);
    }
  }

  lemma DropUdpGives(w: World, i: nat, w': World)
    requires Inv(w) && i < |w.udps| && DoDropUdp(w, i) == Some(w')
    ensures w'.udps == w.udps[..i] + w.udps[i + 1..]
    ensures w.udps[i].handle < |w'.sockets| && w'.sockets[w.udps[i].handle].None?
  {
  }

  // ---- The network ----

  /** The connection can go the way of section 3.3.2 of RFC 9293, from either end. */
  lemma NetworkArrows()
    ensures NetMay(Listen, SynReceived) && NetMay(SynReceived, Established) && NetMay(Established, CloseWait)
    ensures NetMay(SynSent, Established) && NetMay(SynSent, SynReceived) && NetMay(SynReceived, CloseWait)
    ensures NetMay(FinWait1, FinWait2) && NetMay(FinWait2, TimeWait) && NetMay(FinWait1, TimeWait)
    ensures NetMay(FinWait1, Closing) && NetMay(Closing, TimeWait) && NetMay(SynReceived, Listen)
    ensures forall s :: NetMay(s, s) && NetMay(s, Closed)
  {
  }

  /** No packet opens a connection or closes our side of one, and none brings a closed socket back. */
  lemma NetworkOnly(s: State, s': State)
    requires NetMay(s, s') && s' != s
    ensures s' !in {SynSent, FinWait1, LastAck} && (s' == Listen ==> s == SynReceived)
    ensures s' == Established ==> s in {SynSent, SynReceived}
    ensures s != Closed
    ensures s' == CloseWait ==> s in {SynReceived, Established}
    ensures s' == TimeWait ==> s in {FinWait1, FinWait2, Closing}
  {
  }

  // ---- Over runs ----

  lemma StaysClosed(w: World, a: Action, batch: nat, w': World, o: Orphan)
    requires Inv(w) && Enabled(w, a, batch) && !a.Egress? && Step(w, a, batch) == Some(w')
    requires o in w.orphans && !o.flushed && Holds(w'.sockets, o.claim)
    requires TcpState(w.sockets, o.claim.handle) == Some(Closed)
    ensures TcpState(w'.sockets, o.claim.handle) == Some(Closed)
  {
    hide Place, AddListening, RemoveAll, Sweep, FirstEstablished, AllTcp, Occupied, Touched;
    var j :| 0 <= j < |w.orphans| && w.orphans[j] == o;
    if !a.Ingest? {
      NotTouched(w, a, batch, j);
      Isolated(w, a, batch, w', o.claim.handle);
    }
  }

  /** An orphan that has not been flushed is nobody else's and not yet cleaned up. */
  lemma NotTouched(w: World, a: Action, batch: nat, j: nat)
    requires Inv(w) && Enabled(w, a, batch) && j < |w.orphans| && !w.orphans[j].flushed
    ensures w.orphans[j].claim.handle !in Touched(w, a, batch)
    ensures w.orphans[j].claim.handle < |w.sockets| && w.sockets[w.orphans[j].claim.handle].Some?
  {
    hide Occupied, FinishedAt;
    var h := w.orphans[j].claim.handle;
    OrphanHas(w.orphans, j);
    OwnedHolds(w, w.orphans[j].claim);
    HoldsSome(w.sockets, w.orphans[j].claim);
    match a
    case CloseStream(i) => StreamNotOrphan(w, i, j);
    case AbortStream(i) => StreamNotOrphan(w, i, j);
    case DropStream(i) => StreamNotOrphan(w, i, j);
    case DropUdp(i) => UdpNotOrphan(w, i, j);
    case DropListener(l) =>
      forall c | c in w.listeners[l].backlog ensures c.handle != h {
        BacklogNotOrphan(w, l, c, j);
      }
    case _ =>
  }

  lemma {:induction false} ClosedUntilEgress(w: World, actions: seq<Action>, batch: nat, last: World, o: Orphan)
    requires Inv(w) && Runs(w, actions, batch, Some(last))
    requires forall i | 0 <= i < |actions| :: !actions[i].Egress?
    requires o in w.orphans && !o.flushed && TcpState(w.sockets, o.claim.handle) == Some(Closed)
    ensures o in last.orphans && StateOf(last, o.claim) == Some(Closed)
    decreases |actions|
  {
    hide Inv, Step, Enabled;
    OrphanWaitsForEgress(w, actions, batch, last, o);
    if actions != [] {
      var w' := Step(w, actions[0], batch).value;
      StepInv(w, actions[0], batch);
      OrphanStays(w, actions[0], batch, w', o);
      OrphanWaitsForEgress(w', [], batch, w', o);
      StaysClosed(w, actions[0], batch, w', o);
      ClosedUntilEgress(w', actions[1..], batch, last, o);
    }
  }

  /**
   * A live stream that is dropped keeps its slot, aborted or closing, along every
   * run up to the next egress pass: its reset or its FIN can be sent.
   */
  lemma DroppedWaits(w: World, i: nat, dropped: World, actions: seq<Action>, batch: nat, last: World)
    requires Inv(w) && w.phase.Yielded? && i < |w.streams| && DoDropStream(w, i) == Some(dropped)
    requires TcpState(w.sockets, w.streams[i].handle).Some?
    requires !Finished(TcpState(w.sockets, w.streams[i].handle).value)
    requires Runs(dropped, actions, batch, Some(last))
    requires forall k | 0 <= k < |actions| :: !actions[k].Egress?
    ensures
      var c := w.streams[i];
      && Orphan(c, false) in last.orphans && Holds(last.sockets, c)
      && StateOf(last, c).Some? && Winding(StateOf(last, c).value)
      && (!Winding(TcpState(w.sockets, c.handle).value) ==> StateOf(last, c) == Some(Closed))
  {
    hide Occupied, Owned, Runs, DoDropStream;
    var c := w.streams[i];
    DropGives(w, i, dropped);
    DropStreamInv(w, i);
    StreamLookup(w, i);
    var o := Orphan(c, false);
    OrphanWaitsForEgress(dropped, actions, batch, last, o);
    RunSafe(dropped, actions, batch, Some(last));
    var j :| 0 <= j < |last.orphans| && last.orphans[j] == o;
    if !Winding(TcpState(w.sockets, c.handle).value) {
      ClosedUntilEgress(dropped, actions, batch, last, o);
    }
  }
}
