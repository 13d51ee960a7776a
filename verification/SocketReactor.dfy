/**
 * The reactor as the code runs it: a socket table and an orphan list updated in
 * place. Every lookup is proved to hit an occupied slot of the right kind, and
 * every method to do the step of `SocketSteps` that it implements.
 */
module SocketReactor {
  import opened Bytes
  import opened SocketModel
  import opened SocketSteps
  import opened SocketSafety

  function Handles(os: seq<Orphan>): seq<nat> {
    if os == [] then [] else [os[0].claim.handle] + Handles(os[1..])
  }

  lemma {:induction false} HandlesAt(os: seq<Orphan>)
    ensures |Handles(os)| == |os|
    ensures forall i | 0 <= i < |os| :: Handles(os)[i] == os[i].claim.handle
  {
    if os != [] {
      HandlesAt(os[1..]);
    }
  }

  lemma {:induction false} HandlesAppend(a: seq<Orphan>, b: seq<Orphan>)
    ensures Handles(a + b) == Handles(a) + Handles(b)
  {
    if a == [] {
      assert a + b == b;
    } else {
      assert (a + b)[1..] == a[1..] + b;
      HandlesAppend(a[1..], b);
    }
  }

  lemma {:induction false} HandlesFlushed(os: seq<Orphan>)
    ensures Handles(AllFlushed(os)) == Handles(os)
  {
    if os != [] {
      HandlesFlushed(os[1..]);
      assert AllFlushed(os)[1..] == AllFlushed(os[1..]);
    }
  }

  class ReactorInner {
    var sockets: Table
    var orphaned: seq<nat>
    /** The owners: which live objects hold which handles. */
    ghost var world: World

    ghost predicate Valid()
      reads this
    {
      Inv(world) && sockets == world.sockets && orphaned == Handles(world.orphans)
    }

    constructor ()
      ensures Valid() && world == Initial
    {
      sockets, orphaned := [], [];
      world := Initial;
      new;
      EveryRunSafe([], 0, Some(Initial));
    }

    /** `SocketSet::add`. */
    method Add(sock: Sock) returns (h: nat)
      modifies this`sockets
      ensures sockets == Place(old(sockets), sock) && h == FirstFree(old(sockets), 0)
    {
      h := 0;
      while h < |sockets| && sockets[h].Some?
        invariant h <= |sockets| && FirstFree(sockets, 0) == FirstFree(sockets, h)
      {
        h := h + 1;
      }
      sockets := if h < |sockets| then sockets[h := Some(sock)] else sockets + [Some(sock)];
    }

    /** `TcpStream::connect`; `ok` is smoltcp's answer, given before the socket joins the table. */
    method Connect(ok: bool, uid: nat) returns (h: Option<nat>)
      requires Valid() && world.phase.Yielded? && uid == world.next
      modifies this
      ensures Valid() && world == DoConnect(old(world), ok)
      ensures h == if ok then Some(FirstFree(old(sockets), 0)) else None
    {
      hide Inv;
      ConnectInv(world, ok);
      if !ok {
        return None;
      }
      var k := Add(Tcp(uid, SynSent));
      world := DoConnect(world, ok);
      return Some(k);
    }

    /** `TcpListener::bind_with_backlog`. A refused port is refused before any socket is added, so none leaks. */
    method BindWithBacklog(port: nat, backlog: nat, uid: nat) returns (handles: Option<seq<Claim>>)
      requires Valid() && world.phase.Yielded? && uid == world.next
      modifies this
      ensures Valid() && world == DoBind(old(world), port, backlog)
      ensures port == 0 <==> handles.None?
      ensures handles.Some? ==>
        world.listeners == old(world.listeners) + [Listener(port, |handles.value|, handles.value)]
    {
      hide Inv, Place, FirstFree;
      BindInv(world, port, backlog);
      var n := if backlog == 0 then 1 else backlog;
      var added := [];
      for i := 0 to n
        invariant (sockets, added) == AddListening(old(sockets), uid, i) && |added| == i
        invariant orphaned == old(orphaned) && world == old(world)
        invariant port == 0 ==> i == 0
      {
        if port == 0 {
          return None;
        }
        var h := Add(Tcp(uid + i, Listen));
        added := added + [Claim(h, uid + i, true)];
      }
      world := DoBind(world, port, backlog);
      return Some(added);
    }

    /**
     * `AcceptFuture::poll` for listener `l`: the first established socket becomes
     * a stream and a new listening socket takes its place. Without one it fails
     * exactly when every socket of the backlog is dead.
     */
    method Accept(handles: seq<Claim>, uid: nat, ghost l: nat) returns (r: Accepted, handles': seq<Claim>)
      requires Valid() && world.phase.Yielded? && uid == world.next
      requires l < |world.listeners| && handles == world.listeners[l].backlog
      modifies this
      ensures Valid() && DoAccept(old(world), l) == Some(world)
      ensures |handles'| == |handles| && l < |world.listeners| && world.listeners[l].backlog == handles'
      ensures r.Stream? <==> exists i | 0 <= i < |handles| :: TcpState(old(sockets), handles[i].handle) == Some(Established)
      ensures r.Stream? ==> world.streams == old(world.streams) + [r.claim]
      ensures r.Unaddressable? <==>
        forall c | c in handles :: TcpState(old(sockets), c.handle) in {Some(Closed), Some(TimeWait)}
      ensures !r.Stream? ==> world == old(world)
    {
      hide Inv, Place, FirstFree;
      BacklogLookups(world, l);
      AcceptInv(world, l);
      var k := 0;
      while k < |handles| && sockets[handles[k].handle].value.state != Established
        invariant k <= |handles|
        invariant FirstEstablished(sockets, handles, 0) == FirstEstablished(sockets, handles, k)
      {
        k := k + 1;
      }
      BacklogNotEmpty(world, l);
      if k == |handles| {
        var dead := CheckDead(handles);
        assert forall i | 0 <= i < |handles| :: handles[i] in handles;
        return if dead then Unaddressable else Waiting, handles;
      }
      assert TcpState(sockets, handles[k].handle) == Some(Established);
      ghost var w' := DoAccept(world, l).value;
      var h := Add(Tcp(uid, Listen));
      world := w';
      return Stream(handles[k]), handles[k := Claim(h, uid, true)];
    }

    method CheckDead(handles: seq<Claim>) returns (dead: bool)
      requires AllTcp(sockets, handles)
      ensures dead <==> AllDead(sockets, handles)
    {
      for i := 0 to |handles|
        invariant forall j | 0 <= j < i :: DeadAt(sockets, handles[j].handle)
      {
        var state := sockets[handles[i].handle].value.state;
        if state != Closed && state != TimeWait {
          assert !DeadAt(sockets, handles[i].handle);
          return false;
        }
      }
      return true;
    }

    /** `Drop for TcpStream`, for the stream at position `i` of the live ones. */
    method DropStream(h: nat, ghost i: nat)
      requires Valid() && world.phase.Yielded?
      requires i < |world.streams| && h == world.streams[i].handle
      modifies this
      ensures Valid() && DoDropStream(old(world), i) == Some(world)
    {
      hide Inv, Without;
      StreamLookup(world, i);
      DropStreamInv(world, i);
      HandlesAppend(world.orphans, [Orphan(world.streams[i], false)]);
      ghost var w' := DoDropStream(world, i).value;
      var state := sockets[h].value.state;
      if state == Closed || state == TimeWait {
        sockets := sockets[h := None];
      } else if state == FinWait1 || state == FinWait2 || state == Closing || state == LastAck {
        orphaned := orphaned + [h];
      } else {
        sockets := sockets[h := Some(sockets[h].value.(state := Closed))];
        orphaned := orphaned + [h];
      }
      world := w';
    }

    /** `Drop for TcpListener`. */
    method DropListener(handles: seq<Claim>, ghost l: nat)
      requires Valid() && world.phase.Yielded?
      requires l < |world.listeners| && handles == world.listeners[l].backlog
      modifies this
      ensures Valid() && DoDropListener(old(world), l) == Some(world)
    {
      hide Inv, Without;
      DropListenerInv(world, l);
      ghost var all := RemoveAll(sockets, handles);
      for i := 0 to |handles|
        invariant RemoveAll(sockets, handles[i..]) == all && all.Some?
        invariant orphaned == old(orphaned) && world == old(world)
      {
        var h := handles[i].handle;
        assert handles[i..][0] == handles[i] && handles[i..][1..] == handles[i + 1..];
        ghost var before := sockets;
        if sockets[h].value.state != Closed {
          sockets := sockets[h := Some(sockets[h].value.(state := Closed))];
        }
        sockets := sockets[h := None];
        assert sockets == Remove(before, h);
      }
      world := DoDropListener(world, l).value;
    }

    /** `Drop for UdpSocket`. */
    method DropUdp(h: nat, ghost i: nat)
      requires Valid() && world.phase.Yielded?
      requires i < |world.udps| && h == world.udps[i].handle
      modifies this
      ensures Valid() && DoDropUdp(old(world), i) == Some(world)
    {
      hide Inv, Without;
      DropUdpInv(world, i);
      sockets := sockets[h := None];
      world := DoDropUdp(world, i).value;
    }

    /** `cleanup_orphaned`: `retain` over the list, removing finished sockets on the way. */
    method CleanupOrphaned()
      requires Valid() && world.phase.Flushed?
      modifies this
      ensures Valid() && DoCleanup(old(world)) == Some(world)
    {
      hide Inv, Resumes, Sweep, Handles;
      CleanupInv(world);
      HandlesAt(world.orphans);
      ghost var os := world.orphans;
      ghost var whole := Sweep(sockets, os);
      ghost var keptOrphans := [];
      var kept := [];
      SweepStarts(sockets, os);
      for i := 0 to |orphaned|
        invariant orphaned == old(orphaned) && world == old(world)
        invariant kept == Handles(keptOrphans)
        invariant Resumes(whole, Sweep(sockets, os[i..]), keptOrphans)
      {
        var h := orphaned[i];
        SweepContinues(whole, sockets, os, i, keptOrphans);
        var state := sockets[h].value.state;
        if state == Closed || state == TimeWait {
          sockets := sockets[h := None];
        } else {
          HandlesAppend(keptOrphans, [os[i]]);
          HandlesAt([os[i]]);
          assert Handles([os[i]]) == [h];
          kept := kept + [h];
          keptOrphans := keptOrphans + [os[i]];
        }
      }
      SweepEnds(whole, sockets, os, keptOrphans);
      orphaned := kept;
      world := DoCleanup(world).value;
    }

    /** smoltcp's `poll_ingress_single`: whether a packet was processed; sockets may change state. */
    method PollIngress(batch: nat) returns (packet: bool)
      requires Valid() && world.phase.Ingesting?
      modifies this
      ensures Valid() && Takes(old(world), Ingest(packet, sockets), batch, world)
    {
      hide Inv;
      packet :| true;
      NetRemains(sockets);
      StepInv(world, Ingest(packet, sockets), batch);
      world := Step(world, Ingest(packet, sockets), batch).value;
    }

    /** smoltcp's `poll_egress`. */
    method PollEgress(batch: nat)
      requires Valid() && world.phase.Ingested?
      modifies this
      ensures Valid() && Takes(old(world), Egress(sockets), batch, world) && world.phase.Flushed?
    {
      hide Inv;
      NetRemains(sockets);
      HandlesFlushed(world.orphans);
      StepInv(world, Egress(sockets), batch);
      world := Step(world, Egress(sockets), batch).value;
    }

    /**
     * One turn of `run_with_batch_size`: the run from one yield to the next.
     * Packets are taken until there is none or the batch limit is reached; then
     * come one egress pass and one cleanup.
     */
    method Turn(batch: nat) returns (ingested: nat, ghost polls: seq<Action>, ghost net: Table)
      requires Valid() && world.phase.Yielded?
      modifies this
      ensures Valid() && world.phase.Yielded?
      ensures Runs(old(world), [Start] + polls + [Egress(net)] + [Cleanup], batch, Some(world))
      ensures polls != [] && forall a | a in polls :: a.Ingest?
      ensures ingested == Packets(polls) <= AtLeastOne(batch)
      ensures polls[|polls| - 1].packet ==> ingested == AtLeastOne(batch)
      ensures forall o | o in world.orphans :: o.flushed
    {
      hide Inv, DoCleanup, Runs, Step, Enabled;
      ghost var w := world;
      StartTaken(world, batch);
      world := Step(world, Start, batch).value;
      RunsStart(w, world, batch);
      ingested, net, polls := Poll(batch, w);
      ghost var acts, mid := [Start] + polls, world;
      PollEgress(batch);
      net := sockets;
      RunsThen(w, acts, batch, mid, Egress(net), world);
      mid := world;
      CleanupOrphaned();
      CleanedUp(mid, world);
      CleanupTaken(mid, batch, world);
      RunsThen(w, acts + [Egress(net)], batch, mid, Cleanup, world);
    }

    /** The inner loop: `poll_ingress_single` until there is no packet or the batch is full. */
    method Poll(batch: nat, ghost w: World) returns (ingested: nat, ghost net: Table, ghost polls: seq<Action>)
      requires Valid() && world.phase == Ingesting(0) && Runs(w, [Start], batch, Some(world))
      modifies this
      ensures Valid() && world.phase.Ingested? && Runs(w, [Start] + polls, batch, Some(world))
      ensures polls != [] && forall a | a in polls :: a.Ingest?
      ensures ingested == Packets(polls) <= AtLeastOne(batch)
      ensures polls[|polls| - 1].packet ==> ingested == AtLeastOne(batch)
    {
      hide Inv, Runs;
      ingested, polls, net := 0, [], sockets;
      assert [Start] + [] == [Start];
      while true
        invariant Valid() && world.phase == Ingesting(ingested) && Runs(w, [Start] + polls, batch, Some(world))
        invariant ingested == Packets(polls) < AtLeastOne(batch)
        invariant forall a | a in polls :: a.Ingest?
        decreases AtLeastOne(batch) - ingested
      {
        ghost var mid := world;
        var packet := PollIngress(batch);
        ghost var a := Ingest(packet, sockets);
        RunsThen(w, [Start] + polls, batch, mid, a, world);
        Assoc([Start], polls, [a]);
        PacketsThen(polls, a);
        polls := polls + [a];
        if !packet {
          break;
        }
        ingested := ingested + 1;
        if ingested >= batch {
          break;
        }
      }
    }
  }

  datatype Accepted = Stream(claim: Claim) | Waiting | Unaddressable

  predicate DeadAt(t: Table, h: nat) {
    TcpState(t, h) in {Some(Closed), Some(TimeWait)}
  }

  predicate AllDead(t: Table, handles: seq<Claim>) {
    forall i | 0 <= i < |handles| :: DeadAt(t, handles[i].handle)
  }

  lemma BacklogNotEmpty(w: World, l: nat)
    requires Inv(w) && l < |w.listeners|
    ensures w.listeners[l].backlog != []
  {
    assert BacklogOk(w.listeners[l]);
  }

  /** The step was possible and led there. */
  ghost predicate Takes(w: World, a: Action, batch: nat, w': World) {
    Enabled(w, a, batch) && Step(w, a, batch) == Some(w')
  }

  /** A network pass may also change nothing. */
  lemma NetRemains(t: Table)
    ensures TableMay(t, t)
  {
  }

  lemma StartTaken(w: World, batch: nat)
    requires Inv(w) && w.phase.Yielded?
    ensures Enabled(w, Start, batch) && Step(w, Start, batch) == Some(w.(phase := Ingesting(0)))
    ensures Inv(w.(phase := Ingesting(0)))
  {
    PhaseInv(w, Ingesting(0));
  }

  lemma RunsStart(w: World, w': World, batch: nat)
    requires Takes(w, Start, batch, w')
    ensures Runs(w, [Start], batch, Some(w'))
  {
    assert [Start][1..] == [];
  }

  lemma CleanupTaken(w: World, batch: nat, w': World)
    requires w.phase.Flushed? && DoCleanup(w) == Some(w')
    ensures Takes(w, Cleanup, batch, w')
  {
  }

  lemma {:induction false} PacketsThen(acts: seq<Action>, a: Action)
    ensures Packets(acts + [a]) == Packets(acts) + if a.Ingest? && a.packet then 1 else 0
  {
    if acts == [] {
      assert acts + [a] == [a] && [a][1..] == [];
    } else {
      assert (acts + [a])[1..] == acts[1..] + [a];
      PacketsThen(acts[1..], a);
    }
  }

  lemma {:induction false} RunsThen(w: World, acts: seq<Action>, batch: nat, mid: World, a: Action, last: World)
    requires Runs(w, acts, batch, Some(mid)) && Takes(mid, a, batch, last)
    ensures Runs(w, acts + [a], batch, Some(last))
    decreases |acts|
  {
    if acts == [] {
      assert acts + [a] == [a] && [a][1..] == [];
    } else {
      assert (acts + [a])[0] == acts[0] && (acts + [a])[1..] == acts[1..] + [a];
      RunsThen(Step(w, acts[0], batch).value, acts[1..], batch, mid, a, last);
    }
  }

  lemma PhaseInv(w: World, p: Phase)
    requires Inv(w) && !p.Flushed?
    ensures Inv(w.(phase := p))
  {
    assert Owned(w.(phase := p)) == Owned(w);
  }

  lemma CleanedUp(w: World, w': World)
    requires Inv(w) && w.phase.Flushed? && DoCleanup(w) == Some(w')
    ensures w'.phase.Yielded?
    ensures w'.streams == w.streams && w'.listeners == w.listeners && w'.udps == w.udps
    ensures forall o | o in w'.orphans :: o.flushed
  {
    CleanupInv(w);
    UnfinishedAre(w.sockets, w.orphans);
  }

  /** A sweep that has kept some orphans and has the rest before it. */
  predicate Resumes(
    whole: Option<(Table, seq<Orphan>)>, rest: Option<(Table, seq<Orphan>)>, kept: seq<Orphan>)
  {
    whole.Some? && rest.Some? && whole.value.0 == rest.value.0 && whole.value.1 == kept + rest.value.1
  }

  lemma SweepStarts(t: Table, os: seq<Orphan>)
    requires Sweep(t, os).Some?
    ensures Resumes(Sweep(t, os), Sweep(t, os[0..]), []) && Handles([]) == []
  {
    assert os[0..] == os;
  }

  lemma SweepContinues(
    whole: Option<(Table, seq<Orphan>)>, t: Table, os: seq<Orphan>, i: nat, kept: seq<Orphan>)
    requires i < |os| && Resumes(whole, Sweep(t, os[i..]), kept)
    ensures
      var h := os[i].claim.handle;
      && TcpState(t, h).Some?
      && (if Finished(TcpState(t, h).value) then Resumes(whole, Sweep(t[h := None], os[i + 1..]), kept)
          else Resumes(whole, Sweep(t, os[i + 1..]), kept + [os[i]]))
  {
    assert os[i..][0] == os[i] && os[i..][1..] == os[i + 1..];
    var h := os[i].claim.handle;
    if TcpState(t, h).Some? && !Finished(TcpState(t, h).value) && Sweep(t, os[i + 1..]).Some? {
      Assoc(kept, [os[i]], Sweep(t, os[i + 1..]).value.1);
    }
  }

  lemma SweepEnds(whole: Option<(Table, seq<Orphan>)>, t: Table, os: seq<Orphan>, kept: seq<Orphan>)
    requires Resumes(whole, Sweep(t, os[|os|..]), kept)
    ensures whole == Some((t, kept))
  {
    assert kept + [] == kept;
  }
}
