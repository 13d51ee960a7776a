/** Whole runs of a device: what no sequence of events does, and what one does. */
module DeviceRuns {
  import opened Bytes
  import opened ArpCache
  import opened PacketBuffers
  import opened Device
  import A = ArpShare

  /** What may be done to a device, or happen to it. */
  datatype Step =
    | Poll(others: seq<A.Action>)
    | Arrive(data: seq<byte>)
    | Sent(mbuf: nat)
    | AskToken
    | SendFrame(data: seq<byte>)
    | InjectFrame(data: seq<byte>)
    | Consume(token: nat)

  /** The event is what the step leads to. */
  predicate Matches(step: Step, e: Event) {
    match step
    case Poll(others) => e.OnReceive? && e.others == others
    case Arrive(data) => e.OnArrival? && e.data == data
    case Sent(m) => e == OnSendDone(m)
    case AskToken => e.OnTransmit?
    case SendFrame(data) => e.OnConsumeTx? && e.data == data
    case InjectFrame(data) => e.OnInject? && e.data == data
    case Consume(_) => e.OnConsumeRx?
  }

  /** The calls made are the steps taken, except that no token may be there to consume. */
  predicate Taken(steps: seq<Step>, calls: seq<Event>)
    decreases |steps|
  {
    if steps == [] then calls == []
    else
      var last := steps[|steps| - 1];
      var before := steps[..|steps| - 1];
      || (last.Consume? && Taken(before, calls))
      || (calls != [] && Matches(last, calls[|calls| - 1]) && Taken(before, calls[..|calls| - 1]))
  }

  lemma TakenMore(steps: seq<Step>, i: nat, calls: seq<Event>, e: Event)
    requires i < |steps| && Taken(steps[..i], calls)
    ensures Matches(steps[i], e) ==> Taken(steps[..i + 1], calls + [e])
    ensures steps[i].Consume? ==> Taken(steps[..i + 1], calls)
  {
    assert steps[..i + 1][..i] == steps[..i];
    assert (calls + [e])[..|calls|] == calls;
  }

  /**
   * While the shared map has more entries than a batch has places, no sequence of
   * steps ever brings the queue up to a new version.
   */
  method NeverCatchesUp(d: DpdkDevice, tokens: seq<Packet>, steps: seq<Step>) returns (ghost calls: seq<Event>)
    requires d.Valid() && d.queue != 0 && |d.cache.world.cache.Keys| > RX_CAPACITY
    requires Ids(tokens) == d.lent
    modifies d, d.pool, d.nic, d.cache
    ensures d.Valid() && d.lastVersion == old(d.lastVersion)
    ensures |d.cache.world.cache.Keys| > RX_CAPACITY
    ensures d.calls == old(d.calls) + calls && Taken(steps, calls)
  {
    hide Ids, Device.Stuck, Flushed, Taken, Matches;
    var held := tokens;
    calls := [];
    NothingTaken(steps);
    for i := 0 to |steps|
      invariant d.Valid() && d.lastVersion == old(d.lastVersion) && Ids(held) == d.lent
      invariant |d.cache.world.cache.Keys| > RX_CAPACITY
      invariant d.calls == old(d.calls) + calls && Taken(steps[..i], calls)
    {
      ghost var last;
      held, last := Take(d, held, steps[i]);
      calls := Recorded(old(d.calls), steps, i, calls, last);
    }
    assert steps[..|steps|] == steps;
  }

  lemma NothingTaken(steps: seq<Step>)
    ensures Taken(steps[..0], [])
  {
  }

  lemma Recorded(start: seq<Event>, steps: seq<Step>, i: nat, calls: seq<Event>, last: seq<Event>)
    returns (calls': seq<Event>)
    requires i < |steps| && Taken(steps[..i], calls)
    requires if last == [] then steps[i].Consume? else |last| == 1 && Matches(steps[i], last[0])
    ensures calls' == calls + last && Taken(steps[..i + 1], calls')
    ensures start + calls + last == start + calls'
  {
    hide Taken, Matches;
    calls' := calls + last;
    if last == [] {
      TakenMore(steps, i, calls, OnTransmit(true));
      assert calls + [] == calls;
    } else {
      TakenMore(steps, i, calls, last[0]);
      assert last == [last[0]];
    }
  }

  /** One step: the map keeps its addresses, and while they are too many the version stays. */
  method Take(d: DpdkDevice, tokens: seq<Packet>, step: Step) returns (held: seq<Packet>, ghost last: seq<Event>)
    requires d.Valid() && d.queue != 0 && Ids(tokens) == d.lent && |d.cache.world.cache.Keys| > RX_CAPACITY
    modifies d, d.pool, d.nic, d.cache
    ensures d.Valid() && d.lastVersion == old(d.lastVersion) && Ids(held) == d.lent
    ensures |d.cache.world.cache.Keys| > RX_CAPACITY
    ensures d.calls == old(d.calls) + last
    ensures if last == [] then step.Consume? else |last| == 1 && Matches(step, last[0])
    ensures last == [] ==> step.token >= |tokens|
  {
    hide DpdkDevice.Buffers, DpdkDevice.Batches, DpdkDevice.Linked, Ids, OnlyMoves, Ready, Flushed, MemPool.Fills;
    held := tokens;
    match step
    case Poll(others) =>
      var token;
      token, last := TakePoll(d, others);
      if token.Some? {
        IdsAppend(held, [token.value]);
        IdsOne(token.value);
        held := held + [token.value];
      }
    case Arrive(data) =>
      var ok := d.Arrival(data);
      last := [OnArrival(data, ok)];
    case Sent(m) =>
      d.SendDone(m);
      last := [OnSendDone(m)];
    case AskToken =>
      var token := d.Transmit();
      last := [OnTransmit(token)];
    case SendFrame(data) =>
      var r := d.ConsumeTx(data);
      last := [OnConsumeTx(data, r)];
    case InjectFrame(data) =>
      var ok := d.InjectRxPacket(data);
      last := [OnInject(data, ok)];
    case Consume(k) =>
      last := [];
      if k < |held| {
        held, last := TakeToken(d, held, k);
      }
  }

  method TakeToken(d: DpdkDevice, tokens: seq<Packet>, k: nat) returns (held: seq<Packet>, ghost last: seq<Event>)
    requires d.Valid() && Ids(tokens) == d.lent && k < |tokens|
    modifies d`calls, d`lent, d.pool`free, d.pool`owner
    ensures d.Valid() && Ids(held) == d.lent
    ensures last == [OnConsumeRx(tokens[k].mbuf)] && d.calls == old(d.calls) + last
  {
    hide DpdkDevice.Buffers, DpdkDevice.Batches, DpdkDevice.Linked, Ids, OnlyMoves;
    IdsWithout(tokens, k);
    d.ConsumeRx(tokens[k]);
    last := [OnConsumeRx(tokens[k].mbuf)];
    held := tokens[..k] + tokens[k + 1..];
  }

  method TakePoll(d: DpdkDevice, others: seq<A.Action>) returns (token: Option<Packet>, ghost last: seq<Event>)
    requires d.Valid() && d.queue != 0 && |d.cache.world.cache.Keys| > RX_CAPACITY
    modifies d, d.pool, d.nic, d.cache
    ensures d.Valid() && d.lastVersion == old(d.lastVersion)
    ensures |d.cache.world.cache.Keys| > RX_CAPACITY
    ensures last == [OnReceive(others, token.Some?)] && d.calls == old(d.calls) + last
    ensures d.lent == old(d.lent) + if token.Some? then multiset{token.value.mbuf} else multiset{}
  {
    hide RxHistory, Ids, HeldBy, OnlyMoves, A.Inv, Ready, Packets, CacheCall, Flushed, Polled, MemPool.Fills;
    ghost var w, polled, fills := d.cache.world, Polled(d.rx, d.nic), d.pool.Fills(ARP_FRAME);
    var hasRoom;
    ghost var n, snapshot, meanwhile;
    token, hasRoom, n, snapshot, meanwhile := d.Receive(others);
    last := [OnReceive(others, token.Some?)];
    CallBehind(d.queue, d.order, w, d.cache.world, old(d.lastVersion), d.lastVersion, RX_CAPACITY - |polled|, fills, n,
               snapshot, meanwhile);
    SubsetSize(w.cache.Keys, d.cache.world.cache.Keys);
  }

  lemma IdsWithout(ps: seq<Packet>, k: nat)
    requires k < |ps|
    ensures ps[k].mbuf in Ids(ps)
    ensures Ids(ps[..k] + ps[k + 1..]) == Ids(ps) - multiset{ps[k].mbuf}
  {
    IdsSplit(ps, k);
    assert ps[k..] == [ps[k]] + ps[k + 1..];
    IdsAppend([ps[k]], ps[k + 1..]);
    IdsOne(ps[k]);
    IdsAppend(ps[..k], ps[k + 1..]);
    assert Ids(ps) == Ids(ps[..k] + ps[k + 1..]) + multiset{ps[k].mbuf};
  }

  /** Whatever one queue does, a second one on the same pool keeps its buffers. */
  method Neighbours(a: DpdkDevice, b: DpdkDevice, others: seq<A.Action>) returns (token: Option<Packet>)
    requires a != b && a.Valid() && b.Valid() && a.pool == b.pool && a.nic != b.nic && a.queue != b.queue
    modifies a, a.pool, a.nic, a.cache
    ensures a.Valid() && b.Buffers() && b.Batches()
    ensures a.calls == old(a.calls) + [OnReceive(others, token.Some?)] && b.calls == old(b.calls)
  {
    hide RxHistory, Ids, HeldBy, OnlyMoves, A.Inv, Ready, Packets;
    ghost var owner := a.pool.owner;
    var hasRoom;
    ghost var n, snapshot, meanwhile;
    token, hasRoom, n, snapshot, meanwhile := a.Receive(others);
    OthersKeep(owner, a.pool.owner, a.queue, b.queue);
  }

  /** `n` times a token and a frame queued. */
  function Queueing(n: nat): seq<Event> {
    if n == 0 then [] else Queueing(n - 1) + [OnTransmit(true), OnConsumeTx([], Queued)]
  }

  /** Frames sent while there is room stay in the batch. */
  method Fill(d: DpdkDevice)
    requires d.Valid() && d.tx == [] && d.pool.refusals == [] && |d.pool.free| >= TX_CAPACITY
    modifies d`calls, d`tx, d`sent, d`pushed, d.pool, d.nic`sending, d.nic`takes
    ensures d.Valid() && |d.tx| == TX_CAPACITY && d.nic.takes == old(d.nic.takes)
    ensures d.pool.refusals == [] && |d.pool.free| == |old(d.pool.free)| - TX_CAPACITY
    ensures d.calls == old(d.calls) + Queueing(TX_CAPACITY)
  {
    hide DpdkDevice.Buffers, DpdkDevice.Batches, DpdkDevice.Linked, OnlyMoves, Ready, Flushed;
    for i := 0 to TX_CAPACITY
      invariant d.Valid() && |d.tx| == i && d.nic.takes == old(d.nic.takes)
      invariant d.pool.refusals == [] && |d.pool.free| == |old(d.pool.free)| - i
      invariant d.calls == old(d.calls) + Queueing(i)
    {
      ghost var calls := d.calls;
      var token := d.Transmit();
      ReadyAll(|d.pool.free|);
      var queued := d.ConsumeTx([]);
      assert d.calls == calls + [OnTransmit(true), OnConsumeTx([], Queued)];
      Assoc(old(d.calls), Queueing(i), [OnTransmit(true), OnConsumeTx([], Queued)]);
    }
  }

  function Panicking(): seq<Event> {
    [OnArrival([], true), OnReceive([], true), OnConsumeTx([], Panicked)]
  }

  /** With a full batch that the NIC leaves alone, the token of the next received packet panics. */
  method PanicsNext(d: DpdkDevice)
    requires d.Valid() && d.queue != 0 && d.cache.world.version == d.lastVersion
    requires |d.tx| == TX_CAPACITY && d.nic.takes == [0] && d.nic.bursts == []
    requires d.pool.refusals == [] && |d.pool.free| >= 2
    modifies d, d.pool, d.nic, d.cache
    ensures d.calls == old(d.calls) + Panicking()
  {
    hide DpdkDevice.Buffers, DpdkDevice.Batches, DpdkDevice.Linked, OnlyMoves, A.Inv, Ready, Lists, CacheCall, Flushed,
         MemPool.Fills;
    ReadyAll(|d.pool.free|);
    var arrived := d.Arrival([]);
    ghost var w, last, polled, fills := d.cache.world, d.lastVersion, Polled(d.rx, d.nic), d.pool.Fills(ARP_FRAME);
    FlushedRoom(d.tx, d.nic.takes);
    var packet, hasRoom, n, snapshot, meanwhile := d.Receive([]);
    CallIdle(d.queue, d.order, w, d.cache.world, last, d.lastVersion, RX_CAPACITY - |polled|, fills, n, snapshot,
             meanwhile);
    ReadyAll(|d.pool.free|);
    var r := d.ConsumeTx([]);
    assert d.calls == old(d.calls) + Panicking();
  }

  /** A fresh device of queue 1 whose NIC takes nothing of the first transmission. */
  method FreshDevice(order: A.Cache -> seq<Ipv4>, ourMac: Mac, ourIp: Ipv4) returns (d: DpdkDevice)
    requires Lists(order)
    ensures fresh(d) && fresh(d.pool) && fresh(d.nic) && fresh(d.cache) && d.Valid() && d.calls == [] && d.tx == []
    ensures d.queue == 1 && d.cache.world.version == d.lastVersion && d.nic.takes == [0] && d.nic.bursts == []
    ensures d.pool.refusals == [] && |d.pool.free| == TX_CAPACITY + 2
  {
    hide DpdkDevice.Buffers, DpdkDevice.Batches, DpdkDevice.Linked, Lists, A.Inv;
    var pool := new MemPool(TX_CAPACITY + 2, ARP_FRAME, []);
    var nic := new NicQueue([], [0]);
    var cache := new A.SharedArpCache({1});
    IdsOne(Packet(0, []));
    d := new DpdkDevice(pool, nic, 1, cache, ourMac, ourIp, order);
  }

  /**
   * A run that reaches the panic, from a fresh device whose NIC once takes
   * nothing: 256 frames are queued, a packet arrives and is received, and its
   * token panics.
   */
  method ReachesPanic(order: A.Cache -> seq<Ipv4>, ourMac: Mac, ourIp: Ipv4) returns (d: DpdkDevice)
    requires Lists(order)
    ensures fresh(d) && d.calls == Queueing(TX_CAPACITY) + Panicking()
  {
    hide DpdkDevice.Buffers, DpdkDevice.Batches, DpdkDevice.Linked, Lists, Queueing, Panicking;
    d := FreshDevice(order, ourMac, ourIp);
    Fill(d);
    assert [] + Queueing(TX_CAPACITY) == Queueing(TX_CAPACITY);
    PanicsNext(d);
  }
}
