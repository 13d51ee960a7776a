/**
 * `DpdkDevice`: batches of packet buffers between a NIC queue, a shared memory
 * pool and the network stack. Who owns each buffer, in which order frames leave,
 * and in which order they are delivered, as invariants that every method keeps.
 */
module Device {
  import opened Bytes
  import opened ArpCache
  import opened PacketBuffers
  import A = ArpShare

  const RX_CAPACITY: nat := 64
  const TX_CAPACITY: nat := 256
  const MAX_BURST_SIZE: nat := 64

  // ---- Delivery order ----

  /** A frame of the receive side's history: the how-manieth it is, and its hardware burst; injected ones have none. */
  datatype Frame = Frame(packet: Packet, serial: nat, burst: Option<nat>)

  function Packets(fs: seq<Frame>): (r: seq<Packet>)
    ensures |r| == |fs| && forall i | 0 <= i < |fs| :: r[i] == fs[i].packet
  {
    seq(|fs|, i requires 0 <= i < |fs| => fs[i].packet)
  }

  /** Hardware frames come out in the order of their bursts. */
  ghost predicate BurstOrdered(fs: seq<Frame>) {
    forall i, j | 0 <= i < j < |fs| && fs[i].burst.Some? && fs[j].burst.Some? ::
      fs[i].burst.value <= fs[j].burst.value
  }

  ghost predicate UpTo(fs: seq<Frame>, burst: nat) {
    forall i | 0 <= i < |fs| && fs[i].burst.Some? :: fs[i].burst.value <= burst
  }

  ghost predicate OfBurst(fs: seq<Frame>, burst: nat) {
    forall i | 0 <= i < |fs| && fs[i].burst.Some? :: fs[i].burst.value == burst
  }

  ghost predicate Numbered(fs: seq<Frame>) {
    forall i | 0 <= i < |fs| :: fs[i].serial == i
  }

  /** The history of the receive side: what came in is what was delivered and what is still in the batch. */
  ghost predicate RxHistory(received: seq<Frame>, delivered: seq<Frame>, waiting: seq<Frame>, burst: nat) {
    && Numbered(received)
    && multiset(delivered) + multiset(waiting) == multiset(received)
    && BurstOrdered(delivered) && UpTo(delivered, burst) && OfBurst(waiting, burst)
  }

  /** New frames of the current burst, or injected ones, join the batch. */
  lemma HistoryAppend(
    received: seq<Frame>, delivered: seq<Frame>, waiting: seq<Frame>, burst: nat, more: seq<Frame>)
    requires RxHistory(received, delivered, waiting, burst) && OfBurst(more, burst)
    requires forall i | 0 <= i < |more| :: more[i].serial == |received| + i
    ensures RxHistory(received + more, delivered, waiting + more, burst)
  {
    assert multiset(waiting + more) == multiset(waiting) + multiset(more);
  }

  /** The frame at the back of the batch is delivered. */
  lemma HistoryPop(received: seq<Frame>, delivered: seq<Frame>, waiting: seq<Frame>, burst: nat)
    requires RxHistory(received, delivered, waiting, burst) && waiting != []
    ensures RxHistory(received, delivered + [waiting[|waiting| - 1]], waiting[..|waiting| - 1], burst)
  {
    var n := |waiting| - 1;
    assert waiting == waiting[..n] + [waiting[n]];
    assert multiset(waiting) == multiset(waiting[..n]) + multiset{waiting[n]};
  }

  /** Every frame received is in the batch or delivered, and none is delivered twice. */
  lemma DeliveredOnce(received: seq<Frame>, delivered: seq<Frame>, waiting: seq<Frame>, burst: nat, f: Frame)
    requires RxHistory(received, delivered, waiting, burst)
    ensures multiset(delivered)[f] + multiset(waiting)[f] == if f in received then 1 else 0
  {
    NumberedOnce(received, f);
    assert (multiset(delivered) + multiset(waiting))[f] == multiset(received)[f];
  }

  lemma {:induction false} NumberedOnce(fs: seq<Frame>, f: Frame)
    requires Numbered(fs)
    ensures multiset(fs)[f] == if f in fs then 1 else 0
  {
    if fs != [] {
      var n := |fs| - 1;
      assert fs == fs[..n] + [fs[n]];
      NumberedOnce(fs[..n], f);
      if f == fs[n] {
        assert forall i | 0 <= i < n :: fs[i].serial != n;
        assert f !in fs[..n];
      }
    }
  }

  /** Number the packets of a burst. */
  function Tagged(ps: seq<Packet>, serial: nat, burst: nat): (fs: seq<Frame>)
    ensures |fs| == |ps|
    ensures forall i | 0 <= i < |fs| :: fs[i] == Frame(ps[i], serial + i, Some(burst))
  {
    seq(|ps|, i requires 0 <= i < |ps| => Frame(ps[i], serial + i, Some(burst)))
  }

  /** The next burst fills the empty batch. */
  lemma RefillHistory(received: seq<Frame>, delivered: seq<Frame>, burst: nat, got: seq<Packet>)
    requires RxHistory(received, delivered, [], burst)
    ensures
      var frames := Tagged(got, |received|, burst + 1);
      RxHistory(received + frames, delivered, frames, burst + 1) && Packets(frames) == got
  {
    var frames := Tagged(got, |received|, burst + 1);
    HistoryAppend(received, delivered, [], burst + 1, frames);
    assert [] + frames == frames;
  }

  lemma InjectHistory(
    received: seq<Frame>, delivered: seq<Frame>, waiting: seq<Frame>, burst: nat, p: Packet)
    requires RxHistory(received, delivered, waiting, burst)
    ensures
      var f := Frame(p, |received|, None);
      RxHistory(received + [f], delivered, waiting + [f], burst) &&
      Packets(waiting + [f]) == Packets(waiting) + [p]
  {
    HistoryAppend(received, delivered, waiting, burst, [Frame(p, |received|, None)]);
  }

  // ---- The device ----

  datatype TxOutcome = Queued | Lost | Panicked

  /** A call of a device, or something its NIC did, with the outcome. */
  datatype Event =
    | OnArrival(data: seq<byte>, ok: bool)
    | OnSendDone(mbuf: nat)
    | OnTransmit(token: bool)
    | OnConsumeTx(data: seq<byte>, outcome: TxOutcome)
    | OnReceive(others: seq<A.Action>, token: bool)
    | OnConsumeRx(mbuf: nat)
    | OnInject(data: seq<byte>, ok: bool)

  /** What a flush leaves of the transmit batch, by the NIC's plan. */
  function Flushed(tx: seq<Packet>, takes: seq<nat>): seq<Packet> {
    tx[Moved(takes, Min(|tx|, MAX_BURST_SIZE))..]
  }

  /** The NIC will take nothing of the next transmission. */
  predicate Stuck(takes: seq<nat>) {
    takes != [] && takes[0] == 0
  }

  lemma FlushedRoom(tx: seq<Packet>, takes: seq<nat>)
    requires |tx| <= TX_CAPACITY
    ensures |Flushed(tx, takes)| < TX_CAPACITY <==> |tx| < TX_CAPACITY || !Stuck(takes)
    ensures Stuck(takes) ==> Flushed(tx, takes) == tx
    ensures Flushed([], takes) == []
  {
  }

  class DpdkDevice {
    const pool: MemPool
    const nic: NicQueue
    const queue: nat
    const cache: A.SharedArpCache
    const ourMac: Mac
    const ourIp: Ipv4
    /** The order in which the addresses of a snapshot are visited. */
    const order: A.Cache -> seq<Ipv4>
    var rx: seq<Packet>
    var tx: seq<Packet>
    var lastVersion: nat
    /** Frames received or injected, waiting in `rx`, and delivered to the stack. */
    ghost var received: seq<Frame>
    ghost var waiting: seq<Frame>
    ghost var delivered: seq<Frame>
    ghost var burst: nat
    /** Packets queued for sending, and handed to the NIC. */
    ghost var pushed: seq<Packet>
    ghost var sent: seq<Packet>
    /** Buffers lent out in receive tokens. */
    ghost var lent: multiset<nat>
    /** Everything that happened to the device, in order. */
    ghost var calls: seq<Event>

    /** Every buffer handed to this queue is in one place: the NIC, a batch or a token. */
    ghost predicate Buffers()
      reads this`rx, this`tx, this`lent, pool, nic
    {
      && pool.Valid()
      && multiset(HeldBy(pool.owner, queue)) == nic.Total() + Ids(rx) + Ids(tx) + lent
    }

    /** The batches and their histories. */
    ghost predicate Batches()
      reads this`rx, this`tx, this`received, this`delivered, this`waiting, this`burst, this`sent, this`pushed
    {
      && |rx| <= RX_CAPACITY && |tx| <= TX_CAPACITY
      && RxHistory(received, delivered, waiting, burst) && Packets(waiting) == rx
      && sent + tx == pushed
    }

    /** This queue's part in the sharing of the cache. */
    ghost predicate Linked()
      reads this`lastVersion, cache
    {
      && cache.Valid() && Lists(order)
      && (queue == 0 ==> cache.world.producer.Idle?)
      && (queue != 0 ==>
          && queue in cache.world.consumers
          && cache.world.consumers[queue].at.Resting?
          && cache.world.consumers[queue].last == lastVersion)
    }

    ghost predicate Valid()
      reads this, pool, nic, cache
    {
      Buffers() && Batches() && Linked()
    }

    constructor (
      pool: MemPool, nic: NicQueue, queue: nat, cache: A.SharedArpCache, ourMac: Mac, ourIp: Ipv4,
      order: A.Cache -> seq<Ipv4>)
      requires pool.Valid() && HeldBy(pool.owner, queue) == {} && nic.Total() == multiset{} && Lists(order)
      requires cache.Valid() && (queue == 0 ==> cache.world.producer.Idle?)
      requires queue != 0 ==>
        queue in cache.world.consumers && cache.world.consumers[queue] == A.Consumer(A.Resting, 0, map[])
      ensures Valid() && rx == [] && tx == [] && delivered == [] && sent == [] && lent == multiset{}
      ensures this.pool == pool && this.nic == nic && this.queue == queue && this.cache == cache
      ensures lastVersion == 0 && calls == []
    {
      this.pool, this.nic, this.queue, this.cache := pool, nic, queue, cache;
      this.ourMac, this.ourIp, this.order := ourMac, ourIp, order;
      rx, tx, lastVersion, burst := [], [], 0, 0;
      received, waiting, delivered, pushed, sent := [], [], [], [], [];
      lent, calls := multiset{}, [];
      new;
      IdsOne(Packet(0, []));
    }

    /**
     * Every buffer has exactly one owner: the pool or one queue; and a buffer of
     * this queue is in exactly one of receive ring, transmit ring, receive batch,
     * transmit batch and tokens.
     */
    lemma EachBufferOnce(m: nat)
      requires Valid()
      ensures m in pool.free <==> m in pool.owner && pool.owner[m].None?
      ensures Ids(nic.ring)[m] + nic.sending[m] + Ids(rx)[m] + Ids(tx)[m] + lent[m]
        == if m in pool.owner && pool.owner[m] == Some(queue) then 1 else 0
    {
      assert multiset(HeldBy(pool.owner, queue))[m]
        == (Ids(nic.ring) + nic.sending + Ids(rx) + Ids(tx) + lent)[m];
    }

    // ---- What the NIC does ----

    /** A packet arrives: the NIC fills a buffer of the pool and puts it in the ring; without one it is lost. */
    method Arrival(data: seq<byte>) returns (ok: bool)
      requires Valid()
      modifies this`calls, pool, nic`ring
      ensures Valid() && (ok <==> old(pool.ReadyNow()) > 0)
      ensures ok ==> |nic.ring| == |old(nic.ring)| + 1 && nic.ring[..|old(nic.ring)|] == old(nic.ring)
      ensures ok ==> nic.ring[|old(nic.ring)|].data == data
      ensures !ok ==> nic.ring == old(nic.ring)
      ensures OnlyMoves(old(pool.owner), pool.owner, queue)
      ensures old(pool.refusals) == [] ==> pool.refusals == []
      ensures |pool.free| == |old(pool.free)| - if ok then 1 else 0
      ensures calls == old(calls) + [OnArrival(data, ok)]
    {
      hide Ids, HeldBy, RxHistory, OnlyMoves, A.Inv;
      Same(pool.owner, queue);
      var m := pool.TryAlloc(queue);
      if m.None? {
        calls := calls + [OnArrival(data, false)];
        return false;
      }
      Taken(old(pool.owner), m.value, queue);
      var p := Packet(m.value, data);
      IdsAppend(nic.ring, [p]);
      IdsOne(p);
      ToRing(Ids(nic.ring), nic.sending, Ids(rx), Ids(tx), lent, multiset{m.value});
      nic.ring := nic.ring + [p];
      calls := calls + [OnArrival(data, true)];
      return true;
    }

    /** The NIC has sent a packet: its buffer, if it is one of those being sent, returns to the pool. */
    method SendDone(m: nat)
      requires Valid()
      modifies this`calls, pool`free, pool`owner, nic`sending
      ensures Valid() && nic.sending == old(nic.sending) - multiset{m}
      ensures m in old(nic.sending) ==> m in pool.free
      ensures m !in old(nic.sending) ==> pool.owner == old(pool.owner)
      ensures calls == old(calls) + [OnSendDone(m)]
      ensures OnlyMoves(old(pool.owner), pool.owner, queue)
    {
      hide RxHistory, Ids, OnlyMoves, A.Inv, Packets;
      Same(pool.owner, queue);
      calls := calls + [OnSendDone(m)];
      if m !in nic.sending {
        return;
      }
      ghost var held := Ids(nic.ring) + nic.sending + Ids(rx) + Ids(tx) + lent;
      assert m in held;
      assert m in HeldBy(pool.owner, queue);
      Returned(pool.owner, m, queue);
      pool.Release(m, queue);
      ghost var left := nic.sending - multiset{m};
      assert nic.sending == left + multiset{m};
      FromNic(Ids(nic.ring), left, Ids(rx), Ids(tx), lent, multiset{m});
      Cancel(multiset(HeldBy(pool.owner, queue)), Ids(nic.ring) + left + Ids(rx) + Ids(tx) + lent, multiset{m});
      nic.sending := nic.sending - multiset{m};
    }

    // ---- Transmit ----

    /** `TxQueue::tx`: the NIC takes a prefix of at most 64 packets; those are removed one by one. */
    method Tx() returns (k: nat)
      requires tx != []
      modifies this`tx, nic`sending, nic`takes
      ensures k == Moved(old(nic.takes), Min(|old(tx)|, MAX_BURST_SIZE))
      ensures tx == old(tx)[k..] && nic.takes == Tail(old(nic.takes))
      ensures nic.Total() == old(nic.Total()) + Ids(old(tx)[..k])
    {
      var n := Min(|tx|, MAX_BURST_SIZE);
      k := nic.TxBurst(Mbufs(tx)[..n]);
      assert Mbufs(tx)[..n][..k] == Mbufs(tx[..k]);
      for i := 0 to k
        invariant tx == old(tx)[i..]
        invariant nic.Total() == old(nic.Total()) + Ids(old(tx)[..k]) && nic.takes == Tail(old(nic.takes))
      {
        tx := tx[1..];
      }
    }

    /** `flush_tx`: packets leave in the order they were pushed, and what the NIC does not take stays. */
    method FlushTx() returns (k: nat)
      requires Valid()
      modifies this`tx, this`sent, nic`sending, nic`takes
      ensures Valid()
      ensures k == |old(tx)| - |tx| && sent == old(sent) + old(tx)[..k]
      ensures tx == Flushed(old(tx), old(nic.takes))
      ensures nic.takes == if old(tx) == [] then old(nic.takes) else Tail(old(nic.takes))
    {
      hide RxHistory, Ids, HeldBy, A.Inv;
      k := 0;
      if tx != [] {
        k := Tx();
        IdsSplit(old(tx), k);
        ToNic(old(nic.Total()), Ids(rx), Ids(tx), lent, Ids(old(tx)[..k]));
        SentMoved(sent, old(tx), k);
        sent := sent + old(tx)[..k];
      }
    }

    /** `transmit`: a token only when there is room, after a flush if need be. */
    method Transmit() returns (token: bool)
      requires Valid()
      modifies this`calls, this`tx, this`sent, nic`sending, nic`takes
      ensures Valid() && (token <==> |tx| < TX_CAPACITY)
      ensures token <==> |old(tx)| < TX_CAPACITY || !Stuck(old(nic.takes))
      ensures |old(tx)| < TX_CAPACITY ==> tx == old(tx) && nic.takes == old(nic.takes)
      ensures |old(tx)| == TX_CAPACITY ==> tx == Flushed(old(tx), old(nic.takes))
      ensures calls == old(calls) + [OnTransmit(token)]
    {
      hide RxHistory, Ids, HeldBy, A.Inv, Flushed;
      FlushedRoom(tx, nic.takes);
      if |tx| < TX_CAPACITY {
        calls := calls + [OnTransmit(true)];
        return true;
      }
      var k := FlushTx();
      calls := calls + [OnTransmit(|tx| < TX_CAPACITY)];
      return |tx| < TX_CAPACITY;
    }

    /**
     * `DpdkTxTokenWithPool::consume`: the buffer is allocated before the batch is
     * looked at. So the packet is lost exactly when no buffer is to be had, and
     * the `expect` panics exactly when one is and the batch is full; unwinding
     * frees the buffer.
     */
    method ConsumeTx(data: seq<byte>) returns (r: TxOutcome)
      requires Valid()
      modifies this`calls, this`tx, this`pushed, pool
      ensures Valid()
      ensures r.Lost? <==> old(pool.ReadyNow()) == 0
      ensures r.Panicked? <==> |old(tx)| == TX_CAPACITY && old(pool.ReadyNow()) > 0
      ensures r.Queued? ==> |tx| == |old(tx)| + 1 && tx[..|old(tx)|] == old(tx) && tx[|old(tx)|].data == data
      ensures !r.Queued? ==> tx == old(tx) && pushed == old(pushed)
      ensures OnlyMoves(old(pool.owner), pool.owner, queue)
      ensures old(pool.refusals) == [] ==> pool.refusals == []
      ensures |pool.free| == |old(pool.free)| - if r.Queued? then 1 else 0
      ensures calls == old(calls) + [OnConsumeTx(data, r)]
    {
      hide RxHistory, Ids, HeldBy, OnlyMoves, A.Inv, Ready;
      Same(pool.owner, queue);
      var m := pool.TryAlloc(queue);
      if m.None? {
        calls := calls + [OnConsumeTx(data, Lost)];
        return Lost;
      }
      ghost var o := old(pool.owner);
      Taken(o, m.value, queue);
      if |tx| == TX_CAPACITY {
        Undone(o, m.value, queue);
        pool.Release(m.value, queue);
        calls := calls + [OnConsumeTx(data, Panicked)];
        return Panicked;
      }
      Enqueue(Packet(m.value, data));
      calls := calls + [OnConsumeTx(data, Queued)];
      return Queued;
    }

    /** A filled buffer joins the end of the transmit batch. */
    method Enqueue(p: Packet)
      requires pool.Valid() && Batches() && |tx| < TX_CAPACITY
      requires multiset(HeldBy(pool.owner, queue)) == (nic.Total() + Ids(rx) + Ids(tx) + lent) + multiset{p.mbuf}
      modifies this`tx, this`pushed
      ensures Buffers() && Batches() && tx == old(tx) + [p]
    {
      hide RxHistory, Ids, HeldBy, Packets;
      IdsAppend(tx, [p]);
      IdsOne(p);
      ToTx(nic.Total(), Ids(rx), Ids(tx), lent, multiset{p.mbuf});
      Assoc(sent, tx, [p]);
      tx := tx + [p];
      pushed := pushed + [p];
    }

    // ---- Receive ----

    /** `poll_rx`: flush, and only when the batch is empty take a new hardware burst; queue 0 learns from it. */
    method PollRx()
      requires Valid()
      modifies this`tx, this`sent, this`rx, this`received, this`waiting, this`burst, nic, cache
      ensures Valid()
      ensures rx == old(Polled(rx, nic))
      ensures old(rx) != [] ==> burst == old(burst) && cache.world == old(cache.world)
      ensures old(rx) == [] ==> burst == old(burst) + 1
      ensures queue != 0 ==> cache.world == old(cache.world)
      ensures queue == 0 && old(rx) == [] ==> cache.world.cache == Learned(old(cache.world.cache), Datas(rx))
      ensures tx == Flushed(old(tx), old(nic.takes))
    {
      hide RxHistory, Ids, HeldBy, Learned, A.Inv, Flushed;
      var k := FlushTx();
      if rx == [] {
        Refill();
        if queue == 0 {
          Learn();
        }
      }
    }

    /** `RxQueue::rx` into the empty batch: a new burst, in arrival order. */
    method Refill()
      requires Valid() && rx == []
      modifies this`rx, this`received, this`waiting, this`burst, nic`ring, nic`bursts
      ensures Valid() && burst == old(burst) + 1
      ensures |rx| == Moved(old(nic.bursts), Min(RX_CAPACITY, |old(nic.ring)|)) && rx == old(nic.ring)[..|rx|]
      ensures forall i | 0 <= i < |waiting| :: waiting[i].burst == Some(burst)
    {
      hide RxHistory, Ids, HeldBy, A.Inv;
      assert waiting == [];
      var got := nic.RxBurst(RX_CAPACITY);
      RefillHistory(received, delivered, burst, got);
      IdsOne(Packet(0, []));
      ToRx(nic.Total(), Ids(rx), Ids(tx), lent, Ids(got));
      assert Ids([]) + Ids(got) == Ids(got);
      burst := burst + 1;
      waiting := Tagged(got, |received|, burst);
      received := received + waiting;
      rx := got;
    }

    /** The ARP replies of the batch go into the shared cache, in batch order. */
    method Learn()
      requires cache.Valid() && cache.world.producer.Idle?
      modifies cache
      ensures cache.Valid() && cache.world.producer.Idle? && cache.world.consumers == old(cache.world.consumers)
      ensures cache.world.cache == Learned(old(cache.world.cache), Datas(rx))
      ensures cache.world.version == old(cache.world.version) + Replies(Datas(rx))
    {
      hide A.Inv, ParseArpReply;
      var datas := Datas(rx);
      for i := 0 to |rx|
        invariant cache.Valid() && cache.world.producer.Idle?
        invariant cache.world.consumers == old(cache.world.consumers)
        invariant cache.world.cache == Learned(old(cache.world.cache), datas[..i])
        invariant cache.world.version == old(cache.world.version) + Replies(datas[..i])
      {
        assert datas[..i + 1][..i] == datas[..i] && datas[i] == rx[i].data;
        var reply := ParseArpReply(rx[i].data);
        if reply.Some? {
          cache.Insert(reply.value.0, reply.value.1);
        }
      }
      assert datas[..|rx|] == datas;
    }

    /**
     * `inject_rx_packet`: a copy of the frame joins the back of the batch if and
     * only if there is room, a buffer is to be had and the frame fits in it.
     */
    method InjectRxPacket(data: seq<byte>) returns (ok: bool)
      requires Valid()
      modifies this`calls, this`rx, this`received, this`waiting, pool
      ensures Valid() && calls == old(calls) + [OnInject(data, ok)]
      ensures ok <==> |old(rx)| < RX_CAPACITY && |data| <= pool.room && old(pool.ReadyNow()) > 0
      ensures ok ==> |rx| == |old(rx)| + 1 && rx[..|old(rx)|] == old(rx) && rx[|old(rx)|].data == data
      ensures ok ==> pool.ReadyNow() == old(pool.ReadyNow()) - 1
      ensures !ok ==> rx == old(rx)
      ensures OnlyMoves(old(pool.owner), pool.owner, queue)
      ensures old(pool.refusals) == [] ==> pool.refusals == []
      ensures |pool.free| == |old(pool.free)| - if ok then 1 else 0
    {
      hide RxHistory, Ids, HeldBy, OnlyMoves, A.Inv, Ready, Packets;
      ok := PushRx(data);
      calls := calls + [OnInject(data, ok)];
    }

    /** A filled buffer joins the back of the receive batch, if there is one and room. */
    method PushRx(data: seq<byte>) returns (ok: bool)
      requires Buffers() && Batches()
      modifies this`rx, this`received, this`waiting, pool
      ensures Buffers() && Batches() && (old(Linked()) ==> Linked())
      ensures ok <==> |old(rx)| < RX_CAPACITY && old(pool.Fills(|data|)) > 0
      ensures ok ==> |rx| == |old(rx)| + 1 && rx[..|old(rx)|] == old(rx) && rx[|old(rx)|].data == data
      ensures ok ==> pool.ReadyNow() == old(pool.ReadyNow()) - 1
      ensures !ok ==> rx == old(rx)
      ensures OnlyMoves(old(pool.owner), pool.owner, queue)
      ensures old(pool.refusals) == [] ==> pool.refusals == []
      ensures |pool.free| == |old(pool.free)| - if ok then 1 else 0
    {
      hide RxHistory, Ids, HeldBy, OnlyMoves, A.Inv, Ready, Packets;
      Same(pool.owner, queue);
      if |rx| >= RX_CAPACITY {
        return false;
      }
      var m := pool.TryAlloc(queue);
      if m.None? {
        return false;
      }
      ghost var o := old(pool.owner);
      Taken(o, m.value, queue);
      if |data| > pool.room {
        Undone(o, m.value, queue);
        pool.Release(m.value, queue);
        return false;
      }
      var p := Packet(m.value, data);
      InjectHistory(received, delivered, waiting, burst, p);
      IdsAppend(rx, [p]);
      IdsOne(p);
      ToRx(nic.Total(), Ids(rx), Ids(tx), lent, multiset{m.value});
      ghost var f := Frame(p, |received|, None);
      rx := rx + [p];
      waiting := waiting + [f];
      received := received + [f];
      return true;
    }

    /**
     * `inject_from_shared_cache`: read the version, then the map, then inject the
     * entries until one fails. `others` is what other threads would do between the
     * two reads. The call is a run of the sharing protocol; it injects as many
     * entries as there are free places and buffers, and records the version
     * exactly if that is all of them.
     */
    method InjectFromSharedCache(others: seq<A.Action>)
      returns (n: nat, ghost snapshot: A.Cache, ghost meanwhile: seq<A.Action>)
      requires Valid()
      modifies this`rx, this`received, this`waiting, this`lastVersion, pool, cache
      ensures Valid() && OnlyMoves(old(pool.owner), pool.owner, queue)
      ensures old(pool.refusals) == [] ==> pool.refusals == []
      ensures |pool.free| == |old(pool.free)| - n
      ensures |rx| == |old(rx)| + n && rx[..|old(rx)|] == old(rx)
      ensures CacheCall(queue, order, old(cache.world), cache.world, old(lastVersion), lastVersion,
                        RX_CAPACITY - |old(rx)|, old(pool.Fills(ARP_FRAME)), n, snapshot, meanwhile)
      ensures n > 0 ==> Injected(rx[|old(rx)|..], ourMac, ourIp, snapshot, order(snapshot), n)
      ensures queue != 0 && old(cache.world.version) != old(lastVersion) ==>
        Interleaved(old(cache.world), queue, others, meanwhile)
    {
      hide RxHistory, Ids, HeldBy, OnlyMoves, A.Inv, Ready, Packets, A.Step, A.Runs, Injected, A.InjectAll, A.CanRun;
      Same(pool.owner, queue);
      RxPlaces();
      n, snapshot, meanwhile := 0, map[], [];
      if queue == 0 {
        return;
      }
      ghost var w := cache.world;
      var current := cache.world.version;
      StepReadVersion(w, queue);
      cache.Act(A.ReadVersion(queue));
      if current == lastVersion {
        return;
      }
      ghost var w1 := cache.world;
      meanwhile := cache.Meanwhile(others, queue);
      A.RunsGrow(w1, meanwhile, cache.world);
      A.RunsAppend(w, [A.ReadVersion(queue)], w1, meanwhile, cache.world);
      ghost var w2 := cache.world;
      var entries := cache.world.cache;
      snapshot := entries;
      StepSnapshot(w2, queue);
      cache.Act(A.Snapshot(queue));
      A.RunsAppend(w, [A.ReadVersion(queue)] + meanwhile, w2, [A.Snapshot(queue)], cache.world);
      ghost var w3 := cache.world;
      assert ListsKeys(entries, order(entries));
      MidwayStart(w3, queue, order(entries), entries);
      n := InjectSnapshot(order(entries), entries, current);
      A.RunsAppend(w, [A.ReadVersion(queue)] + meanwhile + [A.Snapshot(queue)], w3,
                   Entries(queue, order(entries), n), cache.world);
    }

    /** The call's place in the protocol once `n` entries are injected. */
    ghost predicate Midway(w: A.World, ips: seq<Ipv4>, snapshot: A.Cache, current: nat, n: nat)
      reads this`lastVersion, cache
    {
      && n <= |ips| && cache.Valid() && ListsKeys(snapshot, ips)
      && A.Runs(w, A.InjectAll(queue, ips[..n]), cache.world)
      && queue in cache.world.consumers
      && cache.world.consumers[queue].last == lastVersion
      && cache.world.consumers[queue].at == A.Injecting(current, snapshot, Elems(ips[n..]))
    }

    method NoteEntry(ips: seq<Ipv4>, n: nat, ghost w: A.World, ghost snapshot: A.Cache, ghost current: nat)
      requires n < |ips| && Midway(w, ips, snapshot, current, n)
      modifies cache
      ensures Midway(w, ips, snapshot, current, n + 1)
    {
      hide A.Inv, A.Step, A.Runs, A.InjectAll, Elems;
      ghost var before := cache.world;
      assert ips[n] in ips;
      StepInject(before, queue, ips, n);
      cache.Act(A.Inject(queue, ips[n]));
      A.RunsAppend(w, A.InjectAll(queue, ips[..n]), before, [A.Inject(queue, ips[n])], cache.world);
      InjectAllMore(queue, ips, n);
    }

    method NoteEnd(ips: seq<Ipv4>, n: nat, ghost w: A.World, ghost snapshot: A.Cache, current: nat)
      requires Midway(w, ips, snapshot, current, n) && Lists(order) && queue != 0
      modifies this`lastVersion, cache
      ensures Linked() && lastVersion == if n == |ips| then current else old(lastVersion)
      ensures A.Runs(w, Entries(queue, ips, n), cache.world)
    {
      hide A.Inv, A.Step, A.Runs, A.InjectAll;
      ghost var before := cache.world;
      assert n < |ips| ==> ips[n..][0] in Elems(ips[n..]);
      if n < |ips| {
        StepEnd(before, queue, A.GiveUp(queue));
        cache.Act(A.GiveUp(queue));
        A.RunsAppend(w, A.InjectAll(queue, ips[..n]), before, [A.GiveUp(queue)], cache.world);
      } else {
        StepEnd(before, queue, A.Finish(queue));
        cache.Act(A.Finish(queue));
        A.RunsAppend(w, A.InjectAll(queue, ips[..n]), before, [A.Finish(queue)], cache.world);
        lastVersion := current;
      }
    }

    /** One entry: its reply frame is built and injected. */
    method InjectEntry(ip: Ipv4, mac: Mac) returns (ok: bool)
      requires Buffers() && Batches()
      modifies this`rx, this`received, this`waiting, pool
      ensures Buffers() && Batches()
      ensures ok <==> |old(rx)| < RX_CAPACITY && old(pool.Fills(ARP_FRAME)) > 0
      ensures ok ==> |rx| == |old(rx)| + 1 && rx[..|old(rx)|] == old(rx)
      ensures ok ==> rx[|old(rx)|].data == ReplyFrame(ourMac, ourIp, mac, ip)
      ensures ok ==> pool.ReadyNow() == old(pool.ReadyNow()) - 1
      ensures !ok ==> rx == old(rx)
      ensures OnlyMoves(old(pool.owner), pool.owner, queue)
      ensures old(pool.refusals) == [] ==> pool.refusals == []
      ensures |pool.free| == |old(pool.free)| - if ok then 1 else 0
    {
      hide RxHistory, Ids, HeldBy, OnlyMoves, Ready, Packets, ReplyFrame;
      var packet := BuildArpReply(ourMac, ourIp, mac, ip);
      ok := PushRx(packet[..]);
    }

    /** How things stand once `n` entries are injected, compared with the batch and the pool before. */
    ghost predicate Going(
      batch: seq<Packet>, owner: Owners, free: nat, refusals: seq<bool>, fills: nat, ips: seq<Ipv4>,
      snapshot: A.Cache, n: nat)
      reads this`rx, pool
    {
      && OnlyMoves(owner, pool.owner, queue)
      && (refusals == [] ==> pool.refusals == [])
      && |pool.free| == free - n && n <= fills
      && |rx| == |batch| + n <= RX_CAPACITY && rx[..|batch|] == batch
      && Injected(rx[|batch|..], ourMac, ourIp, snapshot, ips, n)
    }

    method TryEntry(
      ips: seq<Ipv4>, snapshot: A.Cache, n: nat, ghost batch: seq<Packet>, ghost owner: Owners,
      ghost free: nat, ghost refusals: seq<bool>, ghost fills: nat)
      returns (ok: bool)
      requires Buffers() && Batches() && n < |ips| && ips[n] in snapshot
      requires Going(batch, owner, free, refusals, fills, ips, snapshot, n) && pool.Fills(ARP_FRAME) == fills - n
      modifies this`rx, this`received, this`waiting, pool
      ensures Buffers() && Batches()
      ensures Going(batch, owner, free, refusals, fills, ips, snapshot, if ok then n + 1 else n)
      ensures !ok <==> |batch| + n == RX_CAPACITY || fills == n
      ensures ok ==> pool.Fills(ARP_FRAME) == fills - (n + 1)
    {
      hide Buffers, RxHistory, Packets, OnlyMoves, Ready, ReplyFrame, Injected;
      ghost var before, moved := rx, pool.owner;
      ok := InjectEntry(ips[n], snapshot[ips[n]]);
      OnlyMovesTrans(owner, moved, pool.owner, queue);
      if ok {
        InjectedMore(before, rx, |batch|, ourMac, ourIp, snapshot, ips, n);
      }
    }

    /** The entries one by one, up to the first that fails. */
    method InjectEntries(
      ips: seq<Ipv4>, snapshot: A.Cache, ghost current: nat, ghost w: A.World, ghost batch: seq<Packet>,
      ghost owner: Owners, ghost free: nat, ghost refusals: seq<bool>, ghost fills: nat)
      returns (n: nat)
      requires Buffers() && Batches() && ListsKeys(snapshot, ips) && Midway(w, ips, snapshot, current, 0)
      requires Going(batch, owner, free, refusals, fills, ips, snapshot, 0) && pool.Fills(ARP_FRAME) == fills
      modifies this`rx, this`received, this`waiting, pool, cache
      ensures Buffers() && Batches() && n <= |ips| && Midway(w, ips, snapshot, current, n)
      ensures Going(batch, owner, free, refusals, fills, ips, snapshot, n)
      ensures n == |ips| || |batch| + n == RX_CAPACITY || fills == n
    {
      hide Buffers, Batches, Linked, Midway, OnlyMoves, Ready, Going, ListsKeys, MemPool.Fills;
      n := 0;
      while n < |ips|
        invariant n <= |ips| && Buffers() && Batches() && Midway(w, ips, snapshot, current, n)
        invariant Going(batch, owner, free, refusals, fills, ips, snapshot, n) && pool.Fills(ARP_FRAME) == fills - n
      {
        Listed(snapshot, ips, n);
        var ok := TryEntry(ips, snapshot, n, batch, owner, free, refusals, fills);
        if !ok {
          return;
        }
        NoteEntry(ips, n, w, snapshot, current);
        n := n + 1;
      }
    }

    /** Inject a whole snapshot, and record its version if that succeeds. */
    method InjectSnapshot(ips: seq<Ipv4>, snapshot: A.Cache, current: nat) returns (n: nat)
      requires Buffers() && Batches() && Lists(order) && queue != 0
      requires Midway(cache.world, ips, snapshot, current, 0)
      modifies this`rx, this`received, this`waiting, this`lastVersion, pool, cache
      ensures Valid() && OnlyMoves(old(pool.owner), pool.owner, queue)
      ensures old(pool.refusals) == [] ==> pool.refusals == []
      ensures |pool.free| == |old(pool.free)| - n
      ensures |rx| == |old(rx)| + n && rx[..|old(rx)|] == old(rx)
      ensures n == Least(|ips|, RX_CAPACITY - |old(rx)|, old(pool.Fills(ARP_FRAME)))
      ensures Injected(rx[|old(rx)|..], ourMac, ourIp, snapshot, ips, n)
      ensures lastVersion == if n == |ips| then current else old(lastVersion)
      ensures A.Runs(old(cache.world), Entries(queue, ips, n), cache.world)
    {
      hide Buffers, Linked, OnlyMoves, Ready, A.Runs, A.InjectAll, A.Inv, RxHistory, Packets, Injected, Entries, Lists, Elems;
      GoingStarts(cache.world, ips, snapshot, current);
      n := InjectEntries(ips, snapshot, current, cache.world, rx, pool.owner, |pool.free|, pool.refusals,
                         pool.Fills(ARP_FRAME));
      NoteEnd(ips, n, old(cache.world), snapshot, current);
    }

    lemma GoingStarts(w: A.World, ips: seq<Ipv4>, snapshot: A.Cache, current: nat)
      requires Batches() && Midway(w, ips, snapshot, current, 0)
      ensures ListsKeys(snapshot, ips)
      ensures Going(rx, pool.owner, |pool.free|, pool.refusals, pool.Fills(ARP_FRAME), ips, snapshot, 0)
    {
      Same(pool.owner, queue);
      InjectedNone(rx, ourMac, ourIp, snapshot, ips);
    }

    /** `rx_batch.pop()`: the packet at the back becomes a receive token. */
    method Pop() returns (p: Packet)
      requires Valid() && rx != []
      modifies this`rx, this`waiting, this`delivered, this`lent
      ensures Valid()
      ensures p == old(rx)[|old(rx)| - 1] && rx == old(rx)[..|old(rx)| - 1]
      ensures delivered == old(delivered) + [old(waiting)[|old(rx)| - 1]] && old(waiting)[|old(rx)| - 1].packet == p
      ensures lent == old(lent) + multiset{p.mbuf}
    {
      hide RxHistory, Ids, HeldBy, A.Inv;
      var n := |rx| - 1;
      p := rx[n];
      HistoryPop(received, delivered, waiting, burst);
      IdsSplit(rx, n);
      assert rx[n..] == [p] && Packets(waiting[..n]) == rx[..n];
      IdsOne(p);
      ToToken(nic.Total(), Ids(rx[..n]), Ids(tx), lent, multiset{p.mbuf});
      delivered := delivered + [waiting[n]];
      waiting := waiting[..n];
      rx := rx[..n];
      lent := lent + multiset{p.mbuf};
    }

    /** Consuming a receive token returns its buffer to the pool. */
    method ConsumeRx(p: Packet)
      requires Valid() && p.mbuf in lent
      modifies this`calls, this`lent, pool`free, pool`owner
      ensures Valid() && lent == old(lent) - multiset{p.mbuf} && p.mbuf in pool.free
      ensures OnlyMoves(old(pool.owner), pool.owner, queue)
      ensures calls == old(calls) + [OnConsumeRx(p.mbuf)]
    {
      hide RxHistory, Ids, OnlyMoves, A.Inv;
      ghost var held := nic.Total() + Ids(rx) + Ids(tx) + lent;
      assert p.mbuf in held;
      assert p.mbuf in HeldBy(pool.owner, queue);
      Returned(pool.owner, p.mbuf, queue);
      pool.Release(p.mbuf, queue);
      ghost var left := lent - multiset{p.mbuf};
      assert lent == left + multiset{p.mbuf};
      ToToken(nic.Total(), Ids(rx), Ids(tx), left, multiset{p.mbuf});
      Cancel(multiset(HeldBy(pool.owner, queue)), nic.Total() + Ids(rx) + Ids(tx) + left, multiset{p.mbuf});
      lent := left;
      calls := calls + [OnConsumeRx(p.mbuf)];
    }

    lemma RxPlaces()
      requires Batches()
      ensures |rx| <= RX_CAPACITY && |tx| <= TX_CAPACITY
    {
    }

    /** The first half of `receive`: flush, refill, inject. */
    method Gather(others: seq<A.Action>)
      returns (n: nat, ghost snapshot: A.Cache, ghost meanwhile: seq<A.Action>)
      requires Valid()
      modifies this`tx, this`sent, this`rx, this`received, this`waiting, this`burst, this`lastVersion, nic, pool, cache
      ensures Valid() && OnlyMoves(old(pool.owner), pool.owner, queue)
      ensures tx == Flushed(old(tx), old(nic.takes))
      ensures |old(Polled(rx, nic))| <= RX_CAPACITY
      ensures Gathered(rx, old(Polled(rx, nic)), ourMac, ourIp, snapshot, order, n)
      ensures queue != 0 ==>
        CacheCall(queue, order, old(cache.world), cache.world, old(lastVersion), lastVersion,
                  RX_CAPACITY - |old(Polled(rx, nic))|, old(pool.Fills(ARP_FRAME)), n, snapshot, meanwhile)
      ensures queue != 0 && old(cache.world.version) != old(lastVersion) ==>
        Interleaved(old(cache.world), queue, others, meanwhile)
      ensures queue == 0 ==> n == 0 && lastVersion == old(lastVersion)
      ensures old(pool.refusals) == [] ==> pool.refusals == []
      ensures |pool.free| == |old(pool.free)| - n
    {
      hide RxHistory, Ids, HeldBy, OnlyMoves, Learned, A.Inv, Ready, Packets, Injected, CacheCall, Flushed, MemPool.Fills, Interleaved;
      RxPlaces();
      PollRx();
      ghost var w, places, fills := cache.world, RX_CAPACITY - |rx|, pool.Fills(ARP_FRAME);
      n, snapshot, meanwhile := InjectFromSharedCache(others);
      if queue == 0 {
        CallOfZero(order, w, cache.world, old(lastVersion), lastVersion, places, fills, n, snapshot, meanwhile);
      }
    }

    /**
     * `receive`: flush, refill, inject, and deliver the packet at the back. The
     * transmit token that comes with it lacks room exactly when the batch is full
     * and the NIC takes nothing. For a queue other than 0 the call is a run of the
     * sharing protocol that records the version if and only if every entry went in.
     */
    method Receive(others: seq<A.Action>)
      returns (token: Option<Packet>, hasRoom: bool, ghost n: nat, ghost snapshot: A.Cache,
               ghost meanwhile: seq<A.Action>)
      requires Valid()
      modifies this`calls, this`tx, this`sent, this`rx, this`received, this`waiting, this`burst, this`delivered, this`lent,
               this`lastVersion, nic, pool, cache
      ensures Valid() && OnlyMoves(old(pool.owner), pool.owner, queue)
      ensures tx == Flushed(old(tx), old(nic.takes)) && (hasRoom <==> |tx| < TX_CAPACITY)
      ensures !hasRoom <==> |old(tx)| == TX_CAPACITY && Stuck(old(nic.takes))
      ensures token.None? ==> delivered == old(delivered) && rx == [] && lent == old(lent)
      ensures token.Some? ==>
        && |delivered| == |old(delivered)| + 1 && delivered[..|old(delivered)|] == old(delivered)
        && delivered[|old(delivered)|].packet == token.value && lent == old(lent) + multiset{token.value.mbuf}
      ensures |old(Polled(rx, nic))| <= RX_CAPACITY
      ensures token.Some? <==> old(Polled(rx, nic)) != [] || n > 0
      ensures token.Some? ==>
        Gathered(rx + [token.value], old(Polled(rx, nic)), ourMac, ourIp, snapshot, order, n)
      ensures queue != 0 ==>
        CacheCall(queue, order, old(cache.world), cache.world, old(lastVersion), lastVersion,
                  RX_CAPACITY - |old(Polled(rx, nic))|, old(pool.Fills(ARP_FRAME)), n, snapshot, meanwhile)
      ensures queue != 0 && old(cache.world.version) != old(lastVersion) ==>
        Interleaved(old(cache.world), queue, others, meanwhile)
      ensures queue == 0 ==> n == 0 && lastVersion == old(lastVersion)
      ensures old(pool.refusals) == [] ==> pool.refusals == []
      ensures |pool.free| == |old(pool.free)| - n
      ensures calls == old(calls) + [OnReceive(others, token.Some?)]
    {
      hide RxHistory, Ids, HeldBy, OnlyMoves, A.Inv, Ready, Packets, CacheCall, Flushed, Polled, Linked, MemPool.Fills, Interleaved;
      RxPlaces();
      FlushedRoom(tx, nic.takes);
      n, snapshot, meanwhile := Gather(others);
      hasRoom := |tx| < TX_CAPACITY;
      if rx == [] {
        calls := calls + [OnReceive(others, false)];
        return None, hasRoom, n, snapshot, meanwhile;
      }
      ghost var batch := rx;
      var p := Pop();
      assert rx + [p] == batch;
      calls := calls + [OnReceive(others, true)];
      return Some(p), hasRoom, n, snapshot, meanwhile;
    }
  }

  /** The batch once it was polled. */
  function Polled(rx: seq<Packet>, nic: NicQueue): seq<Packet>
    reads nic
  {
    if rx != [] then rx else nic.ring[..Moved(nic.bursts, Min(RX_CAPACITY, |nic.ring|))]
  }

  /** Visiting a map in this order meets each of its addresses once. */
  ghost predicate Lists(order: A.Cache -> seq<Ipv4>) {
    forall c :: ListsKeys(c, order(c))
  }

  ghost predicate ListsKeys(c: A.Cache, ips: seq<Ipv4>) {
    && (forall ip :: ip in ips <==> ip in c)
    && (forall i, j | 0 <= i < j < |ips| :: ips[i] != ips[j])
  }

  ghost function KeyList(keys: set<Ipv4>): (ips: seq<Ipv4>)
    ensures forall ip :: ip in ips <==> ip in keys
    ensures forall i, j | 0 <= i < j < |ips| :: ips[i] != ips[j]
  {
    if keys == {} then []
    else
      var ip :| ip in keys;
      [ip] + KeyList(keys - {ip})
  }

  /** There is such an order. */
  lemma OrderExists()
    ensures Lists((c: A.Cache) => KeyList(c.Keys))
  {
  }

  lemma Listed(c: A.Cache, ips: seq<Ipv4>, n: nat)
    requires ListsKeys(c, ips) && n < |ips|
    ensures ips[n] in c
  {
    assert ips[n] in ips;
  }

  /** The frames at the end of the batch carry the first `n` entries. */
  ghost predicate Injected(
    added: seq<Packet>, ourMac: Mac, ourIp: Ipv4, snapshot: A.Cache, ips: seq<Ipv4>, n: nat)
  {
    && |added| == n <= |ips|
    && forall i | 0 <= i < n :: ips[i] in snapshot && added[i].data == ReplyFrame(ourMac, ourIp, snapshot[ips[i]], ips[i])
  }

  /** A batch that was polled and then injected `n` entries, which go to the back. */
  ghost predicate Gathered(
    rx: seq<Packet>, polled: seq<Packet>, ourMac: Mac, ourIp: Ipv4, snapshot: A.Cache, order: A.Cache -> seq<Ipv4>,
    n: nat)
  {
    && |rx| == |polled| + n && rx[..|polled|] == polled
    && (n > 0 ==> Injected(rx[|polled|..], ourMac, ourIp, snapshot, order(snapshot), n))
  }

  lemma InjectedNone(rx: seq<Packet>, ourMac: Mac, ourIp: Ipv4, snapshot: A.Cache, ips: seq<Ipv4>)
    ensures Injected(rx[|rx|..], ourMac, ourIp, snapshot, ips, 0) && rx[..|rx|] == rx
  {
  }

  lemma InjectedMore(
    batch: seq<Packet>, rx: seq<Packet>, k: nat, ourMac: Mac, ourIp: Ipv4, snapshot: A.Cache, ips: seq<Ipv4>, n: nat)
    requires n < |ips| && k <= |batch| && |rx| == |batch| + 1 && rx[..|batch|] == batch
    requires Injected(batch[k..], ourMac, ourIp, snapshot, ips, n)
    requires ips[n] in snapshot && rx[|batch|].data == ReplyFrame(ourMac, ourIp, snapshot[ips[n]], ips[n])
    ensures Injected(rx[k..], ourMac, ourIp, snapshot, ips, n + 1)
    ensures rx[..k] == batch[..k]
  {
    hide ReplyFrame;
    assert rx == batch + [rx[|batch|]];
    forall i | 0 <= i < n + 1
      ensures ips[i] in snapshot && rx[k..][i].data == ReplyFrame(ourMac, ourIp, snapshot[ips[i]], ips[i])
    {
      assert i < n ==> rx[k..][i] == batch[k..][i];
    }
  }

  function Elems(ips: seq<Ipv4>): set<Ipv4> {
    set ip | ip in ips
  }

  lemma MidwayStart(w: A.World, q: nat, ips: seq<Ipv4>, c: A.Cache)
    requires ListsKeys(c, ips)
    ensures Elems(ips[0..]) == c.Keys && A.Runs(w, A.InjectAll(q, ips[..0]), w)
  {
    assert ips[0..] == ips;
    forall ip ensures ip in Elems(ips) <==> ip in c.Keys {
      assert ip in ips <==> ip in c;
    }
  }

  function Least(a: nat, b: nat, c: nat): nat {
    Min(a, Min(b, c))
  }

  // ---- A call as a run of the sharing protocol ----

  /** Injecting the first `n` entries, and how that ends. */
  function Entries(q: nat, ips: seq<Ipv4>, n: nat): seq<A.Action>
    requires n <= |ips|
  {
    A.InjectAll(q, ips[..n]) + [if n == |ips| then A.Finish(q) else A.GiveUp(q)]
  }

  function Call(q: nat, meanwhile: seq<A.Action>, ips: seq<Ipv4>, n: nat): seq<A.Action>
    requires n <= |ips|
  {
    [A.ReadVersion(q)] + meanwhile + [A.Snapshot(q)] + Entries(q, ips, n)
  }

  lemma {:induction false} InjectAllAppend(q: nat, ips: seq<Ipv4>, ip: Ipv4)
    ensures A.InjectAll(q, ips + [ip]) == A.InjectAll(q, ips) + [A.Inject(q, ip)]
  {
    if ips == [] {
      assert ips + [ip] == [ip] && [ip][1..] == [];
    } else {
      assert (ips + [ip])[1..] == ips[1..] + [ip];
      InjectAllAppend(q, ips[1..], ip);
    }
  }

  lemma InjectAllMore(q: nat, ips: seq<Ipv4>, n: nat)
    requires n < |ips|
    ensures A.InjectAll(q, ips[..n + 1]) == A.InjectAll(q, ips[..n]) + [A.Inject(q, ips[n])]
  {
    assert ips[..n + 1] == ips[..n] + [ips[n]];
    InjectAllAppend(q, ips[..n], ips[n]);
  }

  lemma StepReadVersion(w: A.World, q: nat)
    requires q in w.consumers && w.consumers[q].at.Resting?
    ensures A.Enabled(w, A.ReadVersion(q))
    ensures
      var w' := A.Step(w, A.ReadVersion(q));
      && w'.cache == w.cache && w'.version == w.version && w'.producer == w.producer && q in w'.consumers
      && w'.consumers[q] == if w.version == w.consumers[q].last then w.consumers[q]
                            else w.consumers[q].(at := A.HasVersion(w.version))
  {
  }

  lemma StepSnapshot(w: A.World, q: nat)
    requires q in w.consumers && w.consumers[q].at.HasVersion?
    ensures A.Enabled(w, A.Snapshot(q))
    ensures
      var w' := A.Step(w, A.Snapshot(q));
      && w'.producer == w.producer && q in w'.consumers
      && w'.consumers[q] ==
         w.consumers[q].(at := A.Injecting(w.consumers[q].at.version, w.cache, w.cache.Keys))
  {
  }

  lemma StepInject(w: A.World, q: nat, ips: seq<Ipv4>, n: nat)
    requires q in w.consumers && w.consumers[q].at.Injecting? && n < |ips|
    requires w.consumers[q].at.todo == Elems(ips[n..]) && ips[n] in w.consumers[q].at.snapshot
    requires forall i, j | 0 <= i < j < |ips| :: ips[i] != ips[j]
    ensures A.Enabled(w, A.Inject(q, ips[n]))
    ensures
      var w' := A.Step(w, A.Inject(q, ips[n]));
      && w'.producer == w.producer && q in w'.consumers && w'.consumers[q].last == w.consumers[q].last
      && w'.consumers[q].at == w.consumers[q].at.(todo := Elems(ips[n + 1..]))
  {
    ElemsLess(ips, n);
  }

  lemma ElemsLess(ips: seq<Ipv4>, n: nat)
    requires n < |ips| && forall i, j | 0 <= i < j < |ips| :: ips[i] != ips[j]
    ensures ips[n] in Elems(ips[n..]) && Elems(ips[n..]) - {ips[n]} == Elems(ips[n + 1..])
  {
    var rest := ips[n + 1..];
    assert ips[n..] == [ips[n]] + rest;
    assert forall i | 0 <= i < |rest| :: rest[i] == ips[n + 1 + i];
  }

  lemma StepEnd(w: A.World, q: nat, a: A.Action)
    requires q in w.consumers && w.consumers[q].at.Injecting?
    requires a == (if w.consumers[q].at.todo == {} then A.Finish(q) else A.GiveUp(q))
    ensures A.Enabled(w, a)
    ensures
      var w' := A.Step(w, a);
      && w'.producer == w.producer && q in w'.consumers && w'.consumers[q].at.Resting?
      && w'.consumers[q].last == if a.Finish? then w.consumers[q].at.version else w.consumers[q].last
  {
  }

  /**
   * A call of a queue's injection, with `places` free in the batch and `fills`
   * buffers to be had. It is a run of the protocol: the version first, then
   * whatever others do, then the snapshot and its entries. It injects as many as
   * fit, and the version is recorded if and only if that is all of them.
   */
  ghost predicate CacheCall(
    q: nat, order: A.Cache -> seq<Ipv4>, w: A.World, w': A.World, last: nat, last': nat,
    places: nat, fills: nat, n: nat, snapshot: A.Cache, meanwhile: seq<A.Action>)
  {
    if q == 0 then n == 0 && last' == last && w' == w
    else if w.version == last then n == 0 && last' == last && A.Runs(w, [A.ReadVersion(q)], w')
    else
      && (forall a | a in meanwhile :: !A.By(a, q))
      && w.cache.Keys <= snapshot.Keys && ListsKeys(snapshot, order(snapshot))
      && n == Least(|order(snapshot)|, places, fills)
      && A.Runs(w, Call(q, meanwhile, order(snapshot), n), w')
      && last' == if n == |order(snapshot)| then w.version else last
  }

  /** What others do between the two reads: all of `others`, if they can and it is not the queue's own. */
  ghost predicate Interleaved(w: A.World, q: nat, others: seq<A.Action>, meanwhile: seq<A.Action>) {
    var possible := A.Enabled(w, A.ReadVersion(q)) && A.CanRun(A.Step(w, A.ReadVersion(q)), others);
    possible && (forall a | a in others :: !A.By(a, q)) ==> meanwhile == others
  }

  lemma CallOfZero(
    order: A.Cache -> seq<Ipv4>, w: A.World, w': A.World, last: nat, last': nat,
    places: nat, fills: nat, n: nat, snapshot: A.Cache, meanwhile: seq<A.Action>)
    requires CacheCall(0, order, w, w', last, last', places, fills, n, snapshot, meanwhile)
    ensures n == 0 && last' == last
  {
  }

  /** At the current version nothing is injected. */
  lemma CallIdle(
    q: nat, order: A.Cache -> seq<Ipv4>, w: A.World, w': A.World, last: nat, last': nat,
    places: nat, fills: nat, n: nat, snapshot: A.Cache, meanwhile: seq<A.Action>)
    requires CacheCall(q, order, w, w', last, last', places, fills, n, snapshot, meanwhile) && w.version == last
    ensures n == 0
  {
  }

  /**
   * Entries are never removed, and while the map has more entries than a batch
   * has places, no call records a version.
   */
  lemma CallBehind(
    q: nat, order: A.Cache -> seq<Ipv4>, w: A.World, w': A.World, last: nat, last': nat,
    places: nat, fills: nat, n: nat, snapshot: A.Cache, meanwhile: seq<A.Action>)
    requires A.Inv(w) && places <= RX_CAPACITY
    requires CacheCall(q, order, w, w', last, last', places, fills, n, snapshot, meanwhile)
    ensures w.cache.Keys <= w'.cache.Keys
    ensures |w.cache.Keys| > RX_CAPACITY ==> last' == last
  {
    hide A.Inv, A.Runs, A.InjectAll, Call;
    if q != 0 && w.version == last {
      A.RunsGrow(w, [A.ReadVersion(q)], w');
    } else if q != 0 {
      A.RunsGrow(w, Call(q, meanwhile, order(snapshot), n), w');
      ListSize(order(snapshot), snapshot.Keys);
      SubsetSize(w.cache.Keys, snapshot.Keys);
    }
  }

  lemma {:induction false} ListSize(ips: seq<Ipv4>, keys: set<Ipv4>)
    requires forall ip :: ip in ips <==> ip in keys
    requires forall i, j | 0 <= i < j < |ips| :: ips[i] != ips[j]
    ensures |ips| == |keys|
    decreases |ips|
  {
    if ips == [] {
      assert keys == {};
    } else {
      var n := |ips| - 1;
      var init := ips[..n];
      assert ips == init + [ips[n]];
      forall ip ensures ip in init <==> ip in keys - {ips[n]} {
        assert ip in ips <==> ip in init || ip == ips[n];
      }
      ListSize(init, keys - {ips[n]});
      assert keys == (keys - {ips[n]}) + {ips[n]} by {
        assert ips[n] in ips;
      }
    }
  }

  lemma SubsetSize<T>(a: set<T>, b: set<T>)
    requires a <= b
    ensures |a| <= |b|
  {
    assert b == a + (b - a);
  }

  lemma SentMoved<T>(sent: seq<T>, tx: seq<T>, k: nat)
    requires k <= |tx|
    ensures sent + tx[..k] + tx[k..] == sent + tx
  {
    assert tx == tx[..k] + tx[k..];
    Assoc(sent, tx[..k], tx[k..]);
  }
}
