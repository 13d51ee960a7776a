/**
 * The receive side of `BridgeUdpSocket`: a channel with a one-slot peek buffer.
 * Any interleaving of its methods delivers the channel's datagrams in order.
 */
module UdpPeek {
  import opened Bytes

  datatype Datagram = Datagram(payload: seq<byte>, addr: nat)

  datatype Received =
    | WouldBlock
    | Reset
    | Got(data: seq<byte>, addr: nat)

  datatype Readiness = NotReady | Ready | Broken

  const UDP_CHANNEL_SIZE := 1024

  /**
   * What a receive answers when `pending` is still to be delivered, with no word
   * about where it is kept: the first datagram, cut to the caller's buffer.
   */
  function Answer(pending: seq<Datagram>, relayGone: bool, cap: nat, locked: bool): (r: Received)
    ensures r.Got? <==> !locked && pending != []
    ensures r.Reset? <==> !locked && pending == [] && relayGone
    ensures r.Got? ==> r.addr == pending[0].addr && r.data <= pending[0].payload
    ensures r.Got? ==> |r.data| == if |pending[0].payload| <= cap then |pending[0].payload| else cap
  {
    if locked then
      WouldBlock
    else if pending == [] then
      if relayGone then Reset else WouldBlock
    else
      Got(pending[0].payload[..Min(cap, |pending[0].payload|)], pending[0].addr)
  }

  class RxState {
    /** Datagrams in the channel, and whether the relay that feeds it has ended. */
    var channel: seq<Datagram>
    var relayGone: bool
    var peeked: Option<Datagram>
    ghost var arrived: seq<Datagram>
    ghost var delivered: seq<Datagram>

    /** What the caller has still to get. */
    ghost function Pending(): seq<Datagram>
      reads this
    {
      (if peeked.Some? then [peeked.value] else []) + channel
    }

    /** Nothing is lost, repeated or reordered between the channel and the caller. */
    ghost predicate Valid()
      reads this
    {
      |channel| <= UDP_CHANNEL_SIZE && delivered + Pending() == arrived
    }

    constructor ()
      ensures Valid() && Pending() == [] && delivered == [] && arrived == [] && !relayGone
    {
      channel, relayGone, peeked := [], false, None;
      arrived, delivered := [], [];
    }

    /**
     * The relay's `try_send`. A full channel drops the new datagram and keeps the
     * old ones; a peeked datagram takes no room.
     */
    method Arrive(d: Datagram)
      requires Valid() && !relayGone
      modifies this`channel, this`arrived
      ensures Valid()
      ensures |old(channel)| < UDP_CHANNEL_SIZE ==> Pending() == old(Pending()) + [d] && arrived == old(arrived) + [d]
      ensures |old(channel)| == UDP_CHANNEL_SIZE ==> Pending() == old(Pending())
    {
      if |channel| == UDP_CHANNEL_SIZE {
        return;
      }
      ghost var first := if peeked.Some? then [peeked.value] else [];
      Assoc(first, channel, [d]);
      Assoc(delivered, first + channel, [d]);
      channel := channel + [d];
      arrived := arrived + [d];
    }

    /** The relay ends and drops its sender; what it sent can still be received. */
    method RelayEnds()
      requires Valid()
      modifies this`relayGone
      ensures Valid() && relayGone && Pending() == old(Pending())
    {
      relayGone := true;
    }

    /**
     * `try_recv_from`, `poll_recv_from` and the end of `recv_from`; `locked` says
     * that another task holds the mutex.
     */
    method RecvFrom(cap: nat, locked: bool) returns (r: Received)
      requires Valid()
      modifies this`channel, this`peeked, this`delivered
      ensures Valid()
      ensures r == Answer(old(Pending()), relayGone, cap, locked)
      ensures r.Got? ==> Pending() == old(Pending())[1..]
      ensures r.Got? ==> delivered == old(delivered) + [old(Pending())[0]]
      ensures !r.Got? ==> Pending() == old(Pending()) && delivered == old(delivered)
    {
      if locked {
        return WouldBlock;
      }
      var d: Datagram;
      if peeked.Some? {
        d := peeked.value;
        peeked := None;
      } else if channel == [] {
        return if relayGone then Reset else WouldBlock;
      } else {
        d := channel[0];
        channel := channel[1..];
      }
      assert Pending() == channel && old(Pending()) == [d] + channel;
      Assoc(delivered, [d], channel);
      delivered := delivered + [d];
      return Got(d.payload[..Min(cap, |d.payload|)], d.addr);
    }

    /**
     * `poll_recv_ready` may move a datagram into the peek slot, which no receive
     * can tell. Ready means that a receive would get a datagram.
     */
    method PollRecvReady(locked: bool) returns (r: Readiness)
      requires Valid()
      modifies this`channel, this`peeked
      ensures Valid() && Pending() == old(Pending()) && |channel| <= |old(channel)|
      ensures r.Ready? <==> Answer(Pending(), relayGone, 0, locked).Got?
      ensures r.Broken? <==> Answer(Pending(), relayGone, 0, locked).Reset?
    {
      if locked {
        return NotReady;
      }
      if peeked.Some? {
        return Ready;
      }
      if channel == [] {
        return if relayGone then Broken else NotReady;
      }
      peeked := Some(channel[0]);
      channel := channel[1..];
      assert [peeked.value] + channel == old(channel) == old(Pending());
      return Ready;
    }

    /** Ready stays true until someone receives: arrivals and the relay's end do not take it back. */
    method ReadyThenReceive(d: Datagram, cap: nat) returns (ready: Readiness, r: Received)
      requires Valid() && !relayGone
      modifies this
      ensures Valid() && relayGone
      ensures |old(channel)| < UDP_CHANNEL_SIZE ==> arrived == old(arrived) + [d]
      ensures ready.Ready? <==> old(Pending()) != []
      ensures ready.Ready? ==> r == Answer(old(Pending()), false, cap, false) && r.Got?
    {
      ready := PollRecvReady(false);
      Arrive(d);
      RelayEnds();
      r := RecvFrom(cap, false);
    }
  }
}
