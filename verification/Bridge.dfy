/**
 * The OS-thread bridge of one TCP connection: a relay task on the lcore, two
 * bounded channels, and the stream the OS thread reads and writes. Each method
 * is one atomic step of one side; they may be called in any order, so what
 * `Valid` says holds in every reachable state of every interleaving.
 */
module Bridge {
  import opened Bytes

  const DATA_CHANNEL_SIZE: nat := 256
  const RECV_BUF: nat := 65536

  /** What the relay sends up: received bytes, of which an empty chunk is the end, or an error. */
  datatype Msg = Chunk(bytes: seq<byte>) | Error

  predicate Final(m: Msg) {
    m.Error? || m.bytes == []
  }

  function MsgBytes(m: Msg): seq<byte> {
    if m.Chunk? then m.bytes else []
  }

  function Flat(ms: seq<Msg>): seq<byte> {
    if ms == [] then [] else MsgBytes(ms[0]) + Flat(ms[1..])
  }

  lemma {:induction false} FlatAppend(ms: seq<Msg>, m: Msg)
    ensures Flat(ms + [m]) == Flat(ms) + MsgBytes(m)
  {
    if ms == [] {
      assert ms + [m] == [m];
      assert [m][1..] == [];
    } else {
      assert (ms + [m])[1..] == ms[1..] + [m];
      FlatAppend(ms[1..], m);
      Assoc(MsgBytes(ms[0]), Flat(ms[1..]), MsgBytes(m));
    }
  }

  lemma {:induction false} ConcatAppend(bs: seq<seq<byte>>, b: seq<byte>)
    ensures Concat(bs + [b]) == Concat(bs) + b
  {
    if bs == [] {
      assert bs + [b] == [b];
      assert [b][1..] == [];
    } else {
      assert (bs + [b])[1..] == bs[1..] + [b];
      ConcatAppend(bs[1..], b);
      Assoc(bs[0], Concat(bs[1..]), b);
    }
  }

  /** Where the relay task is. */
  datatype Relay =
    | Selecting
    | SendingUp(msg: Msg)
    | Writing(rest: seq<byte>)
    | Shutting
    | Leaving  // the last message is queued, the task has not ended yet
    | Gone

  /** The bytes the relay has taken from TCP but not queued yet. */
  function Held(r: Relay): seq<byte> {
    if r.SendingUp? then MsgBytes(r.msg) else []
  }

  /** The relay has left its loop. */
  predicate Done(r: Relay) {
    r.Leaving? || r.Gone?
  }

  /** The relay still serves the OS thread's writes. */
  predicate Serving(r: Relay) {
    r.Selecting? || r.Writing? || (r.SendingUp? && !Final(r.msg))
  }

  function Unwritten(r: Relay): seq<byte> {
    if r.Writing? then r.rest else []
  }

  /** Only the last message can be final, and then no more input follows it. */
  predicate EndsWell(up: seq<Msg>, relay: Relay) {
    && (forall i | 0 <= i < |up| - 1 :: !Final(up[i]))
    && (up != [] && Final(up[|up| - 1]) ==> Done(relay))
  }

  datatype ReadResult = Pending | Ready(data: seq<byte>) | Failed

  class Connection {
    // The lcore side
    var relay: Relay
    // The channels
    var up: seq<Msg>
    var down: seq<seq<byte>>
    var closeSignal: bool
    // The OS side
    var open: bool
    var readBuf: seq<byte>
    // Histories
    ghost var taken: seq<byte>      // taken from TCP by the relay
    ghost var delivered: seq<byte>  // returned by poll_read
    ghost var offered: seq<byte>    // accepted by poll_write
    ghost var accepted: seq<byte>   // accepted by the TCP socket
    ghost var ended: bool           // poll_read has reported the end
    ghost var inputOver: bool       // TCP reported the end of its input, or an error
    ghost var writeFailed: bool     // TCP refused a write

    ghost predicate Ingress()
      reads this`up, this`relay, this`delivered, this`taken, this`open, this`readBuf, this`ended
    {
      && EndsWell(up, relay)
      && delivered <= taken
      && (open ==> delivered + (readBuf + (Flat(up) + Held(relay))) == taken)
      && (ended ==> Done(relay) && readBuf == [] && up == [] && delivered == taken)
    }

    ghost predicate Egress()
      reads this`accepted, this`offered, this`relay, this`down
    {
      && accepted <= offered
      && (Serving(relay) ==> accepted + (Unwritten(relay) + Concat(down)) == offered)
    }

    /** The relay stops serving only for a reason. */
    ghost predicate Reasons()
      reads this`open, this`closeSignal, this`relay, this`inputOver, this`writeFailed
    {
      && (!open ==> closeSignal)
      && (relay.Shutting? ==> closeSignal)
      && (relay.SendingUp? && Final(relay.msg) ==> inputOver || writeFailed)
      && (relay.Leaving? ==> inputOver || writeFailed)
      && (relay.Gone? ==> closeSignal || inputOver || writeFailed)
      && (writeFailed ==> !Serving(relay))
    }

    ghost predicate Valid()
      reads this
    {
      |up| <= DATA_CHANNEL_SIZE && |down| <= DATA_CHANNEL_SIZE && Ingress() && Egress() && Reasons()
    }

    constructor ()
      ensures Valid() && open && taken == [] && offered == [] && delivered == [] && accepted == [] && !ended
      ensures relay.Selecting? && !closeSignal && !inputOver && !writeFailed
    {
      relay, up, down, closeSignal, open, readBuf := Selecting, [], [], false, true, [];
      taken, delivered, offered, accepted, ended := [], [], [], [], false;
      inputOver, writeFailed := false, false;
    }

    // ---- The relay task ----

    /** `stream.recv` gives bytes; the relay turns to sending them up. */
    method RelayReceive(data: seq<byte>)
      requires Valid() && relay.Selecting?
      requires 0 < |data| <= RECV_BUF
      modifies this`relay, this`taken
      ensures Valid() && taken == old(taken) + data
    {
      hide Flat, Concat;
      TakeBytes(delivered, readBuf, Flat(up), data);
      relay := SendingUp(Chunk(data));
      taken := taken + data;
    }

    /** `stream.recv` reports the end of the stream, or an error: the last message the relay sends. */
    method RelayReceiveEnd(error: bool)
      requires Valid() && relay.Selecting?
      modifies this`relay, this`inputOver
      ensures Valid() && inputOver && relay == SendingUp(if error then Error else Chunk([]))
    {
      hide Flat, Concat;
      inputOver := true;
      relay := SendingUp(if error then Error else Chunk([]));
    }

    /**
     * `tx_to_os.send`: it waits for room, fails when the OS side is gone, and
     * after a final message or a failure the relay ends.
     */
    method RelaySendUp() returns (progress: bool)
      requires Valid() && relay.SendingUp?
      modifies this`relay, this`up
      ensures Valid()
      ensures open && |old(up)| == DATA_CHANNEL_SIZE <==> !progress
      ensures !progress ==> relay == old(relay) && up == old(up)
      ensures progress && open ==> up == old(up) + [old(relay).msg]
      ensures progress && open ==> relay == if Final(old(relay).msg) then Leaving else Selecting
      ensures progress && !open ==> relay.Gone? && up == old(up)
    {
      hide Flat, Concat;
      var msg := relay.msg;
      if !open {
        relay := Gone;
        return true;
      }
      if |up| >= DATA_CHANNEL_SIZE {
        return false;
      }
      FlatAppend(up, msg);
      assert Flat(up) + MsgBytes(msg) + [] == Flat(up) + MsgBytes(msg);
      up := up + [msg];
      relay := if Final(msg) then Leaving else Selecting;
      return true;
    }

    /** `rx_from_os.recv`: the next buffer, or the end of the relay when the OS side is gone. */
    method RelayTakeDown() returns (progress: bool)
      requires Valid() && relay.Selecting?
      modifies this`relay, this`down
      ensures Valid() && (progress <==> old(down) != [] || !open)
      ensures old(down) != [] ==> relay == Writing(old(down)[0]) && down == old(down)[1..]
      ensures progress && old(down) == [] ==> relay.Gone?
    {
      hide Flat, Concat;
      if down == [] {
        if open {
          return false;
        }
        relay := Gone;
        return true;
      }
      ConcatStep(down);
      assert [] + Concat(down) == Concat(down);
      relay := Writing(down[0]);
      down := down[1..];
      return true;
    }

    /** One ready poll of the write-all loop: the socket accepts at least one byte, in order. */
    method RelayWrite(k: nat)
      requires Valid() && relay.Writing?
      requires k <= |relay.rest| && (k == 0 ==> relay.rest == [])
      modifies this`relay, this`accepted
      ensures Valid()
      ensures accepted == old(accepted) + old(relay).rest[..k]
      ensures relay == if k == |old(relay).rest| then Selecting else Writing(old(relay).rest[k..])
    {
      hide Flat, Concat;
      var rest := relay.rest;
      WriteBytes(accepted, rest, Concat(down), k);
      accepted := accepted + rest[..k];
      if k == |rest| {
        assert rest[k..] == [];
        relay := Selecting;
      } else {
        relay := Writing(rest[k..]);
      }
    }

    /** The socket refuses the write: an error goes up and the relay ends. */
    method RelayWriteFails()
      requires Valid() && relay.Writing?
      modifies this`relay, this`writeFailed
      ensures Valid() && writeFailed && relay == SendingUp(Error)
    {
      hide Flat, Concat;
      writeFailed := true;
      relay := SendingUp(Error);
    }

    /** The close signal wins the select, whatever is still queued; the stream is being shut down. */
    method RelayClose()
      requires Valid() && relay.Selecting? && closeSignal
      modifies this`relay
      ensures Valid() && relay.Shutting?
    {
      hide Flat, Concat;
      relay := Shutting;
    }

    /**
     * Left alone, the relay writes everything that is queued: all that was offered
     * is accepted, and it goes on serving.
     */
    method RelayWritesAll()
      requires Valid() && open && (relay.Selecting? || relay.Writing?)
      modifies this`relay, this`down, this`accepted
      ensures Valid() && relay.Selecting? && down == [] && accepted == offered
    {
      hide Flat, Ingress, Reasons;
      if relay.Writing? {
        RelayWrite(|relay.rest|);
      }
      while down != []
        invariant Valid() && relay.Selecting?
        decreases |down|
      {
        var _ := RelayTakeDown();
        RelayWrite(|relay.rest|);
      }
      assert accepted + ([] + Concat([])) == accepted;
    }

    /** The relay ends or stops serving writes only after a close, an end of input, an error or a dropped stream. */
    lemma EndsForAReason()
      requires Valid() && !Serving(relay)
      ensures closeSignal || inputOver || writeFailed
    {
    }

    /** The task ends and drops its channel ends. */
    method RelayEnds()
      requires Valid() && (relay.Shutting? || relay.Leaving?)
      modifies this`relay
      ensures Valid() && relay.Gone?
    {
      hide Flat, Concat;
      relay := Gone;
    }

    // ---- The OS thread ----

    /**
     * `poll_read` into a buffer of `cap` bytes: leftovers first, then the next
     * chunk. A zero for a non-empty buffer is the end: every byte the relay took
     * has been delivered, and no later poll returns data or an error.
     */
    method PollRead(cap: nat) returns (r: ReadResult)
      requires Valid() && open
      modifies this`readBuf, this`up, this`delivered, this`ended
      ensures Valid()
      ensures r.Ready? ==> |r.data| <= cap && delivered == old(delivered) + r.data
      ensures !r.Ready? ==> delivered == old(delivered)
      ensures r == Ready([]) && cap > 0 ==> ended && delivered == taken
      ensures old(ended) ==> ended && (r == Ready([]) || r.Pending?)
      ensures r.Pending? <==> old(up) == [] && old(readBuf) == [] && !relay.Gone?
      ensures r.Failed? <==> old(readBuf) == [] && old(up) != [] && old(up)[0].Error?
      ensures old(readBuf) != [] ==> r == Ready(old(readBuf)[..Min(cap, |old(readBuf)|)]) && up == old(up)
      ensures old(readBuf) == [] && old(up) != [] && old(up)[0].Chunk? ==>
        r == Ready(old(up)[0].bytes[..Min(cap, |old(up)[0].bytes|)]) && up == old(up)[1..]
    {
      hide Flat, Egress, Reasons;
      if readBuf != [] {
        var n := Min(cap, |readBuf|);
        DeliverBytes(delivered, readBuf, Flat(up) + Held(relay), n);
        r := Ready(readBuf[..n]);
        delivered := delivered + readBuf[..n];
        readBuf := readBuf[n..];
        return;
      }
      if up == [] {
        if !relay.Gone? {
          return Pending;
        }
        ended := ended || cap > 0;
        NothingMore(delivered, relay);
        return Ready([]);
      }
      r := NextChunk(cap);
    }

    /** The channel has a message: deliver what fits of it and keep the rest. */
    method NextChunk(cap: nat) returns (r: ReadResult)
      requires Valid() && open && readBuf == [] && up != []
      modifies this`readBuf, this`up, this`delivered, this`ended
      ensures Valid() && !r.Pending?
      ensures r.Ready? ==> |r.data| <= cap && delivered == old(delivered) + r.data
      ensures !r.Ready? ==> delivered == old(delivered)
      ensures r == Ready([]) && cap > 0 ==> ended && delivered == taken
      ensures ended ==> r == Ready([])
      ensures r.Failed? <==> old(up)[0].Error?
      ensures r.Ready? ==> r.data == old(up)[0].bytes[..Min(cap, |old(up)[0].bytes|)]
      ensures up == old(up)[1..]
    {
      hide Egress, Reasons, Flat;
      var msg := up[0];
      TakeChunk(delivered, up, Held(relay));
      assert Final(msg) ==> up[1..] == [] && Done(relay);
      up := up[1..];
      match msg
      case Error => return Failed;
      case Chunk(bytes) =>
        if bytes == [] {
          ended := cap > 0;
          NothingMore(delivered, relay);
          return Ready([]);
        }
        var n := Min(cap, |bytes|);
        DeliverBytes(delivered, bytes, Flat(up) + Held(relay), n);
        delivered := delivered + bytes[..n];
        readBuf := bytes[n..];
        return Ready(bytes[..n]);
    }

    /** `poll_write`: the whole buffer is queued, or the channel is full, or the relay has ended. */
    method PollWrite(buf: seq<byte>) returns (n: Option<nat>, pending: bool)
      requires Valid() && open
      modifies this`down, this`offered
      ensures Valid()
      ensures pending <==> !relay.Gone? && |old(down)| == DATA_CHANNEL_SIZE
      ensures n.Some? <==> !relay.Gone? && |old(down)| < DATA_CHANNEL_SIZE
      ensures n.Some? ==> n.value == |buf| && offered == old(offered) + buf
      ensures n.None? ==> offered == old(offered) && down == old(down)
    {
      hide Flat, Concat;
      if relay.Gone? {
        return None, false;
      }
      if |down| >= DATA_CHANNEL_SIZE {
        return None, true;
      }
      ConcatAppend(down, buf);
      OfferBytes(accepted, Unwritten(relay), Concat(down), buf);
      down := down + [buf];
      offered := offered + buf;
      return Some(|buf|), false;
    }

    /** `poll_close`: the signal is sent once; queued writes are not waited for. */
    method PollClose()
      requires Valid()
      modifies this`closeSignal
      ensures Valid() && closeSignal
    {
      closeSignal := true;
    }

    /** The OS thread drops its stream: the channels close and the close signal resolves. */
    method DropStream()
      requires Valid() && open
      modifies this`open, this`closeSignal
      ensures Valid() && !open && closeSignal
    {
      open, closeSignal := false, true;
    }
  }

  // ---- Moving bytes along ----

  lemma TakeBytes(delivered: seq<byte>, readBuf: seq<byte>, queued: seq<byte>, data: seq<byte>)
    ensures delivered + (readBuf + (queued + data)) == delivered + (readBuf + (queued + [])) + data
  {
    assert queued + [] == queued;
    Assoc(readBuf, queued, data);
    Assoc(delivered, readBuf + queued, data);
  }

  lemma DeliverBytes(delivered: seq<byte>, front: seq<byte>, later: seq<byte>, n: nat)
    requires n <= |front|
    ensures delivered + front[..n] + (front[n..] + later) == delivered + (front + later)
    ensures delivered + front[..n] <= delivered + (front + later)
  {
    assert front == front[..n] + front[n..];
    Assoc(front[..n], front[n..], later);
    Assoc(delivered, front[..n], front[n..] + later);
  }

  lemma TakeChunk(delivered: seq<byte>, up: seq<Msg>, held: seq<byte>)
    requires up != []
    ensures delivered + ([] + (Flat(up) + held)) == delivered + (MsgBytes(up[0]) + (Flat(up[1..]) + held))
  {
    Assoc(MsgBytes(up[0]), Flat(up[1..]), held);
    assert [] + (Flat(up) + held) == Flat(up) + held;
  }

  lemma NothingMore(delivered: seq<byte>, relay: Relay)
    requires Done(relay)
    ensures delivered + ([] + (Flat([]) + Held(relay))) == delivered
  {
  }

  lemma ConcatStep(bs: seq<seq<byte>>)
    requires bs != []
    ensures Concat(bs) == bs[0] + Concat(bs[1..])
  {
  }

  lemma WriteBytes(accepted: seq<byte>, rest: seq<byte>, queued: seq<byte>, k: nat)
    requires k <= |rest|
    ensures accepted + rest[..k] + (rest[k..] + queued) == accepted + (rest + queued)
    ensures accepted + rest[..k] <= accepted + (rest + queued)
  {
    DeliverBytes(accepted, rest, queued, k);
  }

  lemma OfferBytes(accepted: seq<byte>, unwritten: seq<byte>, queued: seq<byte>, buf: seq<byte>)
    ensures accepted + (unwritten + (queued + buf)) == accepted + (unwritten + queued) + buf
  {
    Assoc(unwritten, queued, buf);
    Assoc(accepted, unwritten + queued, buf);
  }

  // ---- The write-all loop of `TcpStream::send` ----

  /** How much of `n` bytes a socket takes when asked until it has all or fails, and whether it has all. */
  function Accepts(answers: seq<Option<nat>>, n: nat): (r: (nat, bool))
    ensures r.0 <= n && (r.1 <==> r.0 == n)
    decreases n
  {
    if n == 0 then (0, true)
    else match Answer(answers, n)
      case None => (0, false)
      case Some(k) =>
        var later := Accepts(Tail(answers), n - k);
        (k + later.0, later.1)
  }

  /** One answer to an offer of `n` bytes: an error, or at least one byte; past the plan, all. */
  function Answer(answers: seq<Option<nat>>, n: nat): (r: Option<nat>)
    requires n > 0
    ensures r.Some? ==> 0 < r.value <= n
  {
    if answers == [] then Some(n)
    else if answers[0].None? then None
    else Some(Min(n, if answers[0].value == 0 then 1 else answers[0].value))
  }

  lemma AcceptsStep(answers: seq<Option<nat>>, n: nat)
    requires n > 0
    ensures
      match Answer(answers, n)
      case None => Accepts(answers, n) == (0, false)
      case Some(k) =>
        var later := Accepts(Tail(answers), n - k);
        Accepts(answers, n) == (k + later.0, later.1)
  {
  }

  lemma AcceptsNone(answers: seq<Option<nat>>)
    ensures Accepts(answers, 0) == (0, true)
    ensures answers == [] ==> forall n: nat :: Accepts(answers, n) == (n, true)
  {
  }

  /** A TCP socket's send side, whose answers follow a plan. */
  class SendSide {
    var accepted: seq<byte>
    var answers: seq<Option<nat>>

    method PollSend(data: seq<byte>) returns (n: Option<nat>)
      requires data != []
      modifies this
      ensures n == Answer(old(answers), |data|) && answers == Tail(old(answers))
      ensures n.Some? ==> accepted == old(accepted) + data[..n.value]
      ensures n.None? ==> accepted == old(accepted)
    {
      n := Answer(answers, |data|);
      answers := Tail(answers);
      if n.Some? {
        accepted := accepted + data[..n.value];
      }
    }
  }

  /**
   * `TcpStream::send`: every ready poll shortens what is left. It goes on until
   * the socket has all, in order and once, or fails; and it fails only then.
   */
  method Send(s: SendSide, data: seq<byte>) returns (sent: Option<nat>)
    modifies s
    ensures s.accepted == old(s.accepted) + data[..Accepts(old(s.answers), |data|).0]
    ensures sent == if Accepts(old(s.answers), |data|).1 then Some(|data|) else None
    ensures old(s.answers) == [] ==> sent.Some?
  {
    hide Accepts, Answer;
    var offset := 0;
    assert data[..0] == [];
    AcceptsNone(s.answers);
    ghost var all := Accepts(s.answers, |data|);
    while offset < |data|
      invariant offset <= |data| && s.accepted == old(s.accepted) + data[..offset]
      invariant all == (offset + Accepts(s.answers, |data| - offset).0, Accepts(s.answers, |data| - offset).1)
      decreases |data| - offset
    {
      AcceptsStep(s.answers, |data| - offset);
      var n := s.PollSend(data[offset..]);
      if n.None? {
        return None;
      }
      assert data[..offset] + data[offset..][..n.value] == data[..offset + n.value];
      offset := offset + n.value;
    }
    AcceptsNone(s.answers);
    assert data[..|data|] == data;
    return Some(|data|);
  }
}
