/**
 * The echo client and server over one TCP connection, seen as two byte pipes.
 * Each method is one `process` call or one thing the network may do; called in
 * any order they keep the echo invariant. Parameters are the sockets' answers:
 * how many bytes a call takes is any number, cut to what there is.
 */
module Echo {
  import opened Bytes

  datatype ClientState = Connecting | Connected | WaitingForEcho | Complete | Closed

  class System {
    // The client
    var state: ClientState
    var dataToSend: seq<byte>
    var sendOffset: nat
    var received: seq<byte>
    var expectedLen: nat
    // The server
    var pendingTx: seq<byte>
    var wasConnected: bool
    var connections: nat
    var bytesReceived: nat
    var bytesSent: nat
    // The connection: bytes on their way to the server and back, and whether it still delivers
    var forward: seq<byte>
    var back: seq<byte>
    var alive: bool
    /** What was passed to `send` after the client stopped sending, and how many bytes the server forgot. */
    ghost var since: seq<byte>
    ghost var forgotten: nat
    /** Everything that happened, in order. */
    ghost var history: seq<Op>

    /**
     * While the connection lives, every byte the client sent is in exactly one
     * place, in order. Whatever happens to it, what comes back is a prefix of what
     * was sent.
     */
    ghost predicate Valid()
      reads this`state, this`dataToSend, this`sendOffset, this`received, this`expectedLen, this`pendingTx,
            this`bytesReceived, this`bytesSent, this`forward, this`back, this`alive, this`since, this`forgotten
    {
      && expectedLen == |dataToSend| && sendOffset <= |dataToSend|
      && received + back <= dataToSend[..sendOffset]
      && (alive ==> received + (back + (pendingTx + forward)) == dataToSend[..sendOffset])
      && (state.WaitingForEcho? || state.Complete? ==> dataToSend[..sendOffset] + since == dataToSend)
      && (state.Connecting? || state.Connected? ==> since == [])
      && (state.Complete? ==> received == dataToSend[..sendOffset])
      && bytesReceived == bytesSent + |pendingTx| + forgotten
    }

    constructor ()
      ensures Valid() && state == Connecting && alive && dataToSend == [] && history == []
    {
      state, dataToSend, sendOffset, received, expectedLen := Connecting, [], 0, [], 0;
      pendingTx, wasConnected, connections, bytesReceived, bytesSent := [], false, 0, 0, 0;
      forward, back, alive := [], [], true;
      since, forgotten, history := [], 0, [];
    }

    /** The client's `send` queues data, at any time. */
    method Send(data: seq<byte>)
      requires Valid()
      modifies this`dataToSend, this`expectedLen, this`since, this`history
      ensures Valid() && dataToSend == old(dataToSend) + data
      ensures history == old(history) + [SendData(data)]
      ensures since == if state.Connecting? || state.Connected? then [] else old(since) + data
    {
      SplitAppend(dataToSend, data, sendOffset);
      Assoc(dataToSend[..sendOffset], since, data);
      dataToSend := dataToSend + data;
      expectedLen := expectedLen + |data|;
      if !state.Connecting? && !state.Connected? {
        since := since + data;
      }
      history := history + [SendData(data)];
    }

    /** `verify_echo` accepts exactly a full echo; at completion it fails only for data queued since. */
    method VerifyEcho() returns (ok: bool)
      requires Valid()
      ensures ok <==> received == dataToSend
      ensures state.Complete? ==> (ok <==> since == [])
    {
      if |received| < expectedLen {
        return false;
      }
      assert |received| <= |received + back| <= sendOffset;
      assert received + [] == received;
      return received[..expectedLen] == dataToSend[..expectedLen];
    }

    /**
     * The server's `process`. An active socket: take what has arrived, echo what
     * the socket accepts. A connection that ended: forget what is pending, so that
     * the next connection starts clean.
     */
    method ServerProcess(active: bool, taken: nat, sent: nat, kept: nat) returns (echoed: nat)
      requires Valid()
      modifies this`pendingTx, this`wasConnected, this`connections, this`bytesReceived, this`bytesSent,
               this`forward, this`back, this`alive, this`forgotten, this`history
      ensures Valid() && echoed == bytesSent - old(bytesSent)
      ensures active ==> alive == old(alive)
      ensures active ==>
        Moves(old(forward), old(pendingTx), old(back), taken, sent, alive, forward, pendingTx, back, echoed)
      ensures bytesReceived == old(bytesReceived) + if active then Min(taken, |old(forward)|) else 0
      ensures !active && !old(wasConnected) ==> unchanged(`forward, `back, `alive, `pendingTx)
      ensures !active && old(wasConnected) ==>
        !alive && forward == [] && pendingTx == [] && back == old(back)[..Min(kept, |old(back)|)]
      ensures wasConnected == active
      ensures connections == old(connections) + if active && !old(wasConnected) then 1 else 0
      ensures history == old(history) + [Server(active, taken, sent, kept)]
    {
      hide Valid, Moves;
      echoed := 0;
      if active {
        if !wasConnected {
          connections := connections + 1;
          wasConnected := true;
        }
        echoed := WhileActive(taken, sent);
      } else if wasConnected {
        Forget(kept);
      }
      history := history + [Server(active, taken, sent, kept)];
    }

    method WhileActive(taken: nat, sent: nat) returns (echoed: nat)
      requires Valid()
      modifies this`pendingTx, this`bytesReceived, this`bytesSent, this`forward, this`back
      ensures Valid() && echoed == bytesSent - old(bytesSent)
      ensures Moves(old(forward), old(pendingTx), old(back), taken, sent, alive, forward, pendingTx, back, echoed)
      ensures bytesReceived == old(bytesReceived) + Min(taken, |old(forward)|)
    {
      hide Valid;
      ServerReceive(taken);
      echoed := ServerEcho(sent);
    }

    /** The connection has ended; whatever of the echo got through stays readable. */
    method Forget(kept: nat)
      requires Valid()
      modifies this`forward, this`back, this`alive, this`wasConnected, this`pendingTx, this`forgotten
      ensures Valid() && !alive && !wasConnected && pendingTx == []
      ensures forward == [] && back == old(back)[..Min(kept, |old(back)|)]
    {
      Cut(kept);
      wasConnected := false;
      forgotten := forgotten + |pendingTx|;
      pendingTx := [];
    }

    method ServerReceive(taken: nat)
      requires Valid()
      modifies this`forward, this`pendingTx, this`bytesReceived
      ensures Valid() && bytesReceived == old(bytesReceived) + Min(taken, |old(forward)|)
      ensures pendingTx == old(pendingTx) + old(forward)[..Min(taken, |old(forward)|)]
      ensures forward == old(forward)[Min(taken, |old(forward)|)..]
    {
      var k := Min(taken, |forward|);
      assert forward == forward[..k] + forward[k..];
      Assoc(pendingTx, forward[..k], forward[k..]);
      bytesReceived := bytesReceived + k;
      pendingTx := pendingTx + forward[..k];
      forward := forward[k..];
    }

    /** `send_slice` takes a prefix of what is pending; a dead connection swallows it. */
    method ServerEcho(sent: nat) returns (k: nat)
      requires Valid()
      modifies this`back, this`pendingTx, this`bytesSent
      ensures Valid() && bytesSent == old(bytesSent) + k
      ensures k == Min(sent, |old(pendingTx)|) && pendingTx == old(pendingTx)[k..]
      ensures back == if alive then old(back) + old(pendingTx)[..k] else old(back)
    {
      k := Min(sent, |pendingTx|);
      EchoBytes(received, back, pendingTx, forward, k);
      if alive {
        back := back + pendingTx[..k];
      }
      bytesSent := bytesSent + k;
      pendingTx := pendingTx[k..];
    }

    /** The connection is lost at any time. */
    method Lose(kept: nat)
      requires Valid()
      modifies this`forward, this`back, this`alive, this`history
      ensures Valid() && !alive && forward == [] && back == old(back)[..Min(kept, |old(back)|)]
      ensures history == old(history) + [Loss(kept)]
    {
      Cut(kept);
      history := history + [Loss(kept)];
    }

    /** The connection dies: only bytes that already reached the client will still be read. */
    method Cut(kept: nat)
      requires Valid()
      modifies this`forward, this`back, this`alive
      ensures Valid() && !alive && forward == [] && back == old(back)[..Min(kept, |old(back)|)]
    {
      var k := Min(kept, |back|);
      assert received + back[..k] <= received + back;
      back := back[..k];
      forward := [];
      alive := false;
    }

    /**
     * The client's `process`. It only moves forward through its states, it stops
     * sending for good when all that was queued is sent, and it completes exactly
     * when all that is queued has come back.
     */
    method ClientProcess(isActive: bool, canSend: bool, isOpen: bool, amount: nat) returns (changed: bool)
      requires Valid()
      modifies this`state, this`sendOffset, this`forward, this`received, this`back, this`history
      ensures Valid() && changed == (state != old(state))
      ensures history == old(history) + [Client(isActive, canSend, isOpen, amount)]
      ensures Follows(old(state), state)
      ensures !isOpen ==> state.Complete? || state.Closed?
      ensures !old(state).Connected? ==> sendOffset == old(sendOffset) && forward == old(forward)
      ensures !old(state).WaitingForEcho? ==> received == old(received) && back == old(back)
      ensures old(state).WaitingForEcho? ==> received == old(received + back[..Min(amount, |back|)])
      ensures old(state).WaitingForEcho? ==> (state.Complete? <==> received == dataToSend)
      ensures old(state).Connecting? && isOpen ==> (state.Connected? <==> isActive)
      ensures old(state).Connected? && isOpen ==> (state.WaitingForEcho? <==> sendOffset == |dataToSend| > 0)
      ensures old(state).Connected? && !canSend ==> sendOffset == old(sendOffset) && forward == old(forward)
      ensures old(state).Connected? && canSend ==>
        sendOffset == old(sendOffset) + Min(amount, |dataToSend| - old(sendOffset))
    {
      var before := state;
      match state {
        case Connecting =>
          if isActive {
            state := Connected;
          }
        case Connected => WhileConnected(canSend, amount);
        case WaitingForEcho => WhileWaiting(amount);
        case Complete =>
        case Closed =>
      }
      if !isOpen && !state.Complete? {
        state := Closed;
      }
      changed := state != before;
      history := history + [Client(isActive, canSend, isOpen, amount)];
    }

    method WhileConnected(canSend: bool, amount: nat)
      requires Valid() && state.Connected?
      modifies this`state, this`sendOffset, this`forward
      ensures Valid()
      ensures state == if sendOffset == |dataToSend| > 0 then WaitingForEcho else Connected
      ensures canSend ==> sendOffset == old(sendOffset) + Min(amount, |dataToSend| - old(sendOffset))
      ensures !canSend ==> sendOffset == old(sendOffset) && forward == old(forward)
    {
      if sendOffset < |dataToSend| && canSend {
        ClientTransmit(amount);
      }
      if sendOffset >= |dataToSend| && dataToSend != [] {
        assert dataToSend[..sendOffset] + [] == dataToSend;
        state := WaitingForEcho;
      }
    }

    method WhileWaiting(amount: nat)
      requires Valid() && state.WaitingForEcho?
      modifies this`state, this`received, this`back
      ensures Valid() && received == old(received + back[..Min(amount, |back|)])
      ensures state == if received == dataToSend then Complete else WaitingForEcho
    {
      ClientReceive(amount);
      OnlyAll(received, back, dataToSend, sendOffset);
      if |received| >= expectedLen {
        state := Complete;
      }
    }

    /** `send_slice`: the socket takes some prefix of what is left. */
    method ClientTransmit(amount: nat)
      requires Valid() && state.Connected? && sendOffset < |dataToSend|
      modifies this`sendOffset, this`forward
      ensures Valid() && sendOffset == old(sendOffset) + Min(amount, |dataToSend| - old(sendOffset))
    {
      var k := Min(amount, |dataToSend| - sendOffset);
      assert dataToSend[..sendOffset] <= dataToSend[..sendOffset + k];
      if alive {
        TransmitBytes(received, back, pendingTx, forward, dataToSend, sendOffset, k);
        forward := forward + dataToSend[sendOffset..][..k];
      }
      sendOffset := sendOffset + k;
    }

    method ClientReceive(amount: nat)
      requires Valid() && state.WaitingForEcho?
      modifies this`received, this`back
      ensures Valid() && received + back == old(received + back)
      ensures received == old(received + back[..Min(amount, |back|)])
    {
      var k := Min(amount, |back|);
      ReceiveBytes(received, back, pendingTx + forward, k);
      received := received + back[..k];
      back := back[k..];
    }

    // ---- Runs ----

    /** Do any one thing that can happen. */
    method Do(op: Op)
      requires Valid()
      modifies this
      ensures Valid() && Follows(old(state), state) && history == old(history) + [op]
      ensures old(since) <= since && old(dataToSend) <= dataToSend
      ensures old(state).WaitingForEcho? && state.Complete? ==> since == []
    {
      match op
      case SendData(data) => Send(data);
      case Server(active, taken, sent, kept) =>
        var _ := ServerProcess(active, taken, sent, kept);
      case Client(isActive, canSend, isOpen, amount) =>
        assert state.WaitingForEcho? ==> dataToSend[..sendOffset] + since == dataToSend;
        var _ := ClientProcess(isActive, canSend, isOpen, amount);
      case Loss(kept) => Lose(kept);
    }

    /**
     * Whatever happens after the client has stopped sending, it completes only if
     * nothing was passed to `send` in between; a client that was given more never
     * does.
     */
    method Run(ops: seq<Op>)
      requires Valid() && (state.WaitingForEcho? || state.Closed?)
      modifies this
      ensures Valid() && old(since) <= since && old(dataToSend) <= dataToSend
      ensures old(since) != [] || old(state).Closed? ==> !state.Complete?
      ensures history == old(history) + ops
    {
      assert ops[..0] == [];
      for i := 0 to |ops|
        invariant Valid() && old(since) <= since && old(dataToSend) <= dataToSend
        invariant old(since) != [] || old(state).Closed? ==> state.WaitingForEcho? || state.Closed?
        invariant old(state).Closed? ==> state.Closed?
        invariant history == old(history) + ops[..i]
      {
        Assoc(old(history), ops[..i], [ops[i]]);
        assert ops[..i + 1] == ops[..i] + [ops[i]];
        Do(ops[i]);
      }
      assert ops[..|ops|] == ops;
    }

    /** Let everything under way come back; the client is then complete if and only if it was given no more. */
    method LetThrough()
      requires Valid() && state.WaitingForEcho? && alive
      modifies this
      ensures Valid() && (state.Complete? <==> old(since) == [])
      ensures |history| == |old(history)| + 2 && history[|old(history)|].Server? && history[|old(history)| + 1].Client?
    {
      var echoed := ServerProcess(true, |forward|, |pendingTx| + |forward|, 0);
      AllBack(received, back, dataToSend, sendOffset);
      var _ := ClientProcess(true, true, true, |back|);
    }
  }

  /**
   * What an active server moves: it takes the first `taken` bytes on their way to
   * it and echoes the first `sent` of what is then pending.
   */
  predicate Moves(
    forward: seq<byte>, pending: seq<byte>, back: seq<byte>, taken: nat, sent: nat, alive: bool,
    forward': seq<byte>, pending': seq<byte>, back': seq<byte>, echoed: nat)
  {
    var k := Min(taken, |forward|);
    var all := pending + forward[..k];
    && forward' == forward[k..]
    && echoed == Min(sent, |all|) && pending' == all[echoed..]
    && back' == if alive then back + all[..echoed] else back
  }

  datatype Op =
    | SendData(data: seq<byte>)
    | Server(active: bool, taken: nat, sent: nat, kept: nat)
    | Client(isActive: bool, canSend: bool, isOpen: bool, amount: nat)
    | Loss(kept: nat)

  /** The order of the client's states. */
  predicate Follows(a: ClientState, b: ClientState) {
    match a
    case Connecting => b.Connecting? || b.Connected? || b.Closed?
    case Connected => b.Connected? || b.WaitingForEcho? || b.Closed?
    case WaitingForEcho => b.WaitingForEcho? || b.Complete? || b.Closed?
    case Complete => b.Complete?
    case Closed => b.Closed?
  }

  function LateSend(): seq<Op> {
    [SendData([1]), Client(true, true, true, 0), Client(true, true, true, 1), SendData([2])]
  }

  method TooLate() returns (c: System)
    ensures fresh(c) && c.Valid() && c.state.WaitingForEcho? && c.since == [2]
    ensures c.dataToSend == [1, 2] && c.history == LateSend()
  {
    hide System.Valid;
    c := new System();
    c.Send([1]);
    assert c.dataToSend == [1];
    var _ := c.ClientProcess(true, true, true, 0);
    var _ := c.ClientProcess(true, true, true, 1);
    Untouched(c);
    c.Send([2]);
    assert c.dataToSend == [1] + [2] == [1, 2];
    assert c.history == LateSend();
  }

  lemma Untouched(c: System)
    requires c.Valid() && c.state.WaitingForEcho? && c.sendOffset == |c.dataToSend|
    ensures c.since == []
  {
  }

  /** One byte sent in time and one too late: the client never completes, whatever happens then. */
  method Stuck(ops: seq<Op>) returns (c: System)
    ensures fresh(c) && c.Valid() && !c.state.Complete? && [1, 2] <= c.dataToSend
    ensures c.history == LateSend() + ops
  {
    c := TooLate();
    hide System.Valid;
    c.Run(ops);
  }

  lemma AllBack(received: seq<byte>, back: seq<byte>, data: seq<byte>, offset: nat)
    requires offset <= |data| && received + (back + ([] + [])) == data[..offset]
    ensures received + back[..|back|] == data[..offset]
    ensures data[..offset] == data <==> offset == |data|
  {
    assert back + ([] + []) == back && back[..|back|] == back;
  }

  lemma EchoBytes(received: seq<byte>, back: seq<byte>, pending: seq<byte>, forward: seq<byte>, k: nat)
    requires k <= |pending|
    ensures back + pending[..k] + pending[k..] == back + pending
    ensures received + ((back + pending[..k]) + (pending[k..] + forward)) == received + (back + (pending + forward))
    ensures received + (back + pending[..k]) <= received + (back + (pending + forward))
  {
    assert pending == pending[..k] + pending[k..];
    Assoc(back, pending[..k], pending[k..]);
    Assoc(pending[..k], pending[k..], forward);
    Assoc(back, pending[..k], pending[k..] + forward);
    Assoc(received, back + pending[..k], pending[k..] + forward);
  }

  lemma ReceiveBytes(received: seq<byte>, back: seq<byte>, later: seq<byte>, k: nat)
    requires k <= |back|
    ensures received + back[..k] + back[k..] == received + back
    ensures received + back[..k] + (back[k..] + later) == received + (back + later)
  {
    assert back == back[..k] + back[k..];
    Assoc(received, back[..k], back[k..]);
    Assoc(back[..k], back[k..], later);
    Assoc(received, back[..k], back[k..] + later);
  }

  lemma TransmitBytes(
    received: seq<byte>, back: seq<byte>, pending: seq<byte>, forward: seq<byte>,
    data: seq<byte>, offset: nat, k: nat)
    requires offset + k <= |data|
    requires received + (back + (pending + forward)) == data[..offset]
    requires received + back <= data[..offset]
    ensures received + (back + (pending + (forward + data[offset..][..k]))) == data[..offset + k]
    ensures received + back <= data[..offset + k]
  {
    var more := data[offset..][..k];
    Assoc(pending, forward, more);
    Assoc(back, pending + forward, more);
    Assoc(received, back + (pending + forward), more);
    assert data[..offset] + more == data[..offset + k];
    assert data[..offset] <= data[..offset + k];
  }

  /** Nothing but the whole of the data is long enough. */
  lemma OnlyAll(received: seq<byte>, back: seq<byte>, data: seq<byte>, offset: nat)
    requires offset <= |data| && received + back <= data[..offset]
    ensures |received| >= |data| <==> received == data
    ensures received == data ==> data[..offset] == data
  {
    assert received <= received + back;
  }
}
