/**
 * The raw benchmark client's response loop, which stops on its own framing of
 * the bytes read so far.
 */
module RawClient {
  import opened Bytes
  import opened HttpResponse
  import opened Wire

  const BUFFER: nat := 16384

  /** The bytes end a response: a header, and as many body bytes as it announces, if it does. */
  ghost predicate CompleteAt(t: Text, s: seq<byte>, e: nat) {
    && IsHeaderEnd(s, e)
    && match ParseContentLength(t, s[..e])
       case None => true
       case Some(n) => e + n <= |s|
  }

  ghost predicate Complete(t: Text, s: seq<byte>) {
    exists e :: CompleteAt(t, s, e)
  }

  /** A header end stays one when more bytes arrive. */
  lemma HeaderEndExtends(s: seq<byte>, more: seq<byte>, e: nat)
    requires IsHeaderEnd(s, e)
    ensures IsHeaderEnd(s + more, e) && (s + more)[..e] == s[..e]
  {
    forall i | 0 <= i < e - 4 ensures !TerminatorAt(s + more, i) {
      assert !TerminatorAt(s, i);
    }
  }

  lemma NotCompleteYet(t: Text, s: seq<byte>, e: nat)
    requires IsHeaderEnd(s, e) && !CompleteAt(t, s, e)
    ensures !Complete(t, s)
  {
    forall e' | CompleteAt(t, s, e') ensures false {
      HeaderEndUnique(s, e, e');
    }
  }

  /** What the loop has found in the bytes read so far. */
  datatype Found = NoHeader | Header(end: nat, length: Option<nat>)

  ghost predicate FoundIn(t: Text, s: seq<byte>, f: Found) {
    match f
    case NoHeader => forall i :: !TerminatorAt(s, i)
    case Header(e, length) => IsHeaderEnd(s, e) && length == ParseContentLength(t, s[..e])
  }

  predicate Enough(f: Found, total: nat) {
    match f
    case NoHeader => false
    case Header(e, None) => true
    case Header(e, Some(n)) => e + n <= total
  }

  lemma EnoughIsComplete(t: Text, s: seq<byte>, f: Found)
    requires FoundIn(t, s, f)
    ensures Enough(f, |s|) <==> Complete(t, s)
  {
    if f.Header? {
      assert Enough(f, |s|) <==> CompleteAt(t, s, f.end);
      if !CompleteAt(t, s, f.end) {
        NotCompleteYet(t, s, f.end);
      }
    }
  }

  /** Each read from the `from`th on was made while what had been read ended no response. */
  ghost predicate OnlyWhileIncomplete(t: Text, stream: seq<byte>, from: nat, asked: seq<nat>) {
    forall i | from <= i < |asked| :: asked[i] <= |stream| && !Complete(t, stream[..|stream| - asked[i]])
  }

  lemma AskedOnce(t: Text, stream: seq<byte>, from: nat, asked: seq<nat>, total: nat)
    requires OnlyWhileIncomplete(t, stream, from, asked)
    requires total <= |stream| && !Complete(t, stream[..total])
    ensures OnlyWhileIncomplete(t, stream, from, asked + [|stream| - total])
  {
    hide Complete;
  }

  class Client {
    var buf: array<byte>

    constructor ()
      ensures buf.Length == BUFFER && fresh(buf)
    {
      buf := new byte[BUFFER](_ => 0);
    }

    /** Search the bytes read so far for a header, unless one was found before. */
    method Look(t: Text, total: nat, known: Found) returns (f: Found)
      requires total <= buf.Length
      requires known.Header? ==> FoundIn(t, buf[..total], known)
      ensures FoundIn(t, buf[..total], f)
      ensures known.Header? ==> f == known
    {
      if known.Header? {
        return known;
      }
      var pos := FindHeaderEnd(buf[..total]);
      match pos
      case None => return NoHeader;
      case Some(e) => return Header(e, ParseContentLength(t, buf[..total][..e]));
    }

    method Grow(total: nat)
      requires 0 < buf.Length && total <= buf.Length
      modifies this
      ensures fresh(buf) && buf.Length == 2 * old(buf.Length)
      ensures buf[..total] == old(buf[..total])
    {
      var bigger := new byte[2 * buf.Length](_ => 0);
      forall i | 0 <= i < buf.Length {
        bigger[i] := buf[i];
      }
      buf := bigger;
    }

    /** Double a full buffer, so that the next read has room. */
    method GrowIfFull(total: nat)
      requires 0 < buf.Length && total <= buf.Length
      modifies this
      ensures total < buf.Length && (buf == old(buf) || fresh(buf)) && buf[..total] == old(buf[..total])
      ensures buf != old(buf) ==> old(buf.Length) == total && buf.Length == 2 * total
    {
      if total >= buf.Length {
        Grow(total);
      }
    }

    /** Read until the bytes so far end a response, or the stream stops. */
    method ReadUntilEnough(t: Text, s: Socket) returns (total: nat, found: Found)
      requires 0 < buf.Length
      modifies this, buf, s`unread, s`plan, s`asked
      ensures 0 < buf.Length && (buf == old(buf) || fresh(buf))
      ensures total <= |old(s.unread)| && s.unread == old(s.unread)[total..]
      ensures FoundIn(t, old(s.unread)[..total], found)
      ensures Enough(found, total) || s.unread == []
      ensures buf == old(buf) || old(buf.Length) <= total <= buf.Length <= 2 * total
      ensures old(s.asked) < s.asked && OnlyWhileIncomplete(t, old(s.unread), |old(s.asked)|, s.asked)
    {
      hide FoundIn, Enough, Complete, OnlyWhileIncomplete, Socket.Paced, Socket.Marked, Amount, Tail;
      ghost var stream, from := s.unread, |s.asked|;
      total, found := 0, NoHeader;
      StartAsking(t, stream, s.asked);
      NothingFound(t);
      while true
        invariant total < buf.Length && (buf == old(buf) || fresh(buf))
        invariant buf == old(buf) || old(buf.Length) <= total < buf.Length <= 2 * total
        invariant total <= |stream| && buf[..total] == stream[..total] && s.unread == stream[total..]
        invariant FoundIn(t, stream[..total], found) && !Enough(found, total)
        invariant old(s.asked) <= s.asked && OnlyWhileIncomplete(t, stream, from, s.asked)
        decreases |s.unread|
      {
        EnoughIsComplete(t, stream[..total], found);
        AskedOnce(t, stream, from, s.asked, total);
        var n := s.Read(buf, total, buf.Length);
        if n.None? || n.value == 0 {
          return;
        }
        Extend(t, stream, total, n.value, found);
        total := total + n.value;
        found := Look(t, total, found);
        if Enough(found, total) {
          return;
        }
        GrowIfFull(total);
      }
    }

    /** Read and discard what is missing of the announced body. */
    method Drain(t: Text, s: Socket, already: nat, end: nat, length: nat, ghost stream: seq<byte>)
      returns (total: nat)
      requires 0 < buf.Length && end <= already <= |stream|
      requires s.unread == stream[already..] && Complete(t, stream[..already])
      modifies buf, s`unread, s`plan, s`asked
      ensures already <= total <= |stream| && s.unread == stream[total..] && Complete(t, stream[..total])
      ensures end + length <= already ==> total == already && s.asked == old(s.asked)
    {
      hide Complete;
      total := already;
      var received := total - end;
      while received < length
        invariant already <= total <= |stream| && received == total - end
        invariant end + length <= already ==> total == already && s.asked == old(s.asked)
        invariant s.unread == stream[total..] && Complete(t, stream[..total])
        decreases |stream| - total
      {
        var n := s.Read(buf, 0, Min(length - received, buf.Length));
        if n.None? || n.value == 0 {
          break;
        }
        CompleteExtends(t, stream, total, n.value);
        received := received + n.value;
        total := total + n.value;
      }
    }

    /**
     * Read one response. `Some(total)`: the bytes read end a response. `None`:
     * everything was read and it ends none. No read is made once the bytes so far
     * end a response, so a client never waits for more than it needs.
     */
    method ReadResponse(t: Text, s: Socket) returns (r: Option<nat>)
      requires 0 < buf.Length
      modifies this, buf, s`unread, s`plan, s`asked
      ensures 0 < buf.Length && (buf == old(buf) || fresh(buf))
      ensures match r
        case Some(total) =>
          && total <= |old(s.unread)|
          && s.unread == old(s.unread)[total..]
          && Complete(t, old(s.unread)[..total])
        case None => s.unread == [] && !Complete(t, old(s.unread))
      ensures old(s.asked) < s.asked && OnlyWhileIncomplete(t, old(s.unread), |old(s.asked)|, s.asked)
    {
      hide FoundIn, Complete, OnlyWhileIncomplete;
      ghost var stream := s.unread;
      var total, found := ReadUntilEnough(t, s);
      EnoughIsComplete(t, stream[..total], found);
      if !Enough(found, total) {
        assert stream[..total] == stream;
        return None;
      }
      if found.length.Some? {
        total := Drain(t, s, total, found.end, found.length.value, stream);
      }
      return Some(total);
    }
  }

  /**
   * Reading a printed response: never short of it, exactly it when nothing follows,
   * and whatever follows, no read is made once the whole response is in.
   */
  method ReadPrinted(c: Client, t: Text, r: Response, s: Socket, ghost extra: seq<byte>) returns (total: nat)
    requires 0 < c.buf.Length
    requires t.Lawful() && Printable(r) && !HasContentLength(r.headers)
    requires s.unread == Serialize(t, r) + extra
    modifies c, c.buf, s`unread, s`plan, s`asked
    ensures |Serialize(t, r)| <= total <= |old(s.unread)|
    ensures s.unread == old(s.unread)[total..]
    ensures extra == [] ==> total == |Serialize(t, r)| && s.unread == []
    ensures old(s.asked) < s.asked && forall i | |old(s.asked)| <= i < |s.asked| :: s.asked[i] > |extra|
  {
    hide Printable, Serialize, Complete, HasContentLength;
    ghost var wire := s.unread;
    StopsAtTheEnd(t, r, extra, |wire|);
    assert wire[..|wire|] == wire;
    var got := c.ReadResponse(t, s);
    total := got.value;
    StopsAtTheEnd(t, r, extra, total);
    forall i | |old(s.asked)| <= i < |s.asked| ensures s.asked[i] > |extra| {
      StopsAtTheEnd(t, r, extra, |wire| - s.asked[i]);
    }
  }

  lemma StartAsking(t: Text, stream: seq<byte>, asked: seq<nat>)
    ensures OnlyWhileIncomplete(t, stream, |asked|, asked) && !Enough(NoHeader, 0)
  {
  }

  lemma NothingFound(t: Text)
    ensures forall s: seq<byte> :: FoundIn(t, s[..0], NoHeader)
  {
  }

  lemma Extend(t: Text, s: seq<byte>, total: nat, n: nat, f: Found)
    requires total + n <= |s| && FoundIn(t, s[..total], f)
    ensures s[..total + n] == s[..total] + s[total..][..n]
    ensures s[total + n..] == s[total..][n..]
    ensures f.Header? ==> FoundIn(t, s[..total + n], f)
  {
    var p := s[..total];
    var more := s[total..][..n];
    assert s[..total + n] == p + more;
    if f.Header? {
      HeaderEndExtends(p, more, f.end);
    }
  }

  lemma CompleteExtends(t: Text, s: seq<byte>, total: nat, n: nat)
    requires total + n <= |s| && Complete(t, s[..total])
    ensures Complete(t, s[..total + n]) && s[total + n..] == s[total..][n..]
  {
    var e :| CompleteAt(t, s[..total], e);
    assert s[..total + n] == s[..total] + s[total..][..n];
    HeaderEndExtends(s[..total], s[total..][..n], e);
    assert CompleteAt(t, s[..total + n], e);
  }

  /**
   * A printed response is complete exactly from its last byte on. So a client
   * that waits for each response stops after precisely the whole of it, under
   * any fragmentation, and one that gets `extra` bytes never stops short.
   */
  lemma StopsAtTheEnd(t: Text, r: Response, extra: seq<byte>, n: nat)
    requires t.Lawful() && Printable(r) && !HasContentLength(r.headers)
    requires n <= |Serialize(t, r) + extra|
    ensures Complete(t, (Serialize(t, r) + extra)[..n]) <==> |Serialize(t, r)| <= n
  {
    hide Printable, Serialize, ParseContentLength, HasContentLength, BodyStart;
    var wire := Serialize(t, r) + extra;
    var p := wire[..n];
    var e := BodyStart(t, r);
    FramerRoundTrip(t, r, extra);
    if n < e {
      NoTerminatorBefore(wire, e, n);
    } else {
      HeaderEndTake(wire, e, n);
      if n >= e + |r.body| {
        assert CompleteAt(t, p, e);
      } else {
        NotCompleteYet(t, p, e);
      }
    }
  }

  lemma NoTerminatorBefore(s: seq<byte>, e: nat, n: nat)
    requires IsHeaderEnd(s, e) && n < e && n <= |s|
    ensures forall i :: !TerminatorAt(s[..n], i)
  {
    forall i ensures !TerminatorAt(s[..n], i) {
      if 0 <= i <= n - 4 {
        assert !TerminatorAt(s, i);
      }
    }
  }

  lemma HeaderEndTake(s: seq<byte>, e: nat, n: nat)
    requires IsHeaderEnd(s, e) && e <= n <= |s|
    ensures IsHeaderEnd(s[..n], e) && s[..n][..e] == s[..e]
  {
    forall i | 0 <= i < e - 4 ensures !TerminatorAt(s[..n], i) {
      assert !TerminatorAt(s, i);
    }
  }
}
