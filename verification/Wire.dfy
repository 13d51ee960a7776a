/** A connected byte stream whose reader returns the peer's bytes in arbitrary fragments. */
module Wire {
  import opened Bytes
  import opened HttpSpec

  /**
   * How many bytes a read into `room` returns: what the plan says, but at least
   * one if there is any, and no more than fit.
   */
  function Amount(plan: seq<nat>, room: nat, available: nat): (k: nat)
    ensures k <= room && k <= available
    ensures k == 0 <==> room == 0 || available == 0
  {
    var most := Min(room, available);
    if plan == [] then most else Min(most, if plan[0] == 0 then 1 else plan[0])
  }

  class Socket {
    /** Bytes the peer sends that no read has returned yet. */
    var unread: seq<byte>
    /** Bytes written to the peer. */
    var out: seq<byte>
    const ending: Ending
    /**
     * The fragmentation: the sizes of the coming reads. A read past the end of
     * the plan takes as much as it can.
     */
    var plan: seq<nat>
    /** Whether every write succeeds, and whether one has failed. */
    const reliable: bool
    var broken: bool
    /** Everything the peer sends. */
    ghost const stream: seq<byte>
    /** How many bytes were left unread at each read so far. */
    ghost var asked: seq<nat>
    /** How many bytes read from this stream were thrown away, each time that some could be. */
    ghost var drops: seq<nat>
    /** A place in the stream, counted from its end, that a paced plan turns on. */
    ghost const pace: nat

    constructor (incoming: seq<byte>, ending: Ending, plan: seq<nat>, reliable: bool, ghost pace: nat)
      ensures unread == incoming && stream == incoming && out == [] && drops == [] && asked == [] && this.ending == ending
      ensures this.plan == plan && this.reliable == reliable && this.pace == pace && !broken
    {
      unread, out, this.plan, broken := incoming, [], plan, false;
      asked, drops := [], [];
      this.ending, this.reliable, this.pace, stream := ending, reliable, pace, incoming;
    }

    /** One byte per read until `pace` bytes are left, then as much as fits. */
    ghost predicate Paced()
      reads this`unread, this`plan
    {
      PacedAt(plan, |unread|, pace)
    }

    /** A paced stream that no read left exactly one byte past the mark. */
    ghost predicate Marked()
      reads this`unread, this`plan
    {
      Paced() && pace >= 2 && |unread| != pace - 1
    }

    /**
     * Read into `dst[lo..hi]`. Zero means an empty slice or the end of the
     * stream; `None` is an I/O error.
     */
    method Read(dst: array<byte>, lo: nat, hi: nat) returns (n: Option<nat>)
      requires lo <= hi <= dst.Length
      modifies this`unread, this`plan, this`asked, dst
      ensures asked == old(asked) + [|old(unread)|]
      ensures n.None? ==> ending.Broken? && old(unread) == [] && lo < hi && unread == []
      ensures n.Some? ==> n.value == Amount(old(plan), hi - lo, |old(unread)|)
      ensures n.Some? ==> unread == old(unread)[n.value..]
      ensures n.Some? ==> dst[..lo + n.value] == old(dst[..lo]) + old(unread)[..n.value]
      ensures n == Some(0) ==> lo == hi || (old(unread) == [] && ending.Eof?)
      ensures n.None? ==> dst[..lo] == old(dst[..lo])
      ensures plan == if n.Some? && n.value > 0 then Tail(old(plan)) else old(plan)
      ensures old(plan) == [] && n.Some? ==> n.value == Min(hi - lo, |old(unread)|)
      ensures old(Paced()) ==> Paced()
      ensures old(Paced()) && |old(unread)| > pace && lo < hi ==> n == Some(1)
      ensures old(Marked()) && hi - lo >= 2 ==> Marked()
    {
      hide PacedAt, Ones;
      if Paced() && unread != [] && lo < hi {
        PacedRead(plan, |unread|, pace, hi - lo);
      }
      asked := asked + [|unread|];
      var k := Amount(plan, hi - lo, |unread|);
      if k == 0 {
        if lo < hi && ending.Broken? {
          return None;
        }
        return Some(0);
      }
      Copy(dst, lo, unread[..k]);
      unread := unread[k..];
      plan := Tail(plan);
      return Some(k);
    }

    /** Write everything, or fail after writing some prefix. */
    method WriteAll(data: seq<byte>) returns (ok: bool)
      modifies this`out, this`broken
      ensures ok ==> out == old(out) + data
      ensures !ok ==> exists k: nat | k <= |data| :: out == old(out) + data[..k]
      ensures broken == (old(broken) || !ok) && (reliable ==> ok)
    {
      var k: nat :| k <= |data|;
      if reliable {
        k := |data|;
      }
      ok :| ok ==> k == |data|;
      ok := ok || reliable;
      out := out + data[..k];
      broken := broken || !ok;
    }
  }

  function Ones(n: nat): (r: seq<nat>)
    ensures |r| == n && forall i | 0 <= i < n :: r[i] == 1
  {
    seq(n, i => 1)
  }

  ghost predicate PacedAt(plan: seq<nat>, unread: nat, pace: nat) {
    unread >= pace ==> plan == Ones(unread - pace)
  }

  /**
   * What one read does to a paced stream: one byte before the mark, and all that
   * fits at the mark, which is more than one byte if there is room.
   */
  lemma PacedRead(plan: seq<nat>, unread: nat, pace: nat, room: nat)
    requires PacedAt(plan, unread, pace) && room > 0 && unread > 0
    ensures
      var k := Amount(plan, room, unread);
      && (unread > pace ==> k == 1)
      && (unread == pace ==> plan == [])
      && PacedAt(Tail(plan), unread - k, pace)
      && (pace >= 2 && room >= 2 && unread != pace - 1 ==> unread - k != pace - 1)
  {
    if unread > pace {
      assert plan[1..] == Ones(unread - 1 - pace);
    }
  }
}
