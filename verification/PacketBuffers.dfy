/**
 * Packet buffers and who has them: the memory pool that all queues share, and the
 * NIC's queue pair. Their answers follow explicit plans, so that a result can be
 * stated for every course of events or for one.
 */
module PacketBuffers {
  import opened Bytes

  /** A filled buffer. */
  datatype Packet = Packet(mbuf: nat, data: seq<byte>)

  function Mbufs(ps: seq<Packet>): seq<nat> {
    seq(|ps|, i requires 0 <= i < |ps| => ps[i].mbuf)
  }

  /** The buffers a batch owns. */
  function Ids(ps: seq<Packet>): multiset<nat> {
    multiset(Mbufs(ps))
  }

  lemma IdsAppend(a: seq<Packet>, b: seq<Packet>)
    ensures Ids(a + b) == Ids(a) + Ids(b)
  {
    assert Mbufs(a + b) == Mbufs(a) + Mbufs(b);
  }

  lemma IdsOne(p: Packet)
    ensures Ids([p]) == multiset{p.mbuf} && Ids([]) == multiset{}
  {
    assert Mbufs([p]) == [p.mbuf] && Mbufs([]) == [];
  }

  lemma IdsSplit(ps: seq<Packet>, k: nat)
    requires k <= |ps|
    ensures Ids(ps) == Ids(ps[..k]) + Ids(ps[k..])
  {
    assert ps == ps[..k] + ps[k..];
    IdsAppend(ps[..k], ps[k..]);
  }

  function Datas(ps: seq<Packet>): (r: seq<seq<byte>>)
    ensures |r| == |ps| && forall i | 0 <= i < |ps| :: r[i] == ps[i].data
  {
    seq(|ps|, i requires 0 <= i < |ps| => ps[i].data)
  }

  // ---- The memory pool, shared by all queues ----

  /** Who has each buffer: the pool, or the queue it was handed to. */
  type Owners = map<nat, Option<nat>>

  function HeldBy(owner: Owners, q: nat): set<nat> {
    set m | m in owner && owner[m] == Some(q)
  }

  /** Buffers moved between the pool and queue `q` only. */
  ghost predicate OnlyMoves(o: Owners, o': Owners, q: nat) {
    && o'.Keys == o.Keys
    && forall m | m in o && o'[m] != o[m] :: o[m] in {None, Some(q)} && o'[m] in {None, Some(q)}
  }

  lemma OnlyMovesTrans(a: Owners, b: Owners, c: Owners, q: nat)
    requires OnlyMoves(a, b, q) && OnlyMoves(b, c, q)
    ensures OnlyMoves(a, c, q)
  {
  }

  /** What one queue does leaves every other queue its buffers. */
  lemma OthersKeep(o: Owners, o': Owners, q: nat, q': nat)
    requires OnlyMoves(o, o', q) && q' != q
    ensures HeldBy(o', q') == HeldBy(o, q')
  {
  }

  lemma Taken(o: Owners, m: nat, q: nat)
    requires m in o && o[m].None?
    ensures multiset(HeldBy(o[m := Some(q)], q)) == multiset(HeldBy(o, q)) + multiset{m}
    ensures OnlyMoves(o, o[m := Some(q)], q)
  {
    assert HeldBy(o[m := Some(q)], q) == HeldBy(o, q) + {m} && m !in HeldBy(o, q);
  }

  lemma Returned(o: Owners, m: nat, q: nat)
    requires m in o && o[m] == Some(q)
    ensures multiset(HeldBy(o[m := None], q)) + multiset{m} == multiset(HeldBy(o, q))
    ensures OnlyMoves(o, o[m := None], q)
  {
    assert HeldBy(o[m := None], q) + {m} == HeldBy(o, q) && m !in HeldBy(o[m := None], q);
  }

  /** How many allocations in a row succeed, with `size` free buffers and the refusals to come. */
  function Ready(size: nat, refusals: seq<bool>): (n: nat)
    ensures n <= size
    decreases size
  {
    if size == 0 || (refusals != [] && refusals[0]) then 0
    else 1 + Ready(size - 1, if refusals == [] then [] else refusals[1..])
  }

  class MemPool {
    /** The longest frame a buffer holds. */
    const room: nat
    var free: set<nat>
    /** Which of the coming allocations find the pool drained by other queues. */
    var refusals: seq<bool>
    ghost var owner: Owners

    ghost predicate Valid()
      reads this
    {
      free == set m | m in owner && owner[m].None?
    }

    constructor (size: nat, room: nat, refusals: seq<bool>)
      ensures Valid() && |free| == size && this.room == room && this.refusals == refusals
      ensures forall q :: HeldBy(owner, q) == {}
    {
      free := Range(size);
      this.room, this.refusals := room, refusals;
      owner := map m | m in Range(size) :: None;
    }

    function ReadyNow(): nat
      reads this
    {
      Ready(|free|, refusals)
    }

    /** How many frames of this length in a row get a buffer. */
    function Fills(length: nat): nat
      reads this
    {
      if length <= room then ReadyNow() else 0
    }

    /** `try_alloc`: a buffer, unless the pool is drained. */
    method TryAlloc(q: nat) returns (m: Option<nat>)
      requires Valid()
      modifies this
      ensures Valid() && (m.Some? <==> old(ReadyNow()) > 0)
      ensures m.None? ==> owner == old(owner) && free == old(free)
      ensures m.Some? ==>
        && m.value in old(owner) && old(owner)[m.value].None? && owner == old(owner)[m.value := Some(q)]
        && ReadyNow() == old(ReadyNow()) - 1
        && |free| == |old(free)| - 1
      ensures refusals == Tail(old(refusals))
    {
      var refused := refusals != [] && refusals[0];
      var later := if refusals == [] then [] else refusals[1..];
      if refused || free == {} {
        refusals := later;
        return None;
      }
      var k :| k in free;
      free := free - {k};
      refusals := later;
      owner := owner[k := Some(q)];
      return Some(k);
    }

    method Release(m: nat, ghost q: nat)
      requires Valid() && m in owner && owner[m] == Some(q)
      modifies this`free, this`owner
      ensures Valid() && owner == old(owner)[m := None] && |free| == |old(free)| + 1
    {
      assert m !in free;
      free := free + {m};
      owner := owner[m := None];
    }
  }

  function Range(n: nat): (r: set<nat>)
    ensures |r| == n && forall m: nat :: m in r <==> m < n
  {
    if n == 0 then {} else Range(n - 1) + {n - 1}
  }

  // ---- The NIC's queue pair ----

  /** How many the NIC moves when it could move `most`: what its plan says, or all. */
  function Moved(plan: seq<nat>, most: nat): (k: nat)
    ensures k <= most
  {
    if plan == [] then most else Min(plan[0], most)
  }

  class NicQueue {
    /** Received packets that wait, and buffers being sent. */
    var ring: seq<Packet>
    var sending: multiset<nat>
    /** What the coming bursts deliver, and what the coming transmissions take. */
    var bursts: seq<nat>
    var takes: seq<nat>

    constructor (bursts: seq<nat>, takes: seq<nat>)
      ensures ring == [] && sending == multiset{} && this.bursts == bursts && this.takes == takes
    {
      ring, sending, this.bursts, this.takes := [], multiset{}, bursts, takes;
    }

    function Total(): multiset<nat>
      reads this
    {
      Ids(ring) + sending
    }

    /** `rte_eth_rx_burst`: some waiting packets, at most `max`. */
    method RxBurst(max: nat) returns (got: seq<Packet>)
      modifies this`ring, this`bursts
      ensures |got| == Moved(old(bursts), Min(max, |old(ring)|)) && got == old(ring)[..|got|]
      ensures bursts == Tail(old(bursts))
      ensures Total() + Ids(got) == old(Total())
    {
      var k := Moved(bursts, Min(max, |ring|));
      got := ring[..k];
      IdsSplit(ring, k);
      Regroup(Ids(ring[k..]), sending, Ids(got));
      ring := ring[k..];
      bursts := Tail(bursts);
    }

    /** `rte_eth_tx_burst`: the NIC takes some prefix. */
    method TxBurst(ms: seq<nat>) returns (k: nat)
      modifies this`sending, this`takes
      ensures k == Moved(old(takes), |ms|) && takes == Tail(old(takes))
      ensures Total() == old(Total()) + multiset(ms[..k])
    {
      k := Moved(takes, |ms|);
      Regroup(sending, Ids(ring), multiset(ms[..k]));
      sending := sending + multiset(ms[..k]);
      takes := Tail(takes);
    }
  }

  lemma {:induction false} ReadyAll(size: nat)
    ensures Ready(size, []) == size
  {
    if size > 0 {
      ReadyAll(size - 1);
    }
  }

  /** Multiset sums may be regrouped. */
  lemma Regroup<T>(a: multiset<T>, b: multiset<T>, x: multiset<T>)
    ensures (a + x) + b == (a + b) + x && b + (a + x) == (b + a) + x
    ensures (x + a) + b == (a + b) + x
  {
  }

  // ---- Moving buffers between owners ----

  lemma Same(o: Owners, q: nat)
    ensures OnlyMoves(o, o, q)
  {
  }

  /** A buffer taken and put back leaves everything as it was. */
  lemma Undone(o: Owners, m: nat, q: nat)
    requires m in o && o[m].None?
    ensures o[m := Some(q)][m := None] == o
  {
  }

  lemma ToRing<T>(
    ring: multiset<T>, sending: multiset<T>, r: multiset<T>, t: multiset<T>, l: multiset<T>, x: multiset<T>)
    ensures (ring + x) + sending + r + t + l == (ring + sending + r + t + l) + x
  {
  }

  lemma FromNic<T>(
    ring: multiset<T>, sending: multiset<T>, r: multiset<T>, t: multiset<T>, l: multiset<T>, x: multiset<T>)
    ensures ring + (sending + x) + r + t + l == (ring + sending + r + t + l) + x
  {
  }

  lemma ToNic<T>(n: multiset<T>, r: multiset<T>, t: multiset<T>, l: multiset<T>, x: multiset<T>)
    ensures (n + x) + r + t + l == n + r + (x + t) + l
  {
  }

  lemma ToTx<T>(n: multiset<T>, r: multiset<T>, t: multiset<T>, l: multiset<T>, x: multiset<T>)
    ensures n + r + (t + x) + l == (n + r + t + l) + x
  {
  }

  lemma ToRx<T>(n: multiset<T>, r: multiset<T>, t: multiset<T>, l: multiset<T>, x: multiset<T>)
    ensures n + (r + x) + t + l == (n + r + t + l) + x
    ensures n + (r + x) + t + l == (n + x) + r + t + l
  {
  }

  /** A buffer leaves a batch for a token. */
  lemma ToToken<T>(n: multiset<T>, r: multiset<T>, t: multiset<T>, l: multiset<T>, x: multiset<T>)
    ensures n + r + t + (l + x) == n + (r + x) + t + l
    ensures n + r + t + (l + x) == (n + r + t + l) + x
  {
  }
}
