/** Round-robin allocation: worker selection, ephemeral ports and the RSS redirection table. */
module RoundRobin {
  import opened Bytes

  // ---- How often each residue occurs among consecutive numbers ----

  /** How many of `start, ..., start + len - 1` are `w` modulo `n`. */
  function Picks(start: nat, len: nat, n: nat, w: nat): nat
    requires n > 0
  {
    if len == 0 then 0
    else Picks(start, len - 1, n, w) + if (start + len - 1) % n == w then 1 else 0
  }

  lemma {:induction false} PicksSplit(start: nat, a: nat, b: nat, n: nat, w: nat)
    requires n > 0
    ensures Picks(start, a + b, n, w) == Picks(start, a, n, w) + Picks(start + a, b, n, w)
  {
    if b > 0 {
      PicksSplit(start, a, b - 1, n, w);
    }
  }

  /** Below `n` each number occurs at its own place only. */
  lemma {:induction false} PicksFirst(len: nat, n: nat, w: nat)
    requires len <= n && w < n && n > 0
    ensures Picks(0, len, n, w) == if w < len then 1 else 0
  {
    if len > 0 {
      PicksFirst(len - 1, n, w);
      SmallMod(len - 1, n);
    }
  }

  lemma SmallMod(x: nat, n: nat)
    requires x < n
    ensures x % n == x
  {
  }

  lemma AddMod(x: nat, n: nat)
    requires n > 0
    ensures (x + n) % n == x % n
  {
    var q, r := x / n, x % n;
    assert x + n == (q + 1) * n + r;
    DivUnique(x + n, n, q + 1, r);
  }

  lemma DivUnique(x: nat, n: nat, q: nat, r: nat)
    requires n > 0 && r < n && x == q * n + r
    ensures x % n == r
  {
    var q', r' := x / n, x % n;
    Distribute(q, q', n);
    if q > q' {
      AtLeast(q - q', n);
    } else if q < q' {
      AtLeast(q' - q, n);
      Distribute(q', q, n);
    }
  }

  lemma Distribute(a: int, b: int, n: int)
    ensures (a - b) * n == a * n - b * n
  {
  }

  lemma AtLeast(d: nat, n: nat)
    requires d >= 1
    ensures d * n >= n
  {
  }

  /** Every window of `n` consecutive numbers meets every residue exactly once. */
  lemma {:induction false} Window(start: nat, n: nat, w: nat)
    requires w < n
    ensures Picks(start, n, n, w) == 1
    decreases start
  {
    if start == 0 {
      PicksFirst(n, n, w);
    } else {
      Window(start - 1, n, w);
      PicksSplit(start - 1, 1, n - 1, n, w);
      PicksSplit(start, n - 1, 1, n, w);
      AddMod(start - 1, n);
      assert Picks(start - 1, 1, n, w) == (if (start - 1) % n == w then 1 else 0);
      assert Picks(start + n - 1, 1, n, w) == (if (start + n - 1) % n == w then 1 else 0);
    }
  }

  /** `k * n` consecutive selections among `n` workers choose each exactly `k` times. */
  lemma {:induction false} Fair(start: nat, k: nat, n: nat, w: nat)
    requires w < n
    ensures Picks(start, k * n, n, w) == k
    decreases k, 1
  {
    if k > 0 {
      OneMore(k, n);
      FairStep(start, k - 1, (k - 1) * n, k * n, n, w);
    }
  }

  lemma OneMore(k: nat, n: nat)
    requires k > 0
    ensures 0 <= (k - 1) * n == k * n - n
  {
  }

  lemma FairStep(start: nat, k: nat, before: nat, len: nat, n: nat, w: nat)
    requires w < n && before == k * n && len == before + n
    ensures Picks(start, len, n, w) == k + 1
    decreases k + 1, 0
  {
    hide Picks;
    Fair(start, k, n, w);
    PicksSplit(start, before, n, n, w);
    Window(start + before, n, w);
  }

  /** Of the first `len` entries each queue gets the floor of the average, and the first few one more. */
  lemma Balanced(len: nat, n: nat, w: nat)
    requires w < n
    ensures Picks(0, len, n, w) == len / n + if w < len % n then 1 else 0
  {
    var q, r := len / n, len % n;
    assert len == q * n + r;
    PicksSplit(0, q * n, r, n, w);
    Fair(0, q, n, w);
    PicksShift(q, r, n, w);
    PicksFirst(r, n, w);
  }

  lemma {:induction false} PicksShift(q: nat, len: nat, n: nat, w: nat)
    requires n > 0
    ensures Picks(q * n, len, n, w) == Picks(0, len, n, w)
  {
    if len > 0 {
      PicksShift(q, len - 1, n, w);
      MulMod(q, len - 1, n);
    }
  }

  lemma {:induction false} MulMod(q: nat, x: nat, n: nat)
    requires n > 0
    ensures (q * n + x) % n == x % n
  {
    if q > 0 {
      MulMod(q - 1, x, n);
      AddMod((q - 1) * n + x, n);
      assert (q - 1) * n + x + n == q * n + x;
    }
  }

  // ---- WorkerRegistry::select ----

  class WorkerRegistry<T> {
    var workers: seq<T>
    var next: nat

    /** Pick the next worker; without workers the counter is not touched. */
    method Select() returns (r: seq<T>, ghost index: nat)
      modifies this`next
      ensures workers == [] ==> r == [] && next == old(next)
      ensures workers != [] ==> next == old(next) + 1
      ensures workers != [] ==> index == old(next) % |workers| < |workers| && r == [workers[index]]
    {
      index := 0;
      if workers == [] {
        return [], 0;
      }
      var i := next % |workers|;
      index := i;
      next := next + 1;
      r := [workers[i]];
    }

    /** `m` selections in a row, with no worker added or removed in between. */
    method SelectMany(m: nat) returns (chosen: seq<T>, ghost indices: seq<nat>)
      requires workers != []
      modifies this`next
      ensures |chosen| == |indices| == m && next == old(next) + m
      ensures forall i | 0 <= i < m :: indices[i] < |workers| && chosen[i] == workers[indices[i]]
      ensures forall w | 0 <= w < |workers| :: Count(indices, w) == Picks(old(next), m, |workers|, w)
    {
      chosen, indices := [], [];
      for i := 0 to m
        invariant |chosen| == |indices| == i && next == old(next) + i
        invariant forall j | 0 <= j < i :: indices[j] < |workers| && chosen[j] == workers[indices[j]]
        invariant forall w | 0 <= w < |workers| :: Count(indices, w) == Picks(old(next), i, |workers|, w)
      {
        var r, index := Select();
        CountAppend(indices, index);
        chosen, indices := chosen + r, indices + [index];
      }
    }

    /** Any `k * n` consecutive selections among `n` workers choose each exactly `k` times. */
    method SelectRounds(k: nat) returns (chosen: seq<T>, ghost indices: seq<nat>)
      requires workers != []
      modifies this`next
      ensures |chosen| == |indices| == k * |workers| && next == old(next) + |chosen|
      ensures forall i | 0 <= i < |chosen| :: indices[i] < |workers| && chosen[i] == workers[indices[i]]
      ensures forall w | 0 <= w < |workers| :: Count(indices, w) == k
    {
      chosen, indices := SelectMany(k * |workers|);
      forall w | 0 <= w < |workers| ensures Count(indices, w) == k {
        Fair(old(next), k, |workers|, w);
      }
    }
  }

  // ---- EphemeralPorts ----

  const FIRST_PORT: nat := 49152
  const LAST_PORT: nat := 65535
  const PORTS: nat := 16384

  predicate InRange(p: nat) {
    FIRST_PORT <= p <= LAST_PORT
  }

  /** The port handed out `k` allocations after `first`. */
  function PortAt(first: nat, k: nat): (p: nat)
    requires InRange(first)
    ensures InRange(p)
  {
    FIRST_PORT + (first - FIRST_PORT + k) % PORTS
  }

  class EphemeralPorts {
    var next: nat

    constructor ()
      ensures next == FIRST_PORT
    {
      next := 49152;
    }

    /**
     * `n` allocations in a row hand out the ports of `PortAt`: two of them agree
     * exactly when a whole number of rounds lies between them, so any 16384 in a
     * row are pairwise distinct.
     */
    method AllocateMany(n: nat) returns (ports: seq<nat>)
      requires InRange(next)
      modifies this
      ensures InRange(next) && |ports| == n && next == PortAt(old(next), n)
      ensures forall k | 0 <= k < n :: InRange(ports[k]) && ports[k] == PortAt(old(next), k)
      ensures forall i, j | 0 <= i <= j < n :: ports[i] == ports[j] <==> (j - i) % PORTS == 0
      ensures forall i, j | 0 <= i < j < n && j - i < PORTS :: ports[i] != ports[j]
    {
      ports := [];
      for i := 0 to n
        invariant InRange(next) && |ports| == i && next == PortAt(old(next), i)
        invariant forall k | 0 <= k < i :: ports[k] == PortAt(old(next), k)
      {
        var port := Allocate();
        ports := ports + [port];
      }
      forall i, j | 0 <= i <= j < n ensures ports[i] == ports[j] <==> (j - i) % PORTS == 0 {
        PortsRepeat(old(next), i, j);
      }
      forall i, j | 0 <= i < j < n && j - i < PORTS ensures ports[i] != ports[j] {
        SmallMod(j - i, PORTS);
      }
    }

    method Allocate() returns (port: nat)
      requires InRange(next)
      modifies this
      ensures InRange(next) && port == old(next)
      ensures forall first, k: nat | InRange(first) && old(next) == PortAt(first, k) :: next == PortAt(first, k + 1)
    {
      port := next;
      next := if next == 65535 then 49152 else next + 1;
    }
  }

  /** Two allocations give the same port exactly when a whole number of rounds lies between them. */
  lemma PortsRepeat(first: nat, i: nat, j: nat)
    requires InRange(first) && i <= j
    ensures PortAt(first, i) == PortAt(first, j) <==> (j - i) % PORTS == 0
  {
  }

  // ---- The RSS redirection table ----

  const GROUP: nat := 64

  function Residue(x: nat, n: nat): nat
    requires n > 0
  {
    x % n
  }

  lemma ResidueIs(i: nat, n: nat)
    requires n > 0
    ensures i / 64 * 64 + i % 64 == i && Residue(i, n) == i % n
  {
  }

  function Groups(size: nat): nat {
    (size + 63) / 64
  }

  /** The NIC's table of `size` entries; an update or a query goes in groups of 64. */
  class Nic {
    var reta: seq<nat>

    method Update(conf: array2<nat>)
      requires conf.Length0 == Groups(|reta|) && conf.Length1 == GROUP
      modifies this
      ensures |reta| == |old(reta)|
      ensures forall i | 0 <= i < |reta| :: reta[i] == conf[i / 64, i % 64]
    {
      var size := |reta|;
      reta := seq(size, i requires 0 <= i < size reads conf => conf[i / 64, i % 64]);
    }

    method Query(conf: array2<nat>)
      requires conf.Length0 == Groups(|reta|) && conf.Length1 == GROUP
      modifies conf
      ensures forall i | 0 <= i < |reta| :: conf[i / 64, i % 64] == reta[i]
    {
      forall g, i | 0 <= g < conf.Length0 && 0 <= i < 64 && g * 64 + i < |reta| {
        conf[g, i] := reta[g * 64 + i];
      }
    }

    /** `configure_rss_reta`: entry `i` goes to queue `i mod n`. */
    method ConfigureRssReta(n: nat)
      requires n >= 1
      modifies this
      ensures |reta| == |old(reta)|
      ensures forall i | 0 <= i < |reta| :: reta[i] == i % n
    {
      if |reta| == 0 {
        return;
      }
      hide Residue;
      var conf := new nat[Groups(|reta|), 64]((_, _) => 0);
      for g := 0 to conf.Length0
        invariant reta == old(reta)
        invariant forall a, b | 0 <= a < g && 0 <= b < 64 && a * 64 + b < |reta| :: conf[a, b] == Residue(a * 64 + b, n)
      {
        FillGroup(conf, g, |reta|, n);
      }
      Update(conf);
      forall i | 0 <= i < |reta| ensures reta[i] == i % n {
        assert reta[i] == Residue(i / 64 * 64 + i % 64, n);
        ResidueIs(i, n);
      }
    }

    /** One group of 64 entries. */
    static method FillGroup(conf: array2<nat>, g: nat, size: nat, n: nat)
      requires g < conf.Length0 && conf.Length1 == GROUP && n >= 1
      modifies conf
      ensures forall a, b | 0 <= a < conf.Length0 && a != g && 0 <= b < 64 :: conf[a, b] == old(conf[a, b])
      ensures forall b | 0 <= b < 64 && g * 64 + b < size :: conf[g, b] == Residue(g * 64 + b, n)
    {
      for i := 0 to 64
        invariant forall a, b | 0 <= a < conf.Length0 && a != g && 0 <= b < 64 :: conf[a, b] == old(conf[a, b])
        invariant forall b | 0 <= b < i && g * 64 + b < size :: conf[g, b] == Residue(g * 64 + b, n)
      {
        var entry := g * 64 + i;
        if entry < size {
          conf[g, i] := Residue(entry, n);
        }
      }
    }

    /** `query_rss_reta`: all entries, in order. */
    method QueryRssReta() returns (result: seq<nat>)
      ensures result == reta
    {
      if |reta| == 0 {
        return [];
      }
      var conf := new nat[Groups(|reta|), 64]((_, _) => 0);
      Query(conf);
      result := [];
      for g := 0 to conf.Length0
        invariant |result| == (if g * 64 <= |reta| then g * 64 else |reta|) && result == reta[..|result|]
      {
        for i := 0 to 64
          invariant |result| == (if g * 64 + i <= |reta| then g * 64 + i else |reta|)
          invariant result == reta[..|result|]
        {
          var entry := g * 64 + i;
          if entry < |reta| {
            assert entry / 64 == g && entry % 64 == i;
            result := result + [conf[g, i]];
          }
        }
      }
    }
  }

  /** A configured table serves the queues evenly: each gets the floor or the ceiling of the average. */
  lemma RetaBalanced(reta: seq<nat>, n: nat, q: nat)
    requires q < n && forall i | 0 <= i < |reta| :: reta[i] == i % n
    ensures Count(reta, q) == |reta| / n + if q < |reta| % n then 1 else 0
  {
    CountIsPicks(reta, n, q);
    Balanced(|reta|, n, q);
  }

  lemma {:induction false} CountIsPicks(reta: seq<nat>, n: nat, q: nat)
    requires n > 0 && forall i | 0 <= i < |reta| :: reta[i] == i % n
    ensures Count(reta, q) == Picks(0, |reta|, n, q)
  {
    if reta != [] {
      var k := |reta| - 1;
      CountIsPicks(reta[..k], n, q);
      CountAppend(reta[..k], reta[k]);
      assert reta == reta[..k] + [reta[k]];
    }
  }
}
