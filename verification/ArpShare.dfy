/**
 * The shared ARP cache as a concurrent protocol: one producer that stores a map
 * and then bumps a version, and consumers that read the version, take a
 * snapshot and inject it. Steps are atomic and interleave in any order under
 * sequential consistency; the version counter is unbounded.
 */
module ArpShare {
  import opened Bytes
  import opened ArpCache

  type Ip = Ipv4
  type Cache = map<Ip, Mac>

  /** Where the producer is inside `insert`. */
  datatype Producer = Idle | Loaded(ip: Ip, mac: Mac, current: Cache) | Stored

  /** Where a consumer is inside `inject_from_shared_cache`. */
  datatype Position =
    | Resting
    | HasVersion(version: nat)
    | Injecting(version: nat, snapshot: Cache, todo: set<Ip>)

  datatype Consumer = Consumer(at: Position, last: nat, injected: Cache)

  datatype World = World(cache: Cache, version: nat, producer: Producer, consumers: map<nat, Consumer>)

  datatype Action =
    | Load(ip: Ip, mac: Mac)
    | Store
    | Bump
    | ReadVersion(queue: nat)
    | Snapshot(queue: nat)
    | Inject(queue: nat, ip: Ip)
    | GiveUp(queue: nat)
    | Finish(queue: nat)

  predicate Initial(w: World) {
    && w.cache == map[] && w.version == 0 && w.producer == Idle
    && forall q | q in w.consumers :: w.consumers[q] == Consumer(Resting, 0, map[])
  }

  predicate Enabled(w: World, a: Action) {
    match a
    case Load(_, _) => w.producer.Idle?
    case Store => w.producer.Loaded?
    case Bump => w.producer.Stored?
    case ReadVersion(q) => q in w.consumers && w.consumers[q].at.Resting?
    case Snapshot(q) => q in w.consumers && w.consumers[q].at.HasVersion?
    case Inject(q, ip) =>
      q in w.consumers && w.consumers[q].at.Injecting? && ip in w.consumers[q].at.todo &&
      ip in w.consumers[q].at.snapshot
    case GiveUp(q) => q in w.consumers && w.consumers[q].at.Injecting? && w.consumers[q].at.todo != {}
    case Finish(q) => q in w.consumers && w.consumers[q].at.Injecting? && w.consumers[q].at.todo == {}
  }

  /** A consumer's step, given the shared variables. */
  function Consume(c: Consumer, a: Action, cache: Cache, version: nat): Consumer {
    match a
    case ReadVersion(_) => if version == c.last then c else c.(at := HasVersion(version))
    case Snapshot(_) =>
      if c.at.HasVersion? then c.(at := Injecting(c.at.version, cache, cache.Keys)) else c
    case Inject(_, ip) =>
      if c.at.Injecting? && ip in c.at.snapshot then
        c.(at := c.at.(todo := c.at.todo - {ip}), injected := c.injected[ip := c.at.snapshot[ip]])
      else c
    case GiveUp(_) => c.(at := Resting)
    case Finish(_) => if c.at.Injecting? then c.(at := Resting, last := c.at.version) else c
    case _ => c
  }

  function Step(w: World, a: Action): World
    requires Enabled(w, a)
  {
    match a
    case Load(ip, mac) => w.(producer := Loaded(ip, mac, w.cache))
    case Store =>
      var p := w.producer;
      // An unchanged entry is not stored again, but its version is bumped all the same.
      if p.ip in p.current && p.current[p.ip] == p.mac then w.(producer := Stored)
      else w.(cache := p.current[p.ip := p.mac], producer := Stored)
    case Bump => w.(version := w.version + 1, producer := Idle)
    case _ => w.(consumers := w.consumers[a.queue := Consume(w.consumers[a.queue], a, w.cache, w.version)])
  }

  // ---- The invariant ----

  /** No update is between its store and its bump, so the version stands for the map. */
  predicate Settled(w: World) {
    !w.producer.Stored?
  }

  predicate ConsumerInv(c: Consumer, cache: Cache, version: nat, settled: bool) {
    && c.last <= version
    && c.injected.Keys <= cache.Keys
    && (c.last == version && settled ==> c.injected == cache)
    && match c.at
       case Resting => true
       case HasVersion(v) => c.last < v <= version
       case Injecting(v, snapshot, todo) =>
         && c.last < v <= version
         && todo <= snapshot.Keys <= cache.Keys
         && (v == version && settled ==> snapshot == cache)
         && (forall ip | ip in snapshot && ip !in todo :: ip in c.injected && c.injected[ip] == snapshot[ip])
  }

  predicate Inv(w: World) {
    && (w.producer.Loaded? ==> w.producer.current == w.cache)
    && forall q | q in w.consumers :: ConsumerInv(w.consumers[q], w.cache, w.version, Settled(w))
  }

  lemma FinishInv(c: Consumer, cache: Cache, version: nat, settled: bool)
    requires ConsumerInv(c, cache, version, settled) && c.at.Injecting? && c.at.todo == {}
    ensures ConsumerInv(c.(at := Resting, last := c.at.version), cache, version, settled)
  {
    if c.at.version == version && settled {
      assert c.injected.Keys == cache.Keys;
      assert c.injected == cache;
    }
  }

  lemma ConsumeInv(c: Consumer, a: Action, cache: Cache, version: nat, settled: bool)
    requires ConsumerInv(c, cache, version, settled)
    requires a.ReadVersion? ==> c.at.Resting?
    requires a.Finish? ==> c.at.Injecting? && c.at.todo == {}
    ensures ConsumerInv(Consume(c, a, cache, version), cache, version, settled)
  {
    if a.Finish? {
      FinishInv(c, cache, version, settled);
    }
  }

  /** Storing or bumping keeps every consumer's promise: the pending version protects it. */
  lemma ProducerInv(w: World, a: Action)
    requires Inv(w) && Enabled(w, a) && (a.Load? || a.Store? || a.Bump?)
    ensures Inv(Step(w, a))
  {
  }

  lemma StepInv(w: World, a: Action)
    requires Inv(w) && Enabled(w, a)
    ensures Inv(Step(w, a))
  {
    if a.Load? || a.Store? || a.Bump? {
      ProducerInv(w, a);
    } else {
      ConsumeInv(w.consumers[a.queue], a, w.cache, w.version, Settled(w));
    }
  }

  predicate Runs(w: World, actions: seq<Action>, last: World)
    decreases |actions|
  {
    if actions == [] then last == w
    else Enabled(w, actions[0]) && Runs(Step(w, actions[0]), actions[1..], last)
  }

  lemma {:induction false} RunInv(w: World, actions: seq<Action>, last: World)
    requires Inv(w) && Runs(w, actions, last)
    ensures Inv(last)
    decreases |actions|
  {
    if actions != [] {
      StepInv(w, actions[0]);
      RunInv(Step(w, actions[0]), actions[1..], last);
    }
  }

  /**
   * Over every interleaving: when the producer is not in the middle of an
   * update and a consumer's last version is the current one, what that consumer
   * last injected is exactly the current map.
   */
  lemma UpToDate(w: World, actions: seq<Action>, last: World, q: nat)
    requires Initial(w) && Runs(w, actions, last)
    requires q in last.consumers && last.consumers[q].last == last.version && Settled(last)
    ensures last.consumers[q].injected == last.cache
  {
    RunInv(w, actions, last);
  }

  /** A consumer that is out of date sees it: the fast path is taken only when nothing changed. */
  lemma FastPathIsSafe(w: World, actions: seq<Action>, last: World, q: nat)
    requires Initial(w) && Runs(w, actions, last) && Enabled(last, ReadVersion(q))
    requires Settled(last) && last.consumers[q].injected != last.cache
    ensures Step(last, ReadVersion(q)).consumers[q].at == HasVersion(last.version)
  {
    RunInv(w, actions, last);
  }

  /** A given-up injection never advances the last version, so it is retried. */
  lemma GiveUpRetries(w: World, actions: seq<Action>, last: World, q: nat)
    requires Initial(w) && Runs(w, actions, last) && Enabled(last, GiveUp(q))
    ensures
      var w' := Step(last, GiveUp(q));
      w'.consumers[q].last == last.consumers[q].last < w'.version &&
      Enabled(w', ReadVersion(q)) && Step(w', ReadVersion(q)).consumers[q].at.HasVersion?
  {
    RunInv(w, actions, last);
  }

  lemma {:induction false} RunsAppend(w: World, a: seq<Action>, mid: World, b: seq<Action>, last: World)
    requires Runs(w, a, mid) && Runs(mid, b, last)
    ensures Runs(w, a + b, last)
    decreases |a|
  {
    if a == [] {
      assert a + b == b;
    } else {
      assert (a + b)[0] == a[0] && (a + b)[1..] == a[1..] + b;
      RunsAppend(Step(w, a[0]), a[1..], mid, b, last);
    }
  }

  lemma RunsOne(w: World, a: Action)
    requires Enabled(w, a)
    ensures Runs(w, [a], Step(w, a))
  {
    assert [a][1..] == [];
  }

  /** Entries are replaced, never removed. */
  lemma {:induction false} RunsGrow(w: World, actions: seq<Action>, last: World)
    requires Inv(w) && Runs(w, actions, last)
    ensures w.cache.Keys <= last.cache.Keys && last.consumers.Keys == w.consumers.Keys
    decreases |actions|
  {
    if actions != [] {
      StepInv(w, actions[0]);
      RunsGrow(Step(w, actions[0]), actions[1..], last);
    }
  }

  // ---- The cache that the threads share ----

  /** Each action is possible when its turn comes. */
  predicate CanRun(w: World, actions: seq<Action>)
    decreases |actions|
  {
    actions != [] ==> Enabled(w, actions[0]) && CanRun(Step(w, actions[0]), actions[1..])
  }

  lemma RunsNothing(w: World)
    ensures Runs(w, [], w)
  {
  }

  lemma KeepsConsumer(w: World, a: Action, q: nat)
    requires Enabled(w, a) && !By(a, q) && q in w.consumers
    ensures q in Step(w, a).consumers && Step(w, a).consumers[q] == w.consumers[q]
  {
  }

  /** The step is a consumer's own. */
  predicate By(a: Action, q: nat) {
    match a
    case Load(_, _) => false
    case Store => false
    case Bump => false
    case _ => a.queue == q
  }

  class SharedArpCache {
    /** The map and the version, and where every thread is in its use of them. */
    var world: World

    ghost predicate Valid()
      reads this
    {
      Inv(world)
    }

    constructor (queues: set<nat>)
      ensures Valid() && Initial(world) && world.consumers.Keys == queues
    {
      world := World(map[], 0, Idle, map q | q in queues :: Consumer(Resting, 0, map[]));
    }

    method Act(a: Action)
      requires Valid() && Enabled(world, a)
      modifies this
      ensures Valid() && world == Step(old(world), a) && Runs(old(world), [a], world)
    {
      StepInv(world, a);
      RunsOne(world, a);
      world := Step(world, a);
    }

    /** `insert`: load, store and bump. The version is bumped even for an unchanged entry. */
    method Insert(ip: Ip, mac: Mac)
      requires Valid() && world.producer.Idle?
      modifies this
      ensures Valid() && Runs(old(world), [Load(ip, mac), Store, Bump], world)
      ensures world == old(world).(cache := old(world).cache[ip := mac], version := old(world).version + 1)
    {
      ghost var w := world;
      Act(Load(ip, mac));
      ghost var w1 := world;
      Act(Store);
      RunsAppend(w, [Load(ip, mac)], w1, [Store], world);
      ghost var w2 := world;
      Act(Bump);
      RunsAppend(w, [Load(ip, mac)] + [Store], w2, [Bump], world);
      assert [Load(ip, mac)] + [Store] + [Bump] == [Load(ip, mac), Store, Bump];
    }

    /** Other threads do what they can of `actions`; consumer `q` does nothing. */
    method Meanwhile(actions: seq<Action>, q: nat) returns (ghost done: seq<Action>)
      requires Valid() && q in world.consumers
      modifies this
      ensures Valid() && Runs(old(world), done, world)
      ensures forall a | a in done :: !By(a, q)
      ensures q in world.consumers && world.consumers[q] == old(world).consumers[q]
      ensures (forall a | a in actions :: !By(a, q)) && CanRun(old(world), actions) ==> done == actions
    {
      hide Inv, Step, Enabled, Runs;
      done := [];
      RunsNothing(world);
      assert actions[0..] == actions;
      for i := 0 to |actions|
        invariant Valid() && Runs(old(world), done, world)
        invariant forall a | a in done :: !By(a, q)
        invariant q in world.consumers && world.consumers[q] == old(world).consumers[q]
        invariant (forall a | a in actions :: !By(a, q)) && CanRun(old(world), actions) ==>
          done == actions[..i] && CanRun(world, actions[i..])
      {
        assert actions[i] in actions && actions[i..][1..] == actions[i + 1..];
        assert actions[..i + 1] == actions[..i] + [actions[i]];
        if Enabled(world, actions[i]) && !By(actions[i], q) {
          ghost var before := world;
          KeepsConsumer(before, actions[i], q);
          Act(actions[i]);
          RunsAppend(old(world), done, before, [actions[i]], world);
          done := done + [actions[i]];
        }
      }
    }
  }

  // ---- One undisturbed attempt brings a consumer up to date ----

  function Attempt(q: nat, ips: seq<Ip>): seq<Action> {
    [ReadVersion(q), Snapshot(q)] + InjectAll(q, ips) + [Finish(q)]
  }

  function InjectAll(q: nat, ips: seq<Ip>): seq<Action> {
    if ips == [] then [] else [Inject(q, ips[0])] + InjectAll(q, ips[1..])
  }

  /** Injecting every entry of the snapshot, in any order, and finishing records the version read. */
  lemma {:induction false} InjectAllRuns(w: World, q: nat, ips: seq<Ip>, last: World)
    requires q in w.consumers && w.consumers[q].at.Injecting?
    requires Inv(w)
    requires w.consumers[q].at.todo == set ip | ip in ips
    requires forall i, j | 0 <= i < j < |ips| :: ips[i] != ips[j]
    requires Runs(w, InjectAll(q, ips) + [Finish(q)], last)
    ensures q in last.consumers && last.consumers[q].last == w.consumers[q].at.version
    ensures last.version == w.version && last.producer == w.producer && last.cache == w.cache
    decreases |ips|
  {
    var acts := InjectAll(q, ips) + [Finish(q)];
    if ips == [] {
      assert acts == [Finish(q)];
      assert acts[1..] == [];
    } else {
      assert acts[0] == Inject(q, ips[0]);
      assert acts[1..] == InjectAll(q, ips[1..]) + [Finish(q)];
      var w' := Step(w, acts[0]);
      StepInv(w, acts[0]);
      assert w'.consumers[q].at.todo == set ip | ip in ips[1..] by {
        forall ip ensures ip in w'.consumers[q].at.todo <==> ip in ips[1..] {
          assert ip in ips <==> ip == ips[0] || ip in ips[1..];
        }
      }
      InjectAllRuns(w', q, ips[1..], last);
    }
  }

  lemma AttemptSucceeds(w: World, q: nat, ips: seq<Ip>, last: World)
    requires Inv(w) && w.producer.Idle? && q in w.consumers && w.consumers[q].at.Resting?
    requires w.consumers[q].last != w.version
    requires w.cache.Keys == set ip | ip in ips
    requires forall i, j | 0 <= i < j < |ips| :: ips[i] != ips[j]
    requires Runs(w, Attempt(q, ips), last)
    ensures q in last.consumers && last.consumers[q].last == last.version
    ensures last.consumers[q].injected == last.cache == w.cache
  {
    var acts := Attempt(q, ips);
    var w1 := Step(w, acts[0]);
    StepInv(w, acts[0]);
    var w2 := Step(w1, acts[1..][0]);
    StepInv(w1, acts[1..][0]);
    assert acts[1..][1..] == InjectAll(q, ips) + [Finish(q)];
    InjectAllRuns(w2, q, ips, last);
    RunInv(w, acts, last);
  }
}
