/** The launch loop of `DpdkApp::run`: which queue each lcore runs. */
module Launch {
  import opened Bytes

  /** The queue the main lcore ends up with: that of the last lcore flagged main, or 0. */
  function MainQueue(isMain: seq<bool>): nat {
    if isMain == [] then 0
    else if isMain[|isMain| - 1] then |isMain| - 1
    else MainQueue(isMain[..|isMain| - 1])
  }

  function Workers(isMain: seq<bool>): seq<nat> {
    if isMain == [] then []
    else
      var before := Workers(isMain[..|isMain| - 1]);
      if isMain[|isMain| - 1] then before else before + [|isMain| - 1]
  }

  /** The queues started, worker lcores first and the main lcore last. */
  function Started(isMain: seq<bool>): seq<nat> {
    Workers(isMain) + [MainQueue(isMain)]
  }

  method Run(isMain: seq<bool>) returns (queues: seq<nat>)
    ensures queues == Started(isMain)
  {
    var mainQueue := 0;
    queues := [];
    for queue := 0 to |isMain|
      invariant queues == Workers(isMain[..queue]) && mainQueue == MainQueue(isMain[..queue])
    {
      assert isMain[..queue + 1][..queue] == isMain[..queue];
      if isMain[queue] {
        mainQueue := queue;
      } else {
        queues := queues + [queue];
      }
    }
    assert isMain[..|isMain|] == isMain;
    queues := queues + [mainQueue];
  }

  function Mains(isMain: seq<bool>): nat {
    if isMain == [] then 0
    else Mains(isMain[..|isMain| - 1]) + if isMain[|isMain| - 1] then 1 else 0
  }

  lemma {:induction false} WorkersCount(isMain: seq<bool>, q: nat)
    ensures Count(Workers(isMain), q) == if q < |isMain| && !isMain[q] then 1 else 0
  {
    if isMain != [] {
      WorkersCount(isMain[..|isMain| - 1], q);
    }
  }

  lemma {:induction false} MainQueueIs(isMain: seq<bool>)
    ensures Mains(isMain) == 0 <==> forall q | 0 <= q < |isMain| :: !isMain[q]
    ensures Mains(isMain) == 0 ==> MainQueue(isMain) == 0
    ensures Mains(isMain) >= 1 ==> MainQueue(isMain) < |isMain| && isMain[MainQueue(isMain)]
    ensures Mains(isMain) >= 2 <==> exists q | 0 <= q < |isMain| :: isMain[q] && q != MainQueue(isMain)
  {
    if isMain != [] {
      var n := |isMain| - 1;
      MainQueueIs(isMain[..n]);
      if isMain[n] && Mains(isMain[..n]) >= 1 {
        assert isMain[MainQueue(isMain[..n])];
      }
    }
  }

  /** Every queue has exactly one lcore. */
  ghost predicate EachOnce(queues: seq<nat>, n: nat) {
    forall q: nat :: Count(queues, q) == if q < n then 1 else 0
  }

  /**
   * The loop gives each of the queues to exactly one lcore if and only if
   * exactly one lcore is the main one; with none, queue 0 would run twice.
   */
  lemma EachQueueOnce(isMain: seq<bool>)
    requires isMain != []
    ensures EachOnce(Started(isMain), |isMain|) <==> Mains(isMain) == 1
  {
    var s := Started(isMain);
    var m := MainQueue(isMain);
    MainQueueIs(isMain);
    forall q: nat
      ensures Count(s, q) == (if q < |isMain| && !isMain[q] then 1 else 0) + (if q == m then 1 else 0)
    {
      WorkersCount(isMain, q);
    }
    if Mains(isMain) == 0 {
      assert Count(s, 0) == 2;
    } else if Mains(isMain) >= 2 {
      var q: nat :| 0 <= q < |isMain| && isMain[q] && q != m;
      assert Count(s, q) == 0;
    }
  }

  /** So the shared ARP cache has exactly one producer, the device of queue 0. */
  lemma OneProducer(isMain: seq<bool>)
    requires Mains(isMain) == 1
    ensures Count(Started(isMain), 0) == 1
  {
    EachQueueOnce(isMain);
  }
}
