/** The ownership partition is an invariant of every run, and no run panics. */
module SocketSafety {
  import opened Bytes
  import opened SocketModel
  import opened SocketSteps

  // ---- Multisets of claims under the list operations ----

  lemma WithoutMultiset<T>(s: seq<T>, i: nat)
    requires i < |s|
    ensures multiset(Without(s, i)) + multiset{s[i]} == multiset(s)
  {
    assert s == s[..i] + [s[i]] + s[i + 1..];
  }

  lemma UpdateMultiset<T>(s: seq<T>, i: nat, x: T)
    requires i < |s|
    ensures multiset(s[i := x]) + multiset{s[i]} == multiset(s) + multiset{x}
  {
    assert s == s[..i] + [s[i]] + s[i + 1..];
    assert s[i := x] == s[..i] + [x] + s[i + 1..];
  }

  lemma {:induction false} BacklogUpdate(ls: seq<Listener>, i: nat, l: Listener)
    requires i < |ls|
    ensures BacklogClaims(ls[i := l]) + multiset(ls[i].backlog) == BacklogClaims(ls) + multiset(l.backlog)
  {
    var n := |ls| - 1;
    if i == n {
      assert ls[i := l][..n] == ls[..n];
    } else {
      assert ls[i := l][..n] == ls[..n][i := l];
      BacklogUpdate(ls[..n], i, l);
      Swap(BacklogClaims(ls[i := l][..n]), BacklogClaims(ls[..n]),
           multiset(ls[i].backlog), multiset(l.backlog), multiset(ls[n].backlog));
    }
  }

  lemma WithoutEarlier<T>(s: seq<T>, i: nat)
    requires i < |s| - 1
    ensures |Without(s, i)| == |s| - 1
    ensures Without(s, i)[|s| - 2] == s[|s| - 1]
    ensures Without(s, i)[..|s| - 2] == Without(s[..|s| - 1], i)
  {
  }

  lemma Carry<T>(a: multiset<T>, b: multiset<T>, x: multiset<T>, z: multiset<T>)
    requires a + x == b
    ensures (a + z) + x == b + z
  {
  }

  lemma {:induction false} BacklogWithout(ls: seq<Listener>, i: nat)
    requires i < |ls|
    ensures BacklogClaims(Without(ls, i)) + multiset(ls[i].backlog) == BacklogClaims(ls)
  {
    var n := |ls| - 1;
    if i == n {
      assert Without(ls, i) == ls[..n];
    } else {
      hide Without;
      WithoutEarlier(ls, i);
      BacklogWithout(ls[..n], i);
      Carry(BacklogClaims(Without(ls[..n], i)), BacklogClaims(ls[..n]),
            multiset(ls[i].backlog), multiset(ls[n].backlog));
    }
  }

  lemma {:induction false} BacklogHas(ls: seq<Listener>, i: nat, c: Claim)
    requires i < |ls| && c in ls[i].backlog
    ensures c in BacklogClaims(ls)
  {
    if i < |ls| - 1 {
      BacklogHas(ls[..|ls| - 1], i, c);
    } else {
      assert c in multiset(ls[i].backlog);
    }
  }

  lemma {:induction false} OrphanAppend(os: seq<Orphan>, o: Orphan)
    ensures OrphanClaims(os + [o]) == OrphanClaims(os) + multiset{o.claim}
  {
    if os == [] {
      assert os + [o] == [o];
    } else {
      assert (os + [o])[1..] == os[1..] + [o];
      OrphanAppend(os[1..], o);
    }
  }

  lemma {:induction false} OrphanHas(os: seq<Orphan>, i: nat)
    requires i < |os|
    ensures os[i].claim in OrphanClaims(os)
  {
    if i > 0 {
      OrphanHas(os[1..], i - 1);
    }
  }

  lemma {:induction false} FlushedClaims(os: seq<Orphan>)
    ensures OrphanClaims(AllFlushed(os)) == OrphanClaims(os)
    ensures |AllFlushed(os)| == |os|
    ensures forall i | 0 <= i < |os| :: AllFlushed(os)[i] == os[i].(flushed := true)
  {
    if os != [] {
      FlushedClaims(os[1..]);
      assert AllFlushed(os)[1..] == AllFlushed(os[1..]);
    }
  }

  /** Adding to any part of a sum adds to the sum. */
  lemma SumAdd<T>(s: multiset<T>, b: multiset<T>, u: multiset<T>, o: multiset<T>, x: multiset<T>)
    ensures (s + x) + b + u + o == (s + b + u + o) + x
    ensures s + (b + x) + u + o == (s + b + u + o) + x
    ensures s + b + (u + x) + o == (s + b + u + o) + x
    ensures s + b + u + (o + x) == (s + b + u + o) + x
  {
  }

  lemma SumMove<T>(s: multiset<T>, b: multiset<T>, u: multiset<T>, o: multiset<T>, x: multiset<T>)
    ensures (s + b + x) + u + o == (s + b + u + o) + x
  {
  }

  // ---- Slots that no step touches ----

  /** A stream's slot is not an orphan's. */
  lemma StreamNotOrphan(w: World, i: nat, j: nat)
    requires Inv(w) && i < |w.streams| && j < |w.orphans|
    ensures w.streams[i].handle != w.orphans[j].claim.handle
  {
    var a, b := w.streams[i], w.orphans[j].claim;
    OrphanHas(w.orphans, j);
    assert a in multiset(w.streams);
    if a.handle == b.handle {
      OneOwner(w, a, b);
      assert false;
    }
  }

  lemma UdpNotOrphan(w: World, i: nat, j: nat)
    requires Inv(w) && i < |w.udps| && j < |w.orphans|
    ensures w.udps[i].handle != w.orphans[j].claim.handle
  {
    var a, b := w.udps[i], w.orphans[j].claim;
    OrphanHas(w.orphans, j);
    assert a in multiset(w.udps);
    if a.handle == b.handle {
      OneOwner(w, a, b);
      assert false;
    }
  }

  lemma BacklogNotOrphan(w: World, l: nat, c: Claim, j: nat)
    requires Inv(w) && l < |w.listeners| && c in w.listeners[l].backlog && j < |w.orphans|
    ensures c.handle != w.orphans[j].claim.handle
  {
    var b := w.orphans[j].claim;
    OrphanHas(w.orphans, j);
    BacklogHas(w.listeners, l, c);
    if c.handle == b.handle {
      OneOwner(w, c, b);
      assert false;
    }
  }

  /** Adding a socket leaves every occupied slot as it was. */
  lemma PlaceKeeps(t: Table, sock: Sock, h: nat)
    requires h < |t| && t[h].Some?
    ensures h < |Place(t, sock)| && Place(t, sock)[h] == t[h]
  {
  }

  lemma PlaceFresh(t: Table, sock: Sock, next: nat)
    requires Fresh(t, next) && sock.uid == next
    ensures Fresh(Place(t, sock), next + 1)
  {
  }

  lemma PlaceWinding(t: Table, sock: Sock, os: seq<Orphan>)
    requires WindingOrphans(t, os)
    ensures WindingOrphans(Place(t, sock), os)
  {
    forall i | 0 <= i < |os|
      ensures TcpState(Place(t, sock), os[i].claim.handle) == TcpState(t, os[i].claim.handle)
    {
      PlaceKeeps(t, sock, os[i].claim.handle);
    }
  }

  // ---- Tasks ----

  lemma AddOneInv(w: World, sock: Sock)
    requires Inv(w) && sock.uid == w.next
    ensures
      var (w', c) := AddOne(w, sock);
      Owned(w) + multiset{c} == Occupied(w'.sockets) &&
      Fresh(w'.sockets, w'.next) && WindingOrphans(w'.sockets, w.orphans)
  {
    PlaceOccupied(w.sockets, sock);
    PlaceFresh(w.sockets, sock, w.next);
    PlaceWinding(w.sockets, sock, w.orphans);
  }

  lemma AppendMultiset<T>(s: seq<T>, x: T)
    ensures multiset(s + [x]) == multiset(s) + multiset{x}
  {
  }

  lemma ConnectInv(w: World, ok: bool)
    requires Inv(w)
    ensures Inv(DoConnect(w, ok))
  {
    if ok {
      var (w', c) := AddOne(w, Tcp(w.next, SynSent));
      AddOneInv(w, Tcp(w.next, SynSent));
      AppendMultiset(w.streams, c);
      SumAdd(multiset(w.streams), BacklogClaims(w.listeners), multiset(w.udps), OrphanClaims(w.orphans), multiset{c});
    }
  }

  lemma BindUdpInv(w: World, port: nat)
    requires Inv(w)
    ensures Inv(DoBindUdp(w, port))
  {
    if port != 0 {
      var (w', c) := AddOne(w, Udp(w.next));
      AddOneInv(w, Udp(w.next));
      AppendMultiset(w.udps, c);
      SumAdd(multiset(w.streams), BacklogClaims(w.listeners), multiset(w.udps), OrphanClaims(w.orphans), multiset{c});
    }
  }

  lemma {:induction false} AddListeningOccupied(t: Table, next: nat, n: nat)
    ensures
      var (t', cs) := AddListening(t, next, n);
      Occupied(t') == Occupied(t) + multiset(cs)
  {
    hide Occupied, Place, FirstFree;
    if n == 0 {
      assert Occupied(t) + multiset([]) == Occupied(t);
    } else {
      AddListeningOccupied(t, next, n - 1);
      var (t1, cs) := AddListening(t, next, n - 1);
      PlaceOccupied(t1, Tcp(next + n - 1, Listen));
      var c := Claim(FirstFree(t1, 0), next + n - 1, true);
      AppendMultiset(cs, c);
      assert Occupied(t) + multiset(cs) + multiset{c} == Occupied(t) + (multiset(cs) + multiset{c});
    }
  }

  lemma {:induction false} AddListeningKeeps(t: Table, next: nat, n: nat, os: seq<Orphan>)
    requires Fresh(t, next) && WindingOrphans(t, os)
    ensures
      var (t', cs) := AddListening(t, next, n);
      Fresh(t', next + n) && WindingOrphans(t', os) &&
      |cs| == n && forall c | c in cs :: c.tcp
  {
    hide Place, FirstFree, Fresh, WindingOrphans;
    if n > 0 {
      AddListeningKeeps(t, next, n - 1, os);
      var (t1, cs) := AddListening(t, next, n - 1);
      PlaceFresh(t1, Tcp(next + n - 1, Listen), next + n - 1);
      PlaceWinding(t1, Tcp(next + n - 1, Listen), os);
    }
  }

  lemma BindInv(w: World, port: nat, backlog: nat)
    requires Inv(w)
    ensures Inv(DoBind(w, port, backlog))
  {
    hide Occupied, Fresh, WindingOrphans, AddListening;
    if port != 0 {
      var n := if backlog == 0 then 1 else backlog;
      AddListeningOccupied(w.sockets, w.next, n);
      AddListeningKeeps(w.sockets, w.next, n, w.orphans);
      var (t, cs) := AddListening(w.sockets, w.next, n);
      var w' := DoBind(w, port, backlog);
      assert w'.listeners[..|w.listeners|] == w.listeners;
      assert BacklogClaims(w'.listeners) == BacklogClaims(w.listeners) + multiset(cs);
      SumAdd(multiset(w.streams), BacklogClaims(w.listeners), multiset(w.udps), OrphanClaims(w.orphans), multiset(cs));
    }
  }

  lemma BacklogLookups(w: World, l: nat)
    requires Inv(w) && l < |w.listeners|
    ensures AllTcp(w.sockets, w.listeners[l].backlog)
  {
    var cs := w.listeners[l].backlog;
    forall i | 0 <= i < |cs| ensures TcpState(w.sockets, cs[i].handle).Some? {
      BacklogHas(w.listeners, l, cs[i]);
      assert BacklogOk(w.listeners[l]);
      OwnedHolds(w, cs[i]);
    }
  }

  lemma AcceptInv(w: World, l: nat)
    requires Inv(w) && l < |w.listeners|
    ensures DoAccept(w, l).Some? && Inv(DoAccept(w, l).value)
  {
    hide Occupied, BacklogClaims, OrphanClaims, Place, FirstFree, FirstEstablished, Fresh, WindingOrphans, BacklogOk;
    BacklogLookups(w, l);
    var lis := w.listeners[l];
    var k := FirstEstablished(w.sockets, lis.backlog, 0);
    if k < |lis.backlog| {
      var (w1, c) := AddOne(w, Tcp(w.next, Listen));
      AddOneInv(w, Tcp(w.next, Listen));
      AcceptOwned(w, l, k, c);
      AcceptKinds(w, l, k, c);
      SumAdd(multiset(w.streams), BacklogClaims(w.listeners), multiset(w.udps), OrphanClaims(w.orphans), multiset{c});
      SumMove(multiset(w.streams), BacklogClaims(w.listeners), multiset(w.udps), OrphanClaims(w.orphans), multiset{c});
    }
  }

  /** Accepting moves one claim from the listener to the streams and gives the listener the new one. */
  lemma AcceptOwned(w: World, l: nat, k: nat, c: Claim)
    requires l < |w.listeners| && k < |w.listeners[l].backlog|
    ensures
      var lis := w.listeners[l];
      multiset(w.streams + [lis.backlog[k]])
      + BacklogClaims(w.listeners[l := lis.(backlog := lis.backlog[k := c])])
      == multiset(w.streams) + BacklogClaims(w.listeners) + multiset{c}
  {
    var lis := w.listeners[l];
    var lis' := lis.(backlog := lis.backlog[k := c]);
    var old' := lis.backlog[k];
    AppendMultiset(w.streams, old');
    UpdateMultiset(lis.backlog, k, c);
    BacklogUpdate(w.listeners, l, lis');
    var before, after := BacklogClaims(w.listeners), BacklogClaims(w.listeners[l := lis']);
    Exchange(before, after, multiset(lis.backlog), multiset(lis'.backlog), multiset{old'}, multiset{c});
    assert multiset(w.streams) + multiset{old'} + after == multiset(w.streams) + (after + multiset{old'});
    assert multiset(w.streams) + (before + multiset{c}) == multiset(w.streams) + before + multiset{c};
  }

  lemma Exchange<T>(
    before: multiset<T>, after: multiset<T>, b: multiset<T>, b': multiset<T>, x: multiset<T>, y: multiset<T>)
    requires after + b == before + b'
    requires b' + x == b + y
    ensures after + x == before + y
  {
    assert (after + x) + b == (after + b) + x == before + (b' + x) == before + (b + y) == (before + y) + b;
    Cancel(after + x, before + y, b);
  }

  lemma AcceptKinds(w: World, l: nat, k: nat, c: Claim)
    requires Kinds(w) && l < |w.listeners| && k < |w.listeners[l].backlog| && c.tcp
    ensures
      var lis := w.listeners[l];
      Kinds(w.(streams := w.streams + [lis.backlog[k]],
               listeners := w.listeners[l := lis.(backlog := lis.backlog[k := c])]))
  {
    var lis := w.listeners[l];
    assert BacklogOk(lis);
    assert lis.backlog[k] in lis.backlog;
    var lis' := lis.(backlog := lis.backlog[k := c]);
    assert forall x | x in lis'.backlog :: x == c || x in lis.backlog;
  }

  lemma StreamLookup(w: World, i: nat)
    requires Inv(w) && i < |w.streams|
    ensures Holds(w.sockets, w.streams[i])
    ensures TcpState(w.sockets, w.streams[i].handle).Some?
  {
    assert w.streams[i] in multiset(w.streams);
    OwnedHolds(w, w.streams[i]);
  }

  /** Changing the state of a stream's socket disturbs nobody. */
  lemma SetStreamState(w: World, i: nat, s: State)
    requires Inv(w) && i < |w.streams| && TcpState(w.sockets, w.streams[i].handle).Some?
    ensures Inv(w.(sockets := SetState(w.sockets, w.streams[i].handle, s)))
  {
    hide Occupied, BacklogClaims, OrphanClaims, Winding, BacklogOk;
    var h := w.streams[i].handle;
    SetStateOccupied(w.sockets, h, s);
    forall j | 0 <= j < |w.orphans| ensures w.orphans[j].claim.handle != h {
      StreamNotOrphan(w, i, j);
    }
  }

  lemma CloseInv(w: World, i: nat)
    requires Inv(w) && i < |w.streams|
    ensures DoClose(w, i).Some? && Inv(DoClose(w, i).value)
  {
    StreamLookup(w, i);
    SetStreamState(w, i, CloseState(TcpState(w.sockets, w.streams[i].handle).value));
  }

  lemma AbortInv(w: World, i: nat)
    requires Inv(w) && i < |w.streams|
    ensures DoAbort(w, i).Some? && Inv(DoAbort(w, i).value)
  {
    StreamLookup(w, i);
    SetStreamState(w, i, Closed);
  }

  /** A stream whose socket winds down becomes an orphan. */
  lemma OrphanInv(w: World, i: nat)
    requires Inv(w) && w.phase.Yielded? && i < |w.streams|
    requires TcpState(w.sockets, w.streams[i].handle).Some?
    requires Winding(TcpState(w.sockets, w.streams[i].handle).value)
    ensures Inv(w.(streams := Without(w.streams, i), orphans := w.orphans + [Orphan(w.streams[i], false)]))
  {
    hide Occupied, BacklogClaims, OrphanClaims, Fresh, Without;
    var c := w.streams[i];
    var rest := Without(w.streams, i);
    WithoutMultiset(w.streams, i);
    WithoutIn(w.streams, i);
    OrphanAppend(w.orphans, Orphan(c, false));
    var b, u, o := BacklogClaims(w.listeners), multiset(w.udps), OrphanClaims(w.orphans);
    SumAdd(multiset(rest), b, u, o, multiset{c});
    assert c in w.streams;
  }

  lemma WithoutIn<T>(s: seq<T>, i: nat)
    requires i < |s|
    ensures forall x | x in Without(s, i) :: x in s
  {
  }

  /** Removing the slot of a stream that goes away. */
  lemma RemoveStreamInv(w: World, i: nat)
    requires Inv(w) && i < |w.streams| && Holds(w.sockets, w.streams[i])
    ensures Inv(w.(streams := Without(w.streams, i), sockets := Remove(w.sockets, w.streams[i].handle)))
  {
    hide Occupied, BacklogClaims, OrphanClaims, Without, Winding;
    var c := w.streams[i];
    WithoutMultiset(w.streams, i);
    WithoutIn(w.streams, i);
    RemoveOccupied(w.sockets, c);
    var b, u, o := BacklogClaims(w.listeners), multiset(w.udps), OrphanClaims(w.orphans);
    SumAdd(multiset(Without(w.streams, i)), b, u, o, multiset{c});
    Cancel(multiset(Without(w.streams, i)) + b + u + o, Occupied(Remove(w.sockets, c.handle)), multiset{c});
    forall j | 0 <= j < |w.orphans| ensures w.orphans[j].claim.handle != c.handle {
      StreamNotOrphan(w, i, j);
    }
  }

  lemma DropStreamInv(w: World, i: nat)
    requires Inv(w) && w.phase.Yielded? && i < |w.streams|
    ensures DoDropStream(w, i).Some? && Inv(DoDropStream(w, i).value)
  {
    StreamLookup(w, i);
    var h := w.streams[i].handle;
    var s := TcpState(w.sockets, h).value;
    if Finished(s) {
      RemoveStreamInv(w, i);
    } else if Winding(s) {
      OrphanInv(w, i);
    } else {
      SetStreamState(w, i, Closed);
      OrphanInv(w.(sockets := SetState(w.sockets, h, Closed)), i);
    }
  }

  lemma DropUdpInv(w: World, i: nat)
    requires Inv(w) && i < |w.udps|
    ensures DoDropUdp(w, i).Some? && Inv(DoDropUdp(w, i).value)
  {
    hide Occupied, BacklogClaims, OrphanClaims, Without, Winding;
    var c := w.udps[i];
    assert c in multiset(w.udps);
    OwnedHolds(w, c);
    WithoutMultiset(w.udps, i);
    WithoutIn(w.udps, i);
    RemoveOccupied(w.sockets, c);
    var s, b, o := multiset(w.streams), BacklogClaims(w.listeners), OrphanClaims(w.orphans);
    SumAdd(s, b, multiset(Without(w.udps, i)), o, multiset{c});
    Cancel(s + b + multiset(Without(w.udps, i)) + o, Occupied(Remove(w.sockets, c.handle)), multiset{c});
    forall j | 0 <= j < |w.orphans| ensures w.orphans[j].claim.handle != c.handle {
      UdpNotOrphan(w, i, j);
    }
  }

  /** Removing claimed slots one by one never hits an empty one, and the other claims stay. */
  lemma {:induction false} RemoveAllOk(t: Table, cs: seq<Claim>, others: multiset<Claim>)
    requires others + multiset(cs) == Occupied(t)
    requires forall c | c in cs :: c.tcp
    ensures RemoveAll(t, cs).Some? && Occupied(RemoveAll(t, cs).value) == others
    decreases |cs|
  {
    hide Occupied;
    if cs == [] {
      assert others + multiset(cs) == others;
    } else {
      RemoveFirst(t, cs, others);
      RemoveAllOk(Remove(t, cs[0].handle), cs[1..], others);
    }
  }

  lemma RemoveFirst(t: Table, cs: seq<Claim>, others: multiset<Claim>)
    requires cs != [] && others + multiset(cs) == Occupied(t) && cs[0].tcp
    ensures TcpState(t, cs[0].handle).Some?
    ensures others + multiset(cs[1..]) == Occupied(Remove(t, cs[0].handle))
  {
    hide Occupied;
    var c := cs[0];
    assert cs == [c] + cs[1..];
    assert multiset(cs) == multiset{c} + multiset(cs[1..]);
    assert c in Occupied(t);
    OccupiedCount(t, c);
    HoldsTcp(t, c);
    RemoveOccupied(t, c);
    assert (others + multiset(cs[1..])) + multiset{c} == Occupied(t);
    Cancel(others + multiset(cs[1..]), Occupied(Remove(t, c.handle)), multiset{c});
  }

  lemma {:induction false} RemoveAllFrame(t: Table, cs: seq<Claim>, h: nat)
    requires RemoveAll(t, cs).Some? && h < |t| && forall c | c in cs :: c.handle != h
    ensures
      var t' := RemoveAll(t, cs).value;
      |t'| == |t| && t'[h] == t[h]
    decreases |cs|
  {
    if cs != [] {
      assert cs[0] in cs;
      RemoveAllFrame(Remove(t, cs[0].handle), cs[1..], h);
    }
  }

  /** What is removed becomes empty, and nothing else changes. */
  lemma {:induction false} RemoveAllOnly(t: Table, cs: seq<Claim>)
    requires RemoveAll(t, cs).Some?
    ensures
      var t' := RemoveAll(t, cs).value;
      |t'| == |t| && forall h | 0 <= h < |t| :: t'[h] == t[h] || t'[h].None?
    decreases |cs|
  {
    if cs != [] {
      RemoveAllOnly(Remove(t, cs[0].handle), cs[1..]);
    }
  }

  lemma HoldsTcp(t: Table, c: Claim)
    requires Holds(t, c)
    ensures c.handle < |t|
    ensures c.tcp ==> TcpState(t, c.handle).Some?
    ensures !c.tcp ==> UdpAt(t, c.handle)
  {
    var slot := t[c.handle];
    assert c in multiset{c};
    assert slot.Some?;
    assert Claim(c.handle, slot.value.uid, slot.value.Tcp?) in multiset{c};
  }

  lemma DropListenerInv(w: World, l: nat)
    requires Inv(w) && l < |w.listeners|
    ensures DoDropListener(w, l).Some? && Inv(DoDropListener(w, l).value)
  {
    hide Occupied, BacklogClaims, OrphanClaims, Without, Winding, RemoveAll, TcpState;
    var cs := w.listeners[l].backlog;
    var rest := Without(w.listeners, l);
    BacklogWithout(w.listeners, l);
    WithoutIn(w.listeners, l);
    var s, u, o := multiset(w.streams), multiset(w.udps), OrphanClaims(w.orphans);
    SumAdd(s, BacklogClaims(rest), u, o, multiset(cs));
    assert BacklogOk(w.listeners[l]);
    RemoveAllOk(w.sockets, cs, s + BacklogClaims(rest) + u + o);
    RemoveAllOnly(w.sockets, cs);
    forall h | 0 <= h < |w.sockets| && (forall c | c in cs :: c.handle != h)
      ensures RemoveAll(w.sockets, cs).value[h] == w.sockets[h]
    {
      RemoveAllFrame(w.sockets, cs, h);
    }
    DropListenerOrphans(w, l, RemoveAll(w.sockets, cs).value);
    forall i | 0 <= i < |rest| ensures BacklogOk(rest[i]) {
      assert rest[i] in w.listeners;
    }
  }

  /** Dropping a listener leaves the orphans their slots. */
  lemma DropListenerOrphans(w: World, l: nat, t: Table)
    requires Inv(w) && l < |w.listeners| && |t| == |w.sockets|
    requires forall h | 0 <= h < |t| && (forall c | c in w.listeners[l].backlog :: c.handle != h) ::
      t[h] == w.sockets[h]
    ensures WindingOrphans(t, w.orphans)
  {
    hide Owned, Occupied, Winding;
    forall j | 0 <= j < |w.orphans|
      ensures TcpState(t, w.orphans[j].claim.handle) == TcpState(w.sockets, w.orphans[j].claim.handle)
    {
      forall c | c in w.listeners[l].backlog ensures c.handle != w.orphans[j].claim.handle {
        BacklogNotOrphan(w, l, c, j);
      }
    }
  }

  // ---- The reactor ----

  lemma {:induction false} TableMayOccupied(t: Table, t': Table)
    requires TableMay(t, t')
    ensures Occupied(t') == Occupied(t)
  {
    if t != [] {
      TableMayOccupied(t[..|t| - 1], t'[..|t| - 1]);
      assert SlotMay(t[|t| - 1], t'[|t| - 1]);
    }
  }

  /** The network never brings a winding socket back. */
  lemma WindingStays(s: State, s': State)
    requires Winding(s) && NetMay(s, s')
    ensures Winding(s')
  {
  }

  lemma NetInv(w: World, net: Table)
    requires Inv(w) && TableMay(w.sockets, net)
    ensures Inv(w.(sockets := net))
  {
    TableMayOccupied(w.sockets, net);
    forall h | 0 <= h < |net| && net[h].Some? ensures net[h].value.uid < w.next {
      assert SlotMay(w.sockets[h], net[h]);
    }
    forall i | 0 <= i < |w.orphans|
      ensures
        var s := TcpState(net, w.orphans[i].claim.handle);
        s.Some? && Winding(s.value)
    {
      var h := w.orphans[i].claim.handle;
      assert SlotMay(w.sockets[h], net[h]);
      WindingStays(w.sockets[h].value.state, net[h].value.state);
    }
  }

  lemma EgressInv(w: World, net: Table)
    requires Inv(w) && TableMay(w.sockets, net)
    ensures Inv(w.(sockets := net, orphans := AllFlushed(w.orphans), phase := Flushed))
  {
    hide Occupied, BacklogClaims, OrphanClaims, Winding, Fresh, AllFlushed;
    NetInv(w, net);
    FlushedClaims(w.orphans);
  }

  /** The orphans that are still closing. */
  function Unfinished(t: Table, os: seq<Orphan>): seq<Orphan> {
    if os == [] then []
    else if FinishedAt(t, os[0].claim.handle) then Unfinished(t, os[1..])
    else [os[0]] + Unfinished(t, os[1..])
  }

  predicate FinishedAt(t: Table, h: nat) {
    TcpState(t, h).Some? && Finished(TcpState(t, h).value)
  }

  /** Some orphan names the slot, and its socket is finished. */
  predicate Swept(t: Table, os: seq<Orphan>, h: nat) {
    FinishedAt(t, h) && exists o | o in os :: o.claim.handle == h
  }

  /** A sweep keeps exactly the unfinished orphans and empties exactly the slots of the finished ones. */
  lemma {:induction false} SweepOk(t: Table, os: seq<Orphan>, others: multiset<Claim>)
    requires others + OrphanClaims(os) == Occupied(t)
    requires WindingOrphans(t, os)
    requires forall o | o in os :: o.claim.tcp
    ensures Sweep(t, os).Some?
    ensures
      var (t', kept) := Sweep(t, os).value;
      Occupied(t') == others + OrphanClaims(kept) && kept == Unfinished(t, os) && |t'| == |t| &&
      forall h | 0 <= h < |t| :: t'[h] == if Swept(t, os, h) then None else t[h]
    decreases |os|
  {
    hide Occupied, Holds, Winding, WindingOrphans, TcpState, Finished;
    if os == [] {
      assert others + OrphanClaims(os) == others;
    } else {
      var c := os[0].claim;
      var tail := os[1..];
      SweepHead(t, os, others);
      HoldsTcp(t, c);
      SweepWinding(t, os, others);
      if FinishedAt(t, c.handle) {
        SweepOk(Remove(t, c.handle), tail, others);
        SweptAfter(t, os);
      } else {
        OrphanHead(os[0], tail, others);
        SweepOk(t, tail, others + multiset{c});
        OrphanHead(os[0], Sweep(t, tail).value.1, others);
      }
    }
  }

  /** Once the first orphan is swept, the others are judged as before. */
  lemma SweptAfter(t: Table, os: seq<Orphan>)
    requires os != [] && os[0].claim.handle < |t|
    requires forall o | o in os[1..] :: o.claim.handle != os[0].claim.handle
    ensures
      var t' := Remove(t, os[0].claim.handle);
      Unfinished(t', os[1..]) == Unfinished(t, os[1..]) &&
      forall h | 0 <= h < |t| && h != os[0].claim.handle :: Swept(t', os[1..], h) <==> Swept(t, os, h)
  {
    var t' := Remove(t, os[0].claim.handle);
    UnfinishedSame(t, t', os[1..]);
    forall h | 0 <= h < |t| && h != os[0].claim.handle
      ensures Swept(t', os[1..], h) <==> Swept(t, os, h)
    {
      assert TcpState(t', h) == TcpState(t, h);
      assert forall o | o in os :: o == os[0] || o in os[1..];
    }
  }

  lemma {:induction false} UnfinishedSame(t: Table, t': Table, os: seq<Orphan>)
    requires forall o | o in os :: TcpState(t', o.claim.handle) == TcpState(t, o.claim.handle)
    ensures Unfinished(t', os) == Unfinished(t, os)
  {
    if os != [] {
      UnfinishedSame(t, t', os[1..]);
    }
  }

  lemma {:induction false} UnfinishedAre(t: Table, os: seq<Orphan>)
    ensures forall o | o in Unfinished(t, os) :: o in os && !FinishedAt(t, o.claim.handle)
    ensures forall o | o in os && !FinishedAt(t, o.claim.handle) :: o in Unfinished(t, os)
  {
    if os != [] {
      UnfinishedAre(t, os[1..]);
      assert forall o | o in os :: o == os[0] || o in os[1..];
    }
  }

  lemma OrphanHead(o: Orphan, tail: seq<Orphan>, others: multiset<Claim>)
    ensures (others + multiset{o.claim}) + OrphanClaims(tail) == others + OrphanClaims([o] + tail)
  {
    assert ([o] + tail)[1..] == tail;
  }

  /** The first orphan holds its slot, and removing it leaves the other claims. */
  lemma SweepHead(t: Table, os: seq<Orphan>, others: multiset<Claim>)
    requires os != [] && others + OrphanClaims(os) == Occupied(t)
    ensures
      var c := os[0].claim;
      Holds(t, c) &&
      others + OrphanClaims(os[1..]) == Occupied(Remove(t, c.handle))
  {
    hide Occupied;
    var c := os[0].claim;
    var tail := os[1..];
    assert os == [os[0]] + tail;
    OrphanHead(os[0], tail, others);
    assert c in OrphanClaims(os);
    OccupiedCount(t, c);
    RemoveOccupied(t, c);
    assert (others + OrphanClaims(tail)) + multiset{c} == (others + multiset{c}) + OrphanClaims(tail);
    Cancel(others + OrphanClaims(tail), Occupied(Remove(t, c.handle)), multiset{c});
  }

  /** Removing one orphan's slot leaves the other orphans theirs. */
  lemma SweepWinding(t: Table, os: seq<Orphan>, others: multiset<Claim>)
    requires os != [] && WindingOrphans(t, os)
    requires os[0].claim.handle < |t|
    requires others + OrphanClaims(os[1..]) == Occupied(Remove(t, os[0].claim.handle))
    ensures TcpState(t, os[0].claim.handle).Some?
    ensures forall o | o in os[1..] :: o.claim.handle != os[0].claim.handle
    ensures WindingOrphans(t, os[1..]) && WindingOrphans(Remove(t, os[0].claim.handle), os[1..])
  {
    hide Occupied, Winding;
    var h := os[0].claim.handle;
    var tail := os[1..];
    var t' := Remove(t, h);
    forall i | 0 <= i < |tail| ensures TcpState(t', tail[i].claim.handle) == TcpState(t, os[i + 1].claim.handle) {
      OrphanHas(tail, i);
      OccupiedCount(t', tail[i].claim);
      HoldsSome(t', tail[i].claim);
    }
  }

  lemma HoldsSome(t: Table, c: Claim)
    requires Holds(t, c)
    ensures t[c.handle].Some? && t[c.handle].value.uid == c.uid
  {
    HoldsTcp(t, c);
    var slot := t[c.handle];
    assert Claim(c.handle, slot.value.uid, slot.value.Tcp?) in multiset{c};
  }

  /**
   * Cleanup never panics; it removes exactly the closed and time-wait orphans,
   * keeps the others in order, and touches no slot of a live owner.
   */
  lemma CleanupInv(w: World)
    requires Inv(w)
    ensures DoCleanup(w).Some?
    ensures
      var w' := DoCleanup(w).value;
      Inv(w') && w'.orphans == Unfinished(w.sockets, w.orphans) && |w'.sockets| == |w.sockets| &&
      forall h | 0 <= h < |w.sockets| ::
        w'.sockets[h] == if Swept(w.sockets, w.orphans, h) then None else w.sockets[h]
  {
    hide Occupied, OrphanClaims, BacklogClaims, Winding;
    var others := multiset(w.streams) + BacklogClaims(w.listeners) + multiset(w.udps);
    SweepOk(w.sockets, w.orphans, others);
    UnfinishedAre(w.sockets, w.orphans);
    var (t, kept) := Sweep(w.sockets, w.orphans).value;
    forall i | 0 <= i < |kept|
      ensures TcpState(t, kept[i].claim.handle) == TcpState(w.sockets, kept[i].claim.handle)
    {
      assert kept[i] in kept;
    }
    CleanupWinding(w, t, kept);
  }

  lemma CleanupWinding(w: World, t: Table, kept: seq<Orphan>)
    requires WindingOrphans(w.sockets, w.orphans)
    requires forall o | o in kept :: o in w.orphans
    requires forall i | 0 <= i < |kept| ::
      TcpState(t, kept[i].claim.handle) == TcpState(w.sockets, kept[i].claim.handle)
    ensures WindingOrphans(t, kept)
  {
    forall i | 0 <= i < |kept|
      ensures TcpState(t, kept[i].claim.handle).Some? && Winding(TcpState(t, kept[i].claim.handle).value)
    {
      assert kept[i] in kept;
      var j :| 0 <= j < |w.orphans| && w.orphans[j] == kept[i];
    }
  }

  // ---- Every run ----

  lemma StepInv(w: World, a: Action, batch: nat)
    requires Inv(w) && Enabled(w, a, batch)
    ensures Step(w, a, batch).Some? && Inv(Step(w, a, batch).value)
  {
    match a
    case Connect(ok) => ConnectInv(w, ok);
    case Bind(port, backlog) => BindInv(w, port, backlog);
    case BindUdp(port) => BindUdpInv(w, port);
    case Accept(l) => AcceptInv(w, l);
    case CloseStream(i) => CloseInv(w, i);
    case AbortStream(i) => AbortInv(w, i);
    case DropStream(i) => DropStreamInv(w, i);
    case DropListener(l) => DropListenerInv(w, l);
    case DropUdp(i) => DropUdpInv(w, i);
    case Start =>
    case Ingest(packet, net) => NetInv(w, net);
    case Egress(net) => EgressInv(w, net);
    case Cleanup => CleanupInv(w);
  }

  const Initial: World := World([], [], [], [], [], 0, Yielded)

  /** A run: each action enabled where it happens. `None` is a run that panicked. */
  predicate Runs(w: World, actions: seq<Action>, batch: nat, last: Option<World>)
    decreases |actions|
  {
    if actions == [] then last == Some(w)
    else
      Enabled(w, actions[0], batch) &&
      match Step(w, actions[0], batch)
      case None => last == None
      case Some(w') => Runs(w', actions[1..], batch, last)
  }

  /** From the empty table, no run panics and every state it reaches keeps the partition. */
  lemma {:induction false} RunSafe(w: World, actions: seq<Action>, batch: nat, last: Option<World>)
    requires Inv(w) && Runs(w, actions, batch, last)
    ensures last.Some? && Inv(last.value)
    decreases |actions|
  {
    hide Step, Inv, Enabled;
    if actions != [] {
      StepInv(w, actions[0], batch);
      RunSafe(Step(w, actions[0], batch).value, actions[1..], batch, last);
    }
  }

  lemma EveryRunSafe(actions: seq<Action>, batch: nat, last: Option<World>)
    requires Runs(Initial, actions, batch, last)
    ensures last.Some? && Inv(last.value)
  {
    assert Owned(Initial) == multiset{} == Occupied(Initial.sockets);
    RunSafe(Initial, actions, batch, last);
  }

  /** An occupied slot always has an owner, who was given the very socket it holds. */
  lemma OccupiedOwned(w: World, h: nat)
    requires Inv(w) && h < |w.sockets| && w.sockets[h].Some?
    ensures
      var c := Claim(h, w.sockets[h].value.uid, w.sockets[h].value.Tcp?);
      Owned(w)[c] == 1 && c.uid < w.next
  {
    OccupiedCount(w.sockets, Claim(h, w.sockets[h].value.uid, w.sockets[h].value.Tcp?));
  }

  // ---- Fairness of the loop ----

  function AtLeastOne(batch: nat): nat {
    if batch == 0 then 1 else batch
  }

  function Packets(actions: seq<Action>): nat {
    if actions == [] then 0
    else (if actions[0].Ingest? && actions[0].packet then 1 else 0) + Packets(actions[1..])
  }

  /** The loop yields once per cleanup. */
  function Yields(actions: seq<Action>): nat {
    if actions == [] then 0
    else (if actions[0].Cleanup? then 1 else 0) + Yields(actions[1..])
  }

  /** Packets that may still come before the next egress pass, and yields that must. */
  function Budget(p: Phase, batch: nat): int {
    match p
    case Ingesting(n) => AtLeastOne(batch) - n
    case Ingested => 0
    case _ => AtLeastOne(batch)
  }

  /** Packets and yields along a run without an egress pass. */
  lemma {:induction false} BetweenEgress(w: World, actions: seq<Action>, batch: nat, last: World)
    requires Runs(w, actions, batch, Some(last))
    requires forall i | 0 <= i < |actions| :: !actions[i].Egress?
    requires w.phase.Ingesting? ==> w.phase.packets < AtLeastOne(batch)
    ensures Packets(actions) + Budget(last.phase, batch) <= Budget(w.phase, batch)
    ensures Yields(actions) == if w.phase.Flushed? && !last.phase.Flushed? then 1 else 0
    ensures last.phase.Flushed? ==> w.phase.Flushed?
    decreases |actions|
  {
    if actions != [] {
      assert !actions[0].Egress?;
      var w' := Step(w, actions[0], batch).value;
      StepPhase(w, actions[0], batch);
      BetweenEgress(w', actions[1..], batch, last);
    }
  }

  lemma StepPhase(w: World, a: Action, batch: nat)
    requires Enabled(w, a, batch) && Step(w, a, batch).Some? && !a.Egress?
    ensures
      var p := Step(w, a, batch).value.phase;
      match a
      case Start => p == Ingesting(0)
      case Ingest(packet, _) => p == if packet then AfterPacket(w.phase.packets, batch) else Ingested
      case Cleanup => p == Yielded
      case _ => p == w.phase
  {
  }

  /**
   * From one egress pass to the next: at most `max(1, batch)` packets are
   * ingested, and the loop yields exactly once.
   */
  lemma EgressToEgress(w: World, actions: seq<Action>, batch: nat, last: World)
    requires w.phase.Flushed? && Runs(w, actions, batch, Some(last)) && last.phase.Ingested?
    requires forall i | 0 <= i < |actions| :: !actions[i].Egress?
    ensures Packets(actions) <= AtLeastOne(batch)
    ensures Yields(actions) == 1
  {
    BetweenEgress(w, actions, batch, last);
  }

  /**
   * A stream's drop marks its orphan as not yet flushed, only an egress pass
   * marks it flushed, and cleanup runs only when every orphan is flushed: so
   * the reset of an aborted socket is sent before its slot goes.
   */
  lemma FlushedBeforeCleanup(w: World, w': World, batch: nat)
    requires Inv(w) && Enabled(w, Cleanup, batch) && Step(w, Cleanup, batch) == Some(w')
    ensures |w'.sockets| == |w.sockets|
    ensures forall h | 0 <= h < |w.sockets| && w'.sockets[h] != w.sockets[h] ::
      exists o | o in w.orphans :: o.claim.handle == h && o.flushed
  {
    CleanupInv(w);
  }

  /** No step but egress flushes an orphan. */
  lemma OnlyEgressFlushes(w: World, a: Action, batch: nat, w': World, o: Orphan)
    requires Inv(w) && Enabled(w, a, batch) && !a.Egress? && Step(w, a, batch) == Some(w')
    requires o in w'.orphans && o.flushed
    ensures o in w.orphans
  {
    if a.Cleanup? {
      CleanupInv(w);
      UnfinishedAre(w.sockets, w.orphans);
    } else {
      StepOrphans(w, a, batch);
    }
  }

  lemma StepOrphans(w: World, a: Action, batch: nat)
    requires Enabled(w, a, batch) && Step(w, a, batch).Some? && !a.Egress? && !a.Cleanup?
    ensures forall o | o in Step(w, a, batch).value.orphans :: o in w.orphans || !o.flushed
  {
    hide Place, AddListening, FirstEstablished, AllTcp, RemoveAll, TableMay, SetState, Remove;
  }

  /** Between a stream's drop and the next egress pass nothing takes the orphan off the list. */
  lemma OrphanStays(w: World, a: Action, batch: nat, w': World, o: Orphan)
    requires Inv(w) && Enabled(w, a, batch) && !a.Egress? && Step(w, a, batch) == Some(w')
    requires o in w.orphans && !o.flushed
    ensures o in w'.orphans
  {
    hide Place, AddListening, FirstEstablished, AllTcp, RemoveAll, TableMay, SetState, Remove, Sweep;
  }

  /**
   * Along every run without an egress pass, an orphan that has not seen one
   * stays on the list and keeps its slot and its socket, however many other
   * sockets come and go.
   */
  lemma {:induction false} OrphanWaitsForEgress(w: World, actions: seq<Action>, batch: nat, last: World, o: Orphan)
    requires Inv(w) && Runs(w, actions, batch, Some(last))
    requires forall i | 0 <= i < |actions| :: !actions[i].Egress?
    requires o in w.orphans && !o.flushed
    ensures o in last.orphans && Holds(last.sockets, o.claim)
    decreases |actions|
  {
    hide Inv, Step, Enabled;
    if actions == [] {
      var i :| 0 <= i < |w.orphans| && w.orphans[i] == o;
      OrphanHas(w.orphans, i);
      OwnedHolds(w, o.claim);
    } else {
      StepInv(w, actions[0], batch);
      var w' := Step(w, actions[0], batch).value;
      OrphanStays(w, actions[0], batch, w', o);
      OrphanWaitsForEgress(w', actions[1..], batch, last, o);
    }
  }

  // ---- Isolation ----

  function HandlesOf(cs: seq<Claim>): set<nat> {
    set c | c in cs :: c.handle
  }

  /** The slots that belong to what an action works on. */
  function Touched(w: World, a: Action, batch: nat): set<nat>
    requires Enabled(w, a, batch)
  {
    match a
    case CloseStream(i) => {w.streams[i].handle}
    case AbortStream(i) => {w.streams[i].handle}
    case DropStream(i) => {w.streams[i].handle}
    case DropUdp(i) => {w.udps[i].handle}
    case DropListener(l) => HandlesOf(w.listeners[l].backlog)
    case Cleanup => set o | o in w.orphans && FinishedAt(w.sockets, o.claim.handle) :: o.claim.handle
    case _ => {}
  }

  /**
   * No step but a pass over the network changes any socket other than those of
   * the object it works on, and none moves a socket to another slot.
   */
  lemma Isolated(w: World, a: Action, batch: nat, w': World, h: nat)
    requires Inv(w) && Enabled(w, a, batch) && Step(w, a, batch) == Some(w')
    requires !a.Ingest? && !a.Egress?
    requires h < |w.sockets| && w.sockets[h].Some? && h !in Touched(w, a, batch)
    ensures h < |w'.sockets| && w'.sockets[h] == w.sockets[h]
  {
    hide Place, AddListening, RemoveAll, Sweep, FirstEstablished, AllTcp, Occupied;
    match a
    case Connect(_) => PlaceKeeps(w.sockets, Tcp(w.next, SynSent), h);
    case BindUdp(_) => PlaceKeeps(w.sockets, Udp(w.next), h);
    case Accept(_) => PlaceKeeps(w.sockets, Tcp(w.next, Listen), h);
    case Bind(_, backlog) => AddListeningFrame(w.sockets, w.next, if backlog == 0 then 1 else backlog, h);
    case DropListener(l) =>
      var cs := w.listeners[l].backlog;
      forall c | c in cs ensures c.handle != h {
        assert c.handle in HandlesOf(cs);
      }
      RemoveAllFrame(w.sockets, cs, h);
    case Cleanup => CleanupInv(w);
    case _ =>
  }

  lemma {:induction false} AddListeningFrame(t: Table, next: nat, n: nat, h: nat)
    requires h < |t| && t[h].Some?
    ensures
      var t' := AddListening(t, next, n).0;
      h < |t'| && t'[h] == t[h]
  {
    if n > 0 {
      AddListeningFrame(t, next, n - 1, h);
      PlaceKeeps(AddListening(t, next, n - 1).0, Tcp(next + n - 1, Listen), h);
    }
  }
}
