/**
 * The kimojio connection loop, which empties its buffer after every request,
 * and exactly when that costs nothing.
 */
module Kimojio {
  import opened Bytes
  import opened HttpSpec
  import opened HttpServer
  import opened Wire
  import P = HttpParser

  /** How many bytes the next reset drops; past the end of the list a reset drops none. */
  function Dropped(lost: seq<nat>, rest: seq<byte>): nat {
    if lost == [] then 0 else Min(lost[0], |rest|)
  }

  /** What a reset leaves of the bytes after a request. */
  function Kept(lost: seq<nat>, rest: seq<byte>): (r: seq<byte>)
    ensures |r| <= |rest|
  {
    rest[Dropped(lost, rest)..]
  }

  /** The connection when the bytes buffered after each kept-alive request are thrown away. */
  function ServeWithReset(lib: Library, app: App, s: seq<byte>, end: Ending, lost: seq<nat>): Transcript
    requires lib.Lawful()
    decreases |s|
  {
    hide ParseRequest, KeepAlive, ReplyBytes;
    if Continues(lib, s, end) then
      var p := ParseRequest(lib, s, end);
      Then(p.request, ReplyBytes(app, p.request),
           ServeWithReset(lib, app, Kept(lost, p.rest), end, Tail(lost)))
    else First(lib, app, s, end)
  }

  lemma ResetStarts(lib: Library, app: App, s: seq<byte>, end: Ending, lost: seq<nat>)
    requires lib.Lawful()
    ensures
      var p := ParseRequest(lib, s, end);
      var t := ServeWithReset(lib, app, s, end, lost);
      var f := First(lib, app, s, end);
      if Continues(lib, s, end) then
        p.Got? && |p.rest| < |s| && f.requests <= t.requests && f.wire <= t.wire &&
        t == Then(p.request, ReplyBytes(app, p.request),
                  ServeWithReset(lib, app, Kept(lost, p.rest), end, Tail(lost)))
      else t == f
  {
    hide ParseRequest, ReplyBytes, KeepAlive, Kept, Library.Lawful;
  }

  /** The loop so far, whatever its later resets drop. */
  ghost predicate SoFar(
    lib: Library, app: App, s: seq<byte>, end: Ending, lost: seq<nat>,
    handled: seq<Request>, wire: seq<byte>, pending: seq<byte>)
    requires lib.Lawful()
  {
    forall more :: Splits(lib, app, s, end, lost, handled, wire, pending, more)
  }

  ghost predicate Splits(
    lib: Library, app: App, s: seq<byte>, end: Ending, lost: seq<nat>,
    handled: seq<Request>, wire: seq<byte>, pending: seq<byte>, more: seq<nat>)
    requires lib.Lawful()
  {
    ServeWithReset(lib, app, s, end, lost + more)
    == After(handled, wire, ServeWithReset(lib, app, pending, end, more))
  }

  lemma SoFarNext(
    lib: Library, app: App, s: seq<byte>, end: Ending, lost: seq<nat>,
    handled: seq<Request>, wire: seq<byte>, pending: seq<byte>, k: nat)
    requires lib.Lawful()
    requires SoFar(lib, app, s, end, lost, handled, wire, pending)
    requires Continues(lib, pending, end)
    requires k <= |ParseRequest(lib, pending, end).rest|
    ensures
      var p := ParseRequest(lib, pending, end);
      SoFar(lib, app, s, end, lost + [k], handled + [p.request], wire + ReplyBytes(app, p.request), p.rest[k..])
  {
    hide ParseRequest, Continues, ServeWithReset, ReplyBytes, First;
    ResetStarts(lib, app, pending, end, []);
    var p := ParseRequest(lib, pending, end);
    forall more: seq<nat>
      ensures Splits(lib, app, s, end, lost + [k], handled + [p.request], wire + ReplyBytes(app, p.request),
                     p.rest[k..], more)
    {
      var next := [k] + more;
      Assoc(lost, [k], more);
      assert Splits(lib, app, s, end, lost, handled, wire, pending, next);
      ResetStarts(lib, app, pending, end, next);
      assert Tail(next) == more && Kept(next, p.rest) == p.rest[k..];
      AfterThen(handled, wire, p.request, ReplyBytes(app, p.request),
                ServeWithReset(lib, app, p.rest[k..], end, more));
    }
  }

  ghost predicate Bounded(lost: seq<nat>) {
    forall i | 0 <= i < |lost| :: lost[i] <= MAX_BUF_SIZE
  }

  lemma BoundedAppend(lost: seq<nat>, k: nat)
    requires Bounded(lost) && k <= MAX_BUF_SIZE
    ensures Bounded(lost + [k]) && Bounded([])
  {
  }

  /** Nothing was dropped. */
  ghost predicate Zero(lost: seq<nat>) {
    forall i | 0 <= i < |lost| :: lost[i] == 0
  }

  lemma ZeroAppend(lost: seq<nat>, k: nat)
    ensures Zero([])
    ensures Zero(lost + [k]) <==> Zero(lost) && k == 0
  {
    assert k in lost + [k] && (lost + [k])[|lost|] == k;
    if Zero(lost + [k]) {
      forall i | 0 <= i < |lost| ensures lost[i] == 0 {
        assert (lost + [k])[i] == lost[i];
      }
    }
  }

  /** Resets that drop nothing change nothing. */
  lemma {:induction false} ZeroDrops(lib: Library, app: App, s: seq<byte>, end: Ending, lost: seq<nat>)
    requires lib.Lawful() && Zero(lost)
    ensures ServeWithReset(lib, app, s, end, lost) == Serve(lib, app, s, end)
    decreases |s|
  {
    hide ParseRequest, ReplyBytes, KeepAlive, Library.Lawful;
    if Continues(lib, s, end) {
      var p := ParseRequest(lib, s, end);
      assert Kept(lost, p.rest) == p.rest;
      ZeroDrops(lib, app, p.rest, end, Tail(lost));
    }
  }

  // ---- Which streams can lose bytes ----

  /**
   * The first request of `s` can lose bytes when the buffer has room for `capacity`:
   * something follows it, and either its body is chunked, so that a line of it
   * may be read too far, or it ends before the buffer that its header filled does.
   */
  predicate Loses(lib: Library, capacity: nat, s: seq<byte>, end: Ending): (r: bool)
    requires lib.Lawful() && capacity > 0
    ensures r ==> Continues(lib, s, end) && ParseRequest(lib, s, end).Got?
  {
    hide ParseRequest, KeepAlive, Library.Lawful;
    var p := ParseRequest(lib, s, end);
    && Continues(lib, s, end) && p.rest != []
    && (IsChunked(p.request.head.headers) || |s| - |p.rest| < P.Fit(capacity, P.HeadLen(lib, s)))
  }

  /** No request of the connection can lose bytes. */
  predicate Lossless(lib: Library, capacity: nat, s: seq<byte>, end: Ending)
    requires lib.Lawful() && capacity > 0
    decreases |s|
  {
    hide ParseRequest, KeepAlive, Loses, Library.Lawful;
    Continues(lib, s, end) ==>
      && !Loses(lib, capacity, s, end)
      && Lossless(lib, P.Fit(capacity, P.HeadLen(lib, s)), ParseRequest(lib, s, end).rest, end)
  }

  /**
   * The mark at which reading fast loses bytes for the first time: the start of
   * the request, or for a chunked one its last byte.
   */
  function LossyPace(lib: Library, capacity: nat, s: seq<byte>, end: Ending): (pace: nat)
    requires lib.Lawful() && capacity > 0 && !Lossless(lib, capacity, s, end)
    ensures pace <= |s|
    decreases |s|
  {
    hide ParseRequest, KeepAlive, Loses, IsChunked, P.Fit, P.HeadLen, Library.Lawful;
    var p := ParseRequest(lib, s, end);
    if !Loses(lib, capacity, s, end) then
      LossyPace(lib, P.Fit(capacity, P.HeadLen(lib, s)), p.rest, end)
    else if IsChunked(p.request.head.headers) then |p.rest| + 1
    else |s|
  }

  /** The stream can lose bytes, and first does so at `pace`. */
  predicate LosesAt(lib: Library, s: seq<byte>, end: Ending, pace: nat)
    requires lib.Lawful()
  {
    !Lossless(lib, INITIAL_BUF_SIZE, s, end) && pace == LossyPace(lib, INITIAL_BUF_SIZE, s, end)
  }

  /** Every read takes what it can, and the first can take everything. */
  predicate InOneRead(io: Socket)
    reads io
  {
    io.plan == [] && |io.unread| <= INITIAL_BUF_SIZE
  }

  /** `k` is all that follows the first request. */
  predicate DropsRest(lib: Library, s: seq<byte>, end: Ending, k: nat)
    requires lib.Lawful()
  {
    ParseRequest(lib, s, end).Got? && k == |ParseRequest(lib, s, end).rest|
  }

  /** What the loop keeps true: a lossless stream stays one, and a paced lossy one loses where its mark is. */
  ghost predicate Watch(
    lib: Library, end: Ending, whole: seq<byte>, pending: seq<byte>, capacity: nat,
    lost: seq<nat>, pacedAtFirst: bool, paced: bool, pace: nat)
    requires lib.Lawful() && capacity > 0
  {
    && (Lossless(lib, INITIAL_BUF_SIZE, whole, end) ==> Zero(lost) && Lossless(lib, capacity, pending, end))
    && (pacedAtFirst && Zero(lost) && LosesAt(lib, whole, end, pace) ==>
        paced && !Lossless(lib, capacity, pending, end) && pace == LossyPace(lib, capacity, pending, end))
  }

  lemma WatchStart(lib: Library, end: Ending, s: seq<byte>, paced: bool, pace: nat)
    requires lib.Lawful()
    ensures Watch(lib, end, s, s, INITIAL_BUF_SIZE, [], paced, paced, pace)
  {
    hide Lossless, Library.Lawful;
    ZeroAppend([], 0);
  }

  /** A turn that cannot lose bytes drops none; one that can does, when it is fast at the right place. */
  lemma LosesExactly(
    lib: Library, s: seq<byte>, end: Ending, capacity: nat, paced: bool, pace: nat, plan: seq<nat>, k: nat)
    requires lib.Lawful() && capacity > 0 && Continues(lib, s, end)
    requires paced && |s| == pace ==> plan == []
    requires
      var p := ParseRequest(lib, s, end);
      k <= |p.rest| < |s| &&
      P.Leaves(IsChunked(p.request.head.headers), capacity, |s|, 0, plan, paced, pace,
               P.Fit(capacity, P.HeadLen(lib, s)), |p.rest|, k)
    ensures
      var rest := ParseRequest(lib, s, end).rest;
      !Loses(lib, capacity, s, end) ==> k == 0 && rest[k..] == rest
    ensures Loses(lib, capacity, s, end) && paced && pace == LossyPace(lib, capacity, s, end) ==> k > 0
  {
    hide ParseRequest, KeepAlive, P.Fit, P.HeadLen, IsChunked, Library.Lawful;
  }

  lemma WatchTurn(
    lib: Library, end: Ending, whole: seq<byte>, s: seq<byte>, capacity: nat, lost: seq<nat>,
    pacedAtFirst: bool, paced: bool, paced': bool, pace: nat, plan: seq<nat>, k: nat)
    requires lib.Lawful() && capacity > 0 && Continues(lib, s, end)
    requires Watch(lib, end, whole, s, capacity, lost, pacedAtFirst, paced, pace)
    requires paced ==> paced' && (|s| == pace ==> plan == [])
    requires
      var p := ParseRequest(lib, s, end);
      k <= |p.rest| < |s| &&
      P.Leaves(IsChunked(p.request.head.headers), capacity, |s|, 0, plan, paced, pace,
               P.Fit(capacity, P.HeadLen(lib, s)), |p.rest|, k)
    ensures
      Watch(lib, end, whole, ParseRequest(lib, s, end).rest[k..], P.Fit(capacity, P.HeadLen(lib, s)),
            lost + [k], pacedAtFirst, paced', pace)
  {
    hide ParseRequest, KeepAlive, Zero, Continues, Loses, LosesAt, P.Leaves, P.Fit, P.HeadLen, IsChunked,
         Library.Lawful;
    ZeroAppend(lost, k);
    LosesExactly(lib, s, end, capacity, paced, pace, plan, k);
  }

  lemma WatchZero(
    lib: Library, end: Ending, whole: seq<byte>, s: seq<byte>, capacity: nat, lost: seq<nat>,
    pacedAtFirst: bool, paced: bool, pace: nat)
    requires lib.Lawful() && capacity > 0
    requires Watch(lib, end, whole, s, capacity, lost, pacedAtFirst, paced, pace)
    ensures Lossless(lib, INITIAL_BUF_SIZE, whole, end) ==> Zero(lost)
  {
    hide Lossless, LosesAt, Library.Lawful;
  }

  lemma WatchEnd(
    lib: Library, end: Ending, whole: seq<byte>, s: seq<byte>, capacity: nat, lost: seq<nat>,
    pacedAtFirst: bool, paced: bool, pace: nat)
    requires lib.Lawful() && capacity > 0 && !Continues(lib, s, end)
    requires Watch(lib, end, whole, s, capacity, lost, pacedAtFirst, paced, pace)
    ensures pacedAtFirst && LosesAt(lib, whole, end, pace) ==> !Zero(lost)
  {
    hide ParseRequest, KeepAlive, Zero, Loses, LossyPace, Library.Lawful;
  }

  // ---- The loop ----

  /** One turn, then `reset`: the buffered bytes that follow the request are dropped. */
  method ExchangeAndReset(parser: P.HttpParser, app: App) returns (step: Step, ghost k: nat)
    requires parser.Valid() && parser.len == 0
    modifies parser, parser.buf, parser.reader
    ensures parser.Valid() && (parser.buf == old(parser.buf) || fresh(parser.buf))
    ensures k <= MAX_BUF_SIZE
    ensures
      var io := parser.reader;
      var s := old(parser.Pending());
      match step
      case Next(req) =>
        var p := ParseRequest(parser.lib, s, io.ending);
        && Continues(parser.lib, s, io.ending)
        && p.Got? && p.request == req
        && k <= |p.rest| < |s|
        && parser.len == 0 && parser.Pending() == p.rest[k..]
        && io.out == old(io.out) + ReplyBytes(app, req)
        && parser.buf.Length == P.Fit(old(parser.buf.Length), P.HeadLen(parser.lib, s))
        && P.Leaves(IsChunked(req.head.headers), old(parser.buf.Length), |s|, 0, old(io.plan),
                    old(io.Paced()), io.pace, parser.buf.Length, |p.rest|, k)
      case End(requests, result, complete) =>
        && Agrees(First(parser.lib, app, s, io.ending), requests, old(io.out), io.out, result, complete)
        && (complete ==> !Continues(parser.lib, s, io.ending))
        && (io.reliable ==> complete)
    ensures old(parser.reader.Paced()) ==> parser.reader.Paced()
    ensures parser.reader.drops == old(parser.reader.drops) + if step.Next? then [k] else []
    ensures parser.reader.broken == (old(parser.reader.broken) || (step.End? && !step.complete))
  {
    hide First, Continues, Agrees, ReplyBytes, ReadHead, ReadBody, P.Leaves, P.Fit, P.HeadLen, Socket.Paced,
         IsChunked, Library.Lawful;
    step := Exchange(parser, app);
    k := 0;
    if step.Next? {
      k := parser.len;
      parser.Reset();
    }
  }

  lemma MarkReached(io: Socket)
    ensures io.Paced() && |io.unread| == io.pace ==> io.plan == []
  {
  }

  lemma FirstDrop(io: Socket)
    ensures InOneRead(io) <==> io.plan == [] && |io.unread| <= INITIAL_BUF_SIZE
  {
  }

  /**
   * The loop, under the fragmentation that the socket's plan says. What a reset
   * drops is what the parser has buffered, at most 65536 bytes. A lossless stream
   * loses nothing under any plan; every other one loses bytes under some plan,
   * and all that follows the first request when one read delivers everything.
   */
  method HandleHttpConnection(lib: Library, app: App, io: Socket)
    returns (handled: seq<Request>, result: Result, complete: bool, ghost lost: seq<nat>)
    requires lib.Lawful()
    modifies io
    ensures Agrees(ServeWithReset(lib, app, old(io.unread), io.ending, lost),
                   handled, old(io.out), io.out, result, complete)
    ensures Bounded(lost) && |lost| <= |handled| && (io.reliable ==> complete)
    ensures io.broken == (old(io.broken) || !complete)
    ensures io.drops == old(io.drops) + lost
    ensures Lossless(lib, INITIAL_BUF_SIZE, old(io.unread), io.ending) ==> Zero(lost)
    ensures complete && old(io.Paced()) && LosesAt(lib, old(io.unread), io.ending, io.pace) ==> !Zero(lost)
    ensures complete && old(InOneRead(io)) && Continues(lib, old(io.unread), io.ending) ==> lost != []
    ensures lost != [] && old(InOneRead(io)) ==> DropsRest(lib, old(io.unread), io.ending, lost[0])
  {
    hide Bounded, Zero, ServeWithReset, First, Continues, ParseRequest, Agrees, ReplyBytes, SoFar, After, Kept,
         Tail, P.IsCapacity, P.Fit, P.HeadLen, Socket.Paced, IsChunked, Lossless, LosesAt, Watch, InOneRead, Library.Lawful;
    FirstDrop(io);
    var parser := new P.HttpParser(lib, io, P.InPieces);
    ghost var s, paced := io.unread, io.Paced();
    ghost var wire := [];
    handled, lost := [], [];
    SoFarInit(lib, app, s, io.ending);
    BoundedAppend([], 0);
    WatchStart(lib, io.ending, s, paced, io.pace);
    while true
      invariant parser.lib == lib && parser.reader == io
      invariant parser.Valid() && fresh(parser) && fresh(parser.buf) && parser.len == 0
      invariant io.out == old(io.out) + wire
      invariant Bounded(lost) && |lost| == |handled|
      invariant io.broken == old(io.broken)
      invariant io.drops == old(io.drops) + lost
      invariant SoFar(lib, app, s, io.ending, lost, handled, wire, parser.Pending())
      invariant Watch(lib, io.ending, s, parser.Pending(), parser.buf.Length, lost, paced, io.Paced(), io.pace)
      invariant lost == [] ==> parser.Pending() == s && parser.buf.Length == INITIAL_BUF_SIZE && io.plan == old(io.plan)
      invariant lost != [] && old(InOneRead(io)) ==> DropsRest(lib, s, io.ending, lost[0])
      decreases |parser.Pending()|
    {
      ghost var before, plan, pacedNow, capacity := parser.Pending(), io.plan, io.Paced(), parser.buf.Length;
      MarkReached(io);
      assert |before| == |io.unread|;
      var step, k := ExchangeAndReset(parser, app);
      match step
      case End(requests, r, c) =>
        SoFarDone(lib, app, s, io.ending, lost, handled, wire, before, requests, old(io.out), io.out, r, c);
        WatchZero(lib, io.ending, s, before, capacity, lost, paced, pacedNow, io.pace);
        if c {
          WatchEnd(lib, io.ending, s, before, capacity, lost, paced, pacedNow, io.pace);
        }
        return handled + requests, r, c, lost;
      case Next(req) =>
        SoFarNext(lib, app, s, io.ending, lost, handled, wire, before, k);
        BoundedAppend(lost, k);
        Assoc(old(io.drops), lost, [k]);
        WatchTurn(lib, io.ending, s, before, capacity, lost, paced, pacedNow, io.Paced(), io.pace, plan, k);
        assert lost == [] ==> (lost + [k])[0] == k;
        lost := lost + [k];
        Assoc(old(io.out), wire, ReplyBytes(app, req));
        handled := handled + [req];
        wire := wire + ReplyBytes(app, req);
    }
  }

  lemma AfterNothing(t: Transcript)
    ensures After([], [], t) == t
  {
    assert [] + t.requests == t.requests && [] + t.wire == t.wire;
  }

  lemma SoFarInit(lib: Library, app: App, s: seq<byte>, end: Ending)
    requires lib.Lawful()
    ensures SoFar(lib, app, s, end, [], [], [], s)
  {
    hide ServeWithReset, After, Library.Lawful;
    forall more: seq<nat>
      ensures Splits(lib, app, s, end, [], [], [], s, more)
    {
      assert [] + more == more;
      AfterNothing(ServeWithReset(lib, app, s, end, more));
    }
  }

  /** The last turn of the loop, added to the turns before it. */
  lemma SoFarDone(
    lib: Library, app: App, s: seq<byte>, end: Ending, lost: seq<nat>,
    handled: seq<Request>, wire: seq<byte>, pending: seq<byte>,
    requests: seq<Request>, start: seq<byte>, out: seq<byte>, result: Result, complete: bool)
    requires lib.Lawful()
    requires SoFar(lib, app, s, end, lost, handled, wire, pending)
    requires Agrees(First(lib, app, pending, end), requests, start + wire, out, result, complete)
    requires complete ==> !Continues(lib, pending, end)
    ensures Agrees(ServeWithReset(lib, app, s, end, lost), handled + requests, start, out, result, complete)
  {
    hide ServeWithReset, First, Continues, ParseRequest, Agrees, After;
    ResetStarts(lib, app, pending, end, []);
    var t := ServeWithReset(lib, app, pending, end, []);
    AgreesWhole(First(lib, app, pending, end), t, requests, start + wire, out, result, complete);
    AgreesAfter(t, handled, wire, requests, start, out, result, complete);
    assert Splits(lib, app, s, end, lost, handled, wire, pending, []);
    assert lost + [] == lost;
  }

  // ---- Exactly when the resets cost something ----

  /** On a lossless stream no byte is dropped and the loop is the custom server's, under every fragmentation. */
  method LosesNothing(lib: Library, app: App, io: Socket)
    returns (handled: seq<Request>, result: Result, complete: bool)
    requires lib.Lawful() && Lossless(lib, INITIAL_BUF_SIZE, io.unread, io.ending)
    modifies io
    ensures old(io.drops) <= io.drops && Zero(io.drops[|old(io.drops)|..])
    ensures io.broken == (old(io.broken) || !complete) && (io.reliable ==> complete)
    ensures Agrees(Serve(lib, app, old(io.unread), io.ending), handled, old(io.out), io.out, result, complete)
  {
    hide Lossless, LosesAt, InOneRead, Agrees, Serve, ServeWithReset, Library.Lawful;
    ghost var lost;
    handled, result, complete, lost := HandleHttpConnection(lib, app, io);
    assert io.drops[|old(io.drops)|..] == lost;
    ZeroDrops(lib, app, old(io.unread), io.ending, lost);
  }

  /** Every other stream loses bytes under some fragmentation: slow reads up to a mark, then fast ones. */
  method LosesSomething(lib: Library, app: App, s: seq<byte>, end: Ending)
    returns (io: Socket, handled: seq<Request>, result: Result, ghost lost: seq<nat>)
    requires lib.Lawful() && !Lossless(lib, INITIAL_BUF_SIZE, s, end)
    ensures fresh(io) && io.stream == s && io.ending == end && io.drops == lost && !Zero(lost)
    ensures Agrees(ServeWithReset(lib, app, s, end, lost), handled, [], io.out, result, true)
  {
    hide Lossless, LossyPace, InOneRead, Zero, Agrees, ServeWithReset, Library.Lawful;
    var pace := LossyPace(lib, INITIAL_BUF_SIZE, s, end);
    io := new Socket(s, end, Ones(|s| - pace), true, pace);
    var complete;
    handled, result, complete, lost := HandleHttpConnection(lib, app, io);
  }

  /**
   * A stream that fits in the first buffer and arrives in one read: only its
   * first request is handled. That is the custom server's outcome if and only if
   * nothing follows the request.
   */
  method OneRead(lib: Library, app: App, s: seq<byte>) returns (io: Socket, handled: seq<Request>, result: Result)
    requires lib.Lawful() && Continues(lib, s, Eof) && |s| <= INITIAL_BUF_SIZE
    ensures fresh(io) && io.stream == s && io.drops == [|ParseRequest(lib, s, Eof).rest|]
    ensures handled == [ParseRequest(lib, s, Eof).request] && result == Finished
    ensures io.out == ReplyBytes(app, ParseRequest(lib, s, Eof).request)
    ensures Serve(lib, app, s, Eof) == Transcript(handled, io.out, CleanClose) <==> ParseRequest(lib, s, Eof).rest == []
  {
    hide Continues, Lossless, LosesAt, ServeWithReset, Serve, ParseRequest, ReplyBytes, Library.Lawful;
    io := new Socket(s, Eof, [], true, 0);
    var complete;
    ghost var lost;
    handled, result, complete, lost := HandleHttpConnection(lib, app, io);
    RestLost(lib, app, s, lost);
  }

  /** Two whole requests of at most 1024 bytes in one read: the second is lost. */
  method PairInOneRead(lib: Library, app: App, m1: seq<byte>, m2: seq<byte>, r1: Request, r2: Request)
    returns (io: Socket, handled: seq<Request>)
    requires lib.Lawful() && WholeRequest(lib, m1, r1) && WholeRequest(lib, m2, r2)
    requires |m1 + m2| <= INITIAL_BUF_SIZE
    ensures fresh(io) && io.stream == m1 + m2 && io.drops == [|m2|]
    ensures handled == [r1] && Serve(lib, app, m1 + m2, Eof).requests == [r1, r2]
  {
    hide Serve, ParseRequest, ReplyBytes, KeepAlive, Library.Lawful;
    PairServed(lib, app, m1, m2, r1, r2);
    ParseRequestExtend(lib, m1, m2, Eof, Eof);
    assert [] + m2 == m2;
    var result;
    io, handled, result := OneRead(lib, app, m1 + m2);
  }

  lemma PairServed(lib: Library, app: App, m1: seq<byte>, m2: seq<byte>, r1: Request, r2: Request)
    requires lib.Lawful() && WholeRequest(lib, m1, r1) && WholeRequest(lib, m2, r2)
    ensures Serve(lib, app, m1 + m2, Eof).requests == [r1, r2]
  {
    hide Serve, WholeRequest, Library.Lawful;
    var messages := [m1, m2];
    assert messages[1..] == [m2] && [m2][1..] == [];
    assert Concat([m2]) == m2 + [] == m2;
    assert Concat(messages) == m1 + m2 && Concat(messages) + [] == m1 + m2;
    PipelineAll(lib, app, messages, [r1, r2], [], Eof);
    NothingLeft(lib, app, Eof);
    assert [r1, r2] + [] == [r1, r2];
  }

  /** When the first reset drops all the rest, the first request is all there is. */
  lemma RestLost(lib: Library, app: App, s: seq<byte>, lost: seq<nat>)
    requires lib.Lawful() && Continues(lib, s, Eof) && lost != []
    requires DropsRest(lib, s, Eof, lost[0])
    ensures
      var p := ParseRequest(lib, s, Eof);
      var t := Transcript([p.request], ReplyBytes(app, p.request), CleanClose);
      ServeWithReset(lib, app, s, Eof, lost) == t &&
      (Serve(lib, app, s, Eof) == t <==> p.rest == [])
  {
    hide ParseRequest, ReplyBytes, KeepAlive, First, Library.Lawful;
    var p := ParseRequest(lib, s, Eof);
    assert Kept(lost, p.rest) == [];
    NothingLeft(lib, app, Eof);
    assert [p.request] + [] == [p.request];
    assert ReplyBytes(app, p.request) + [] == ReplyBytes(app, p.request);
    if p.rest != [] {
      SomethingLeft(lib, app, p.rest);
    }
  }

  // ---- A client that waits ----

  /**
   * A client that sends each message, in any fragments, only after the reply to
   * the one before: every message is handled and answered, in order, once.
   */
  method ServeWaitingClient(
    lib: Library, app: App, io: Socket, messages: seq<seq<byte>>, requests: seq<Request>)
    returns (handled: seq<Request>, complete: bool)
    requires lib.Lawful() && io.unread == []
    requires |messages| == |requests|
    requires forall i | 0 <= i < |messages| :: WholeRequest(lib, messages[i], requests[i])
    modifies io
    ensures io.broken == (old(io.broken) || !complete) && (io.reliable ==> complete)
    ensures old(io.drops) <= io.drops && Zero(io.drops[|old(io.drops)|..])
    ensures complete ==> handled == requests && io.out == old(io.out) + Replies(app, requests)
    ensures !complete ==> handled < requests
  {
    hide WholeRequest, Continues, ParseRequest, First, Agrees, ReplyBytes, P.IsCapacity, P.Fit, P.HeadLen, P.Leaves,
         Socket.Paced, IsChunked, Library.Lawful;
    var parser := new P.HttpParser(lib, io, P.InPieces);
    handled := [];
    ghost var lost: seq<nat> := [];
    for i := 0 to |messages|
      invariant parser.lib == lib && parser.reader == io
      invariant parser.Valid() && fresh(parser) && fresh(parser.buf) && parser.len == 0
      invariant io.unread == [] && handled == requests[..i]
      invariant io.drops == old(io.drops) + lost && Zero(lost)
      invariant io.broken == old(io.broken)
      invariant io.out == old(io.out) + Replies(app, requests[..i])
    {
      io.unread := messages[i];
      assert parser.Pending() == messages[i];
      WholeUnderAny(lib, messages[i], requests[i], io.ending);
      var step, k := ExchangeAndReset(parser, app);
      assert io.drops[|old(io.drops)|..] == lost + if step.Next? then [k] else [];
      if step.End? {
        assert io.drops[|old(io.drops)|..] == lost;
        return handled, false;
      }
      ZeroAppend(lost, k);
      lost := lost + [k];
      assert requests[..i + 1][..i] == requests[..i];
      Assoc(old(io.out), Replies(app, requests[..i]), ReplyBytes(app, requests[i]));
      assert parser.Pending() == [];
      handled := handled + [step.request];
    }
    complete := true;
    assert requests[..|messages|] == requests;
    assert io.drops[|old(io.drops)|..] == lost;
  }

  /** An exhausted stream is a clean close, with or without resets. */
  lemma NothingLeft(lib: Library, app: App, end: Ending)
    requires lib.Lawful() && end.Eof?
    ensures Serve(lib, app, [], end) == Transcript([], [], CleanClose)
    ensures forall lost :: ServeWithReset(lib, app, [], end, lost) == Transcript([], [], CleanClose)
  {
    hide ParseRequest, ReplyBytes, KeepAlive, Library.Lawful;
    EmptyCloses(lib, end);
  }

  lemma EmptyCloses(lib: Library, end: Ending)
    requires lib.Lawful() && end.Eof?
    ensures ParseRequest(lib, [], end) == Closed
  {
    assert Window([]) == [];
    assert ReadHead(lib, [], end) == NoRequest;
  }

  /** Bytes that are left always show, as another request or as another ending. */
  lemma SomethingLeft(lib: Library, app: App, s: seq<byte>)
    requires lib.Lawful() && s != []
    ensures Serve(lib, app, s, Eof).requests != [] || !Serve(lib, app, s, Eof).stop.CleanClose?
  {
    hide ParseRequest, ReplyBytes, KeepAlive, Library.Lawful;
    if ParseRequest(lib, s, Eof).Closed? {
      ClosedIsEmpty(lib, s, Eof);
    }
  }
}
