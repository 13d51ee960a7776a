/**
 * The keep-alive connection loop: what it handles, what it writes and how it
 * ends, as a function of the byte stream alone.
 */
module HttpServer {
  import opened Bytes
  import opened HttpSpec
  import opened Wire
  import P = HttpParser
  import R = HttpResponse

  /** The application: its handler, and the texts the libraries supply. */
  datatype App = App(
    handler: Request -> R.Response,
    text: R.Text,
    errorText: ParseError -> seq<byte>)

  datatype Stop = CleanClose | Truncated | LastRequest | Rejected(error: ParseError)

  datatype Transcript = Transcript(requests: seq<Request>, wire: seq<byte>, stop: Stop)

  predicate KeepAlive(req: Request) {
    ShouldKeepAlive(req.head.headers, req.head.version)
  }

  /** `HeaderMap::insert`: the first occurrence takes the value, later ones go, or it is appended. */
  function SetHeader(hs: seq<R.Field>, name: seq<byte>, value: seq<byte>): (r: seq<R.Field>)
    ensures (name, value) in r
    ensures forall f | f in r :: f.0 == name ==> f.1 == value
    ensures WithoutHeader(r, name) == WithoutHeader(hs, name)
  {
    if hs == [] then [(name, value)]
    else if hs[0].0 == name then [(name, value)] + WithoutHeader(hs[1..], name)
    else [hs[0]] + SetHeader(hs[1..], name, value)
  }

  function WithoutHeader(hs: seq<R.Field>, name: seq<byte>): (r: seq<R.Field>)
    ensures forall f | f in r :: f.0 != name
    ensures (forall f | f in hs :: f.0 != name) ==> r == hs
  {
    if hs == [] then []
    else if hs[0].0 == name then WithoutHeader(hs[1..], name)
    else [hs[0]] + WithoutHeader(hs[1..], name)
  }

  function Reply(app: App, req: Request): R.Response {
    var r := app.handler(req);
    if KeepAlive(req) then r
    else r.(headers := SetHeader(r.headers, Connection(), Ascii("close")))
  }

  function BadRequest(app: App, e: ParseError): R.Response {
    R.Response(R.Http11, 400, [(Connection(), Ascii("close"))], app.errorText(e))
  }

  function ReplyBytes(app: App, req: Request): seq<byte> {
    R.Serialize(app.text, Reply(app, req))
  }

  /** A request was read and the connection stays open. */
  predicate Continues(lib: Library, s: seq<byte>, end: Ending)
    requires lib.Lawful()
  {
    var p := ParseRequest(lib, s, end);
    p.Got? && KeepAlive(p.request)
  }

  /** The first turn of the connection alone. */
  function First(lib: Library, app: App, s: seq<byte>, end: Ending): Transcript
    requires lib.Lawful()
  {
    match ParseRequest(lib, s, end)
    case Closed => Transcript([], [], CleanClose)
    case Refused(e) =>
      if e == ConnectionClosed then Transcript([], [], Truncated)
      else Transcript([], R.Serialize(app.text, BadRequest(app, e)), Rejected(e))
    case Got(req, _) => Transcript([req], ReplyBytes(app, req), LastRequest)
  }

  /** The whole connection, request by request, on the unfragmented stream. */
  function Serve(lib: Library, app: App, s: seq<byte>, end: Ending): Transcript
    requires lib.Lawful()
    decreases |s|
  {
    if Continues(lib, s, end) then
      var p := ParseRequest(lib, s, end);
      Then(p.request, ReplyBytes(app, p.request), Serve(lib, app, p.rest, end))
    else First(lib, app, s, end)
  }

  function Then(req: Request, reply: seq<byte>, t: Transcript): Transcript {
    Transcript([req] + t.requests, reply + t.wire, t.stop)
  }

  /** `t` after requests and replies that came before it. */
  function After(requests: seq<Request>, wire: seq<byte>, t: Transcript): Transcript {
    Transcript(requests + t.requests, wire + t.wire, t.stop)
  }

  lemma AfterThen(requests: seq<Request>, wire: seq<byte>, req: Request, reply: seq<byte>, t: Transcript)
    ensures After(requests, wire, Then(req, reply, t)) == After(requests + [req], wire + reply, t)
  {
    Assoc(requests, [req], t.requests);
    Assoc(wire, reply, t.wire);
  }

  datatype Result = Finished | Failed(error: ParseError)

  function ResultOf(stop: Stop): Result {
    if stop.Rejected? then Failed(stop.error) else Finished
  }

  datatype Step =
    | Next(request: Request)
    | End(requests: seq<Request>, result: Result, complete: bool)

  /** The requests, replies and result of a run are `t`, or a prefix of it when a write failed. */
  predicate Agrees(
    t: Transcript, requests: seq<Request>, start: seq<byte>, out: seq<byte>, result: Result, complete: bool)
  {
    if complete then
      requests == t.requests && out == start + t.wire && result == ResultOf(t.stop)
    else
      requests <= t.requests && start <= out <= start + t.wire && result.Failed?
  }

  /** One turn of the loop: read a request, call the handler, write the reply. */
  method Exchange(parser: P.HttpParser, app: App) returns (step: Step)
    requires parser.Valid()
    modifies parser, parser.buf, parser.reader
    ensures parser.Valid() && (parser.buf == old(parser.buf) || fresh(parser.buf))
    ensures
      var io := parser.reader;
      var s := old(parser.Pending());
      match step
      case Next(req) =>
        && Continues(parser.lib, s, io.ending)
        && ParseRequest(parser.lib, s, io.ending) == Got(req, parser.Pending())
        && io.out == old(io.out) + ReplyBytes(app, req)
      case End(requests, result, complete) =>
        && Agrees(First(parser.lib, app, s, io.ending), requests, old(io.out), io.out, result, complete)
        && (complete ==> !Continues(parser.lib, s, io.ending))
        && (io.reliable ==> complete)
    ensures old(parser.reader.Paced()) ==> parser.reader.Paced()
    ensures parser.reader.drops == old(parser.reader.drops)
    ensures parser.reader.broken == (old(parser.reader.broken) || (step.End? && !step.complete))
    ensures step.Next? ==>
      && parser.buf.Length == P.Fit(old(parser.buf.Length), P.HeadLen(parser.lib, old(parser.Pending())))
      && P.Leaves(IsChunked(step.request.head.headers), old(parser.buf.Length), |old(parser.Pending())|,
                  old(parser.len), old(parser.reader.plan), old(parser.reader.Paced()), parser.reader.pace,
                  parser.buf.Length, |parser.Pending()|, parser.len)
  {
    hide R.Serialize, KeepAlive, Reply, BadRequest, P.IsCapacity, P.Leaves, P.Fit, Socket.Paced, ParseRequest, Library.Lawful;
    var parsed := parser.ParseOneRequest();
    match parsed
    case Error(e) =>
      if e == ConnectionClosed {
        return End([], Finished, true);
      }
      var bytes := R.SerializeResponse(app.text, BadRequest(app, e));
      var ok := Put(parser.reader, bytes);
      return End([], Failed(e), ok);
    case Value(None) => return End([], Finished, true);
    case Value(Some(req)) =>
      var bytes := R.SerializeResponse(app.text, Reply(app, req));
      var ok := Put(parser.reader, bytes);
      if !ok {
        return End([req], Failed(Io), false);
      }
      return if KeepAlive(req) then Next(req) else End([req], Finished, true);
  }

  /** Write one reply; a failed write leaves a prefix of it. */
  method Put(io: Socket, bytes: seq<byte>) returns (ok: bool)
    modifies io`out, io`broken
    ensures ok ==> io.out == old(io.out) + bytes
    ensures !ok ==> old(io.out) <= io.out <= old(io.out) + bytes
    ensures io.broken == (old(io.broken) || !ok) && (io.reliable ==> ok)
  {
    ok := io.WriteAll(bytes);
  }

  /**
   * Serve one connection. Under every fragmentation of the input, if no write
   * fails then the requests handled, the bytes written and the result are those
   * of `Serve` on the whole stream; if a write fails, a prefix of them.
   */
  method HandleConnection(lib: Library, app: App, io: Socket)
    returns (handled: seq<Request>, result: Result, complete: bool)
    requires lib.Lawful()
    modifies io
    ensures io.drops == old(io.drops)
    ensures io.broken == (old(io.broken) || !complete) && (io.reliable ==> complete)
    ensures Agrees(Serve(lib, app, old(io.unread), io.ending), handled, old(io.out), io.out, result, complete)
  {
    hide Serve, First, Continues, ParseRequest, Agrees, ReplyBytes, P.IsCapacity, Library.Lawful;
    var parser := new P.HttpParser(lib, io, P.Exactly);
    ghost var whole := Serve(lib, app, io.unread, io.ending);
    ghost var wire := [];
    handled := [];
    assert whole == After(handled, wire, whole);
    while true
      invariant parser.lib == lib && parser.reader == io
      invariant parser.Valid() && fresh(parser) && fresh(parser.buf)
      invariant io.drops == old(io.drops) && io.broken == old(io.broken)
      invariant io.out == old(io.out) + wire
      invariant whole == After(handled, wire, Serve(lib, app, parser.Pending(), io.ending))
      decreases |parser.Pending()|
    {
      ghost var s := parser.Pending();
      ghost var t := Serve(lib, app, s, io.ending);
      var step := Exchange(parser, app);
      match step
      case End(requests, r, c) =>
        ServeStarts(lib, app, s, io.ending);
        AgreesWhole(First(lib, app, s, io.ending), t, requests, old(io.out) + wire, io.out, r, c);
        AgreesAfter(t, handled, wire, requests, old(io.out), io.out, r, c);
        return handled + requests, r, c;
      case Next(req) =>
        ServeStarts(lib, app, s, io.ending);
        AfterThen(handled, wire, req, ReplyBytes(app, req), Serve(lib, app, parser.Pending(), io.ending));
        Assoc(old(io.out), wire, ReplyBytes(app, req));
        handled := handled + [req];
        wire := wire + ReplyBytes(app, req);
    }
  }

  lemma ServeStarts(lib: Library, app: App, s: seq<byte>, end: Ending)
    requires lib.Lawful()
    ensures
      var p := ParseRequest(lib, s, end);
      var t := Serve(lib, app, s, end);
      var f := First(lib, app, s, end);
      if Continues(lib, s, end) then
        p.Got? && |p.rest| < |s| && f.requests <= t.requests && f.wire <= t.wire &&
        t == Then(p.request, ReplyBytes(app, p.request), Serve(lib, app, p.rest, end))
      else t == f
  {
    hide ParseRequest, ReplyBytes, KeepAlive, Library.Lawful;
  }

  /** A turn cut short by a failed write did a prefix of the whole, as well as of itself. */
  lemma AgreesWhole(
    first: Transcript, t: Transcript, requests: seq<Request>,
    start: seq<byte>, out: seq<byte>, result: Result, complete: bool)
    requires Agrees(first, requests, start, out, result, complete)
    requires first == t || (!complete && first.requests <= t.requests && first.wire <= t.wire)
    ensures Agrees(t, requests, start, out, result, complete)
  {
    if !complete {
      assert start + first.wire <= start + t.wire;
    }
  }

  /** What the last turn did, added to what the earlier turns did. */
  lemma AgreesAfter(
    t: Transcript, before: seq<Request>, wire: seq<byte>, requests: seq<Request>,
    start: seq<byte>, out: seq<byte>, result: Result, complete: bool)
    requires Agrees(t, requests, start + wire, out, result, complete)
    ensures Agrees(After(before, wire, t), before + requests, start, out, result, complete)
  {
    Assoc(start, wire, t.wire);
    if !complete {
      assert before + requests <= before + t.requests;
      assert start <= start + wire;
    }
  }

  // ---- Pipelining (section 9.3.2 of RFC 9112) ----

  /** Requests that arrive together are served as if they had arrived on their own. */
  lemma {:induction false} PipelineConcat(lib: Library, app: App, s: seq<byte>, t: seq<byte>, end: Ending)
    requires lib.Lawful()
    requires Serve(lib, app, s, Eof).stop.CleanClose?
    ensures
      var first := Serve(lib, app, s, Eof);
      Serve(lib, app, s + t, end) == After(first.requests, first.wire, Serve(lib, app, t, end))
    decreases |s|
  {
    hide ReplyBytes, ParseRequest, KeepAlive, Library.Lawful;
    match ParseRequest(lib, s, Eof)
    case Refused(_) =>
    case Closed =>
      ClosedIsEmpty(lib, s, Eof);
      assert s + t == t;
    case Got(req, rest) =>
      ParseRequestExtend(lib, s, t, Eof, end);
      PipelineConcat(lib, app, rest, t, end);
      var first := Serve(lib, app, rest, Eof);
      var last := Serve(lib, app, t, end);
      Assoc([req], first.requests, last.requests);
      Assoc(ReplyBytes(app, req), first.wire, last.wire);
  }

  /** Only an exhausted stream reads as a clean close. */
  lemma ClosedIsEmpty(lib: Library, s: seq<byte>, end: Ending)
    requires lib.Lawful() && ParseRequest(lib, s, end).Closed?
    ensures s == [] && end.Eof?
  {
    hide ReadBody, Convert, Library.Lawful;
    HeadFits(lib, s, end);
  }

  /** A message that is one whole request and asks for the connection to stay. */
  predicate WholeRequest(lib: Library, m: seq<byte>, req: Request)
    requires lib.Lawful()
  {
    ParseRequest(lib, m, Eof) == Got(req, []) && KeepAlive(req)
  }

  /** Any number of pipelined messages yields exactly their requests, in order, then the rest of the stream's. */
  lemma {:induction false} PipelineAll(
    lib: Library, app: App, messages: seq<seq<byte>>, requests: seq<Request>, tail: seq<byte>, end: Ending)
    requires lib.Lawful()
    requires |messages| == |requests|
    requires forall i | 0 <= i < |messages| :: WholeRequest(lib, messages[i], requests[i])
    ensures Serve(lib, app, Concat(messages) + tail, end).requests
         == requests + Serve(lib, app, tail, end).requests
    ensures Serve(lib, app, Concat(messages) + tail, end).stop == Serve(lib, app, tail, end).stop
    decreases |messages|
  {
    hide ReplyBytes, ParseRequest, KeepAlive, Serve, First, Library.Lawful;
    if messages == [] {
      assert Concat(messages) + tail == tail;
      assert requests + Serve(lib, app, tail, end).requests == Serve(lib, app, tail, end).requests;
    } else {
      var rest := Concat(messages[1..]) + tail;
      Assoc(messages[0], Concat(messages[1..]), tail);
      assert WholeRequest(lib, messages[0], requests[0]);
      ParseRequestExtend(lib, messages[0], rest, Eof, end);
      assert [] + rest == rest;
      ServeStarts(lib, app, messages[0] + rest, end);
      PipelineAll(lib, app, messages[1..], requests[1..], tail, end);
      assert requests == [requests[0]] + requests[1..];
      Assoc([requests[0]], requests[1..], Serve(lib, app, tail, end).requests);
    }
  }

  // ---- A client that waits ----

  function Replies(app: App, requests: seq<Request>): seq<byte> {
    if requests == [] then []
    else Replies(app, requests[..|requests| - 1]) + ReplyBytes(app, requests[|requests| - 1])
  }

  /**
   * A client that sends each message, in any fragments, only after the reply to
   * the one before: every message is answered at once, in order, without a byte
   * of a later one.
   */
  method ServeWaitingClient(
    lib: Library, app: App, io: Socket, messages: seq<seq<byte>>, requests: seq<Request>)
    returns (handled: seq<Request>, complete: bool)
    requires lib.Lawful() && io.unread == []
    requires |messages| == |requests|
    requires forall i | 0 <= i < |messages| :: WholeRequest(lib, messages[i], requests[i])
    modifies io
    ensures io.broken == (old(io.broken) || !complete) && (io.reliable ==> complete)
    ensures io.drops == old(io.drops)
    ensures complete ==> handled == requests && io.out == old(io.out) + Replies(app, requests)
    ensures !complete ==> handled < requests
  {
    hide WholeRequest, Continues, ParseRequest, First, Agrees, ReplyBytes, P.IsCapacity, P.Fit, P.HeadLen, P.Leaves,
         Socket.Paced, IsChunked, Library.Lawful;
    var parser := new P.HttpParser(lib, io, P.Exactly);
    handled := [];
    for i := 0 to |messages|
      invariant parser.lib == lib && parser.reader == io
      invariant parser.Valid() && fresh(parser) && fresh(parser.buf) && parser.len == 0
      invariant io.unread == [] && handled == requests[..i]
      invariant io.drops == old(io.drops) && io.broken == old(io.broken)
      invariant io.out == old(io.out) + Replies(app, requests[..i])
    {
      io.unread := messages[i];
      assert parser.Pending() == messages[i];
      WholeUnderAny(lib, messages[i], requests[i], io.ending);
      var step := Exchange(parser, app);
      if step.End? {
        return handled, false;
      }
      assert requests[..i + 1][..i] == requests[..i];
      Assoc(old(io.out), Replies(app, requests[..i]), ReplyBytes(app, requests[i]));
      assert parser.Pending() == [];
      handled := handled + [step.request];
    }
    complete := true;
    assert requests[..|messages|] == requests;
  }

  /** A whole request is read the same however the stream would go on. */
  lemma WholeUnderAny(lib: Library, m: seq<byte>, req: Request, end: Ending)
    requires lib.Lawful() && WholeRequest(lib, m, req)
    ensures ParseRequest(lib, m, end) == Got(req, []) && Continues(lib, m, end)
  {
    hide ParseRequest, KeepAlive, Library.Lawful;
    ParseRequestExtend(lib, m, [], Eof, end);
    assert m + [] == m;
  }

  // ---- The header bound ----

  /**
   * A request is refused as too large exactly when the first 65536 unconsumed
   * bytes hold no complete header; bodies of any size never cause it.
   */
  lemma TooLargeExactly(lib: Library, s: seq<byte>, end: Ending)
    requires lib.Lawful()
    ensures ParseRequest(lib, s, end) == Refused(HeadersTooLarge)
       <==> |s| >= MAX_BUF_SIZE && lib.parse(s[..MAX_BUF_SIZE]).Partial?
  {
    hide ReadBody, Convert, Library.Lawful;
    HeadFits(lib, s, end);
    var hr := ReadHead(lib, s, end);
    ConvertNeverTooLarge(lib, s);
    if hr.GotHead? {
      BodyNeverTooLarge(hr.head.headers, s[hr.len..], end);
    }
  }

  lemma ConvertNeverTooLarge(lib: Library, s: seq<byte>)
    ensures
      var status := lib.parse(Window(s));
      status.Complete? ==> Convert(lib, status.head) != Bad(HeadersTooLarge)
  {
  }

  lemma BodyNeverTooLarge(h: Headers, s: seq<byte>, end: Ending)
    ensures ReadBody(h, s, end) != Fail(HeadersTooLarge)
  {
    ChunkedNeverTooLarge(s, end, []);
  }

  lemma {:induction false} ChunkedNeverTooLarge(s: seq<byte>, end: Ending, body: seq<byte>)
    ensures ReadChunked(s, end, body) != Fail(HeadersTooLarge)
    decreases |s|
  {
    var c := ReadChunk(s, end);
    if c.Done? && c.value != [] {
      ChunkedNeverTooLarge(c.rest, end, body + c.value);
    }
  }
}
