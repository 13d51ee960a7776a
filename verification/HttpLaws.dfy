/**
 * What the HTTP functions mean to a peer: which messages are read as what, when
 * a connection stays open, and what a printed response says, with the field
 * names and values written out.
 */
module HttpLaws {
  import opened Bytes
  import opened HttpSpec
  import opened HttpServer
  import R = HttpResponse

  // ---- Header fields ----

  /** Names are compared in lower case, and of several fields of one name the last wins. */
  lemma {:induction false} LastFieldWins(hs: seq<(seq<byte>, seq<byte>)>, k: nat)
    requires k < |hs|
    requires forall j | k < j < |hs| :: Lower(hs[j].0) != Lower(hs[k].0)
    ensures Lower(hs[k].0) in HeaderMap(hs) && HeaderMap(hs)[Lower(hs[k].0)] == hs[k].1
  {
    var n := |hs| - 1;
    if k < n {
      LastFieldWins(hs[..n], k);
    }
  }

  /** There are no other names than those of the fields. */
  lemma {:induction false} OnlyFieldNames(hs: seq<(seq<byte>, seq<byte>)>, name: seq<byte>)
    ensures name in HeaderMap(hs) <==> exists k | 0 <= k < |hs| :: Lower(hs[k].0) == name
  {
    if hs != [] {
      var n := |hs| - 1;
      OnlyFieldNames(hs[..n], name);
      assert forall k | 0 <= k < n :: hs[..n][k] == hs[k];
      if Lower(hs[n].0) != name && exists k | 0 <= k < |hs| :: Lower(hs[k].0) == name {
        var k :| 0 <= k < |hs| && Lower(hs[k].0) == name;
        assert hs[..n][k] == hs[k];
      }
    }
  }

  predicate FieldsValid(lib: Library, raw: RawHead) {
    forall i | 0 <= i < |raw.headers| :: lib.validName(raw.headers[i].0) && lib.validValue(raw.headers[i].1)
  }

  /** A head is accepted exactly when its method, version and fields are valid, and it is the head that was sent. */
  lemma ConvertExactly(lib: Library, raw: RawHead)
    ensures Convert(lib, raw).Good? <==>
      lib.validMethod(raw.verb) && raw.version in {0, 1} && FieldsValid(lib, raw)
    ensures
      match Convert(lib, raw)
      case Good(h) => h.verb == raw.verb && h.uri == raw.path && h.version == raw.version && h.headers == HeaderMap(raw.headers)
      case Bad(e) =>
        if !lib.validMethod(raw.verb) then e == InvalidMethod
        else if raw.version !in {0, 1} then e == InvalidVersion
        else e == InvalidHeader
  {
    if raw.version in {0, 1} && !FieldsValid(lib, raw) {
      var i :| 0 <= i < |raw.headers| && !(lib.validName(raw.headers[i].0) && lib.validValue(raw.headers[i].1));
      assert !lib.validName(raw.headers[i].0) || !lib.validValue(raw.headers[i].1);
    }
  }

  // ---- Bodies ----

  lemma DigitsAreText(n: nat)
    ensures IsText(Numeral(n, 10)) && (n < USIZE_LIMIT ==> ParseUsize(Numeral(n, 10), 10) == Some(n))
  {
    NumeralRoundTrip(n, 10);
    var digits := Numeral(n, 10);
    assert DigitValue(digits[0], 10).Some?;
  }

  /** A length that does not fit in 64 bits is no length. */
  lemma TooLong(n: nat)
    requires n >= 0x1_0000_0000_0000_0000
    ensures ParseUsize(Numeral(n, 10), 10) == None
  {
    NumeralRoundTrip(n, 10);
    assert DigitValue(Numeral(n, 10)[0], 10).Some?;
  }

  lemma HexDigit(b: byte)
    ensures DigitValue(b, 16) == DigitValue(ToLower(b), 16)
    ensures DigitValue(b, 16).Some? ==> b !in {9, 10, 11, 12, 13, 32, SEMICOLON, PLUS}
  {
  }

  lemma {:induction false} NumeralAnyCase(s: seq<byte>, n: nat)
    requires IsNumeral(Lower(s), 16) && NumeralValue(Lower(s), 16) == n
    ensures IsNumeral(s, 16) && NumeralValue(s, 16) == n
    decreases |s|
  {
    forall i | 0 <= i < |s| ensures DigitValue(s[i], 16) == DigitValue(Lower(s)[i], 16) {
      HexDigit(s[i]);
    }
    var k := |s| - 1;
    assert Lower(s)[..k] == Lower(s[..k]);
    if k > 0 {
      NumeralAnyCase(s[..k], NumeralValue(Lower(s[..k]), 16));
    }
  }

  predicate Blanks(s: seq<byte>) {
    forall i | 0 <= i < |s| :: s[i] in {9, 10, 11, 12, 13, 32}
  }

  /** Blanks around a chunk size, the case of its digits and an extension after it do not matter. */
  lemma SizeSpelled(left: seq<byte>, size: seq<byte>, right: seq<byte>, ext: seq<byte>, n: nat)
    requires Blanks(left) && Blanks(right) && (ext == [] || ext[0] == SEMICOLON)
    requires Lower(size) == Numeral(n, 16) && n < USIZE_LIMIT
    ensures ChunkSize(left + (size + right) + ext) == Some(n)
  {
    hide NumeralValue, DigitValue, Numeral, Lower, Trim;
    NumeralRoundTrip(n, 16);
    NumeralAnyCase(size, n);
    forall i | 0 <= i < |size| ensures size[i] !in {9, 10, 11, 12, 13, 32, SEMICOLON, PLUS} {
      HexDigit(size[i]);
    }
    BeforeExtension(left + (size + right), ext);
    TrimBlanks(left, size, right);
  }

  lemma BeforeExtension(size: seq<byte>, ext: seq<byte>)
    requires SEMICOLON !in size && (ext == [] || ext[0] == SEMICOLON)
    ensures (size + ext)[..IndexOf(size + ext, SEMICOLON)] == size
  {
    if ext == [] {
      IndexOfAbsent(size + ext, SEMICOLON);
    } else {
      IndexOfIsFirst(size + ext, SEMICOLON, |size|);
    }
  }

  lemma TrimBlanks(left: seq<byte>, s: seq<byte>, right: seq<byte>)
    requires Blanks(left) && Blanks(right)
    requires s != [] && forall i | 0 <= i < |s| :: s[i] !in {9, 10, 11, 12, 13, 32}
    ensures Trim(left + (s + right)) == s
  {
    TrimLeft(left, s + right);
    TrimRight(s, right);
  }

  lemma {:induction false} TrimLeft(left: seq<byte>, s: seq<byte>)
    requires Blanks(left) && s != [] && s[0] !in {9, 10, 11, 12, 13, 32}
    ensures TrimStart(left + s) == s
  {
    if left == [] {
      assert left + s == s;
    } else {
      TrimLeft(left[1..], s);
      assert (left + s)[1..] == left[1..] + s;
    }
  }

  lemma {:induction false} TrimRight(s: seq<byte>, right: seq<byte>)
    requires Blanks(right) && s != [] && s[|s| - 1] !in {9, 10, 11, 12, 13, 32}
    ensures TrimEnd(s + right) == s
  {
    if right == [] {
      assert s + right == s;
    } else {
      var k := |right| - 1;
      TrimRight(s, right[..k]);
      assert (s + right)[..|s + right| - 1] == s + right[..k];
    }
  }

  /** A body of announced length is read back exactly, whatever follows it. */
  lemma FixedRoundTrip(h: Headers, body: seq<byte>, suffix: seq<byte>, end: Ending)
    requires !IsChunked(h) && |body| < USIZE_LIMIT
    requires Ascii("content-length") in h && h[Ascii("content-length")] == Numeral(|body|, 10)
    ensures ReadBody(h, body + suffix, end) == Done(body, suffix)
  {
    DigitsAreText(|body|);
    SplitAppend(body, suffix, |body|);
    assert (body + suffix)[..|body|] == body && (body + suffix)[|body|..] == [] + suffix == suffix;
  }

  /** A body cut short is a closed or broken connection. */
  lemma FixedTruncated(h: Headers, n: nat, s: seq<byte>, end: Ending)
    requires !IsChunked(h) && |s| < n < USIZE_LIMIT
    requires Ascii("content-length") in h && h[Ascii("content-length")] == Numeral(n, 10)
    ensures ReadBody(h, s, end) == Fail(if end.Eof? then ConnectionClosed else Io)
  {
    DigitsAreText(n);
  }

  /** The coding is chunked when its name occurs in the field, in any case and among others. */
  lemma ChunkedNamed(h: Headers, before: seq<byte>, name: seq<byte>, after: seq<byte>)
    requires Ascii("transfer-encoding") in h && h[Ascii("transfer-encoding")] == before + name + after
    requires Lower(name) == Ascii("chunked") && IsText(before) && IsText(after)
    ensures IsChunked(h)
  {
    var v := before + name + after;
    var low := Lower(v);
    forall i | 0 <= i < |name| ensures 32 <= name[i] < 127 {
      assert Lower(name)[i] == ToLower(name[i]) == Ascii("chunked")[i];
    }
    assert low[|before|..|before| + 7] == Ascii("chunked") by {
      forall i | 0 <= i < 7 ensures low[|before| + i] == Ascii("chunked")[i] {
        assert v[|before| + i] == name[i] && Lower(name)[i] == ToLower(name[i]);
      }
    }
    assert OccursAt(low, Ascii("chunked"), |before|);
  }

  /** And only then. */
  lemma ChunkedOnlyNamed(h: Headers) returns (before: seq<byte>, name: seq<byte>, after: seq<byte>)
    requires IsChunked(h)
    ensures Ascii("transfer-encoding") in h && h[Ascii("transfer-encoding")] == before + name + after
    ensures Lower(name) == Ascii("chunked") && IsText(before) && IsText(after)
  {
    var v := h[Ascii("transfer-encoding")];
    var i :| OccursAt(Lower(v), Ascii("chunked"), i);
    assert |Ascii("chunked")| == 7;
    before, name, after := v[..i], v[i..i + 7], v[i + 7..];
    assert v == before + name + after;
    assert Lower(name) == Lower(v)[i..i + 7];
    assert IsText(before) && IsText(after);
  }

  /** A chunked body is decoded as such even beside a Content-Length. */
  lemma ChunkedFirst(h: Headers, chunks: seq<Chunk>, last: Chunk, suffix: seq<byte>, end: Ending)
    requires IsChunked(h)
    requires forall c | c in chunks :: WellFormed(c) && c.data != []
    requires WellFormed(last) && last.data == []
    ensures ReadBody(h, Encode(chunks, last) + suffix, end) == Done(Payload(chunks), suffix)
  {
    ChunkedRoundTrip(chunks, last, suffix, end);
  }

  /** A field with a byte that is neither visible ASCII nor a tab is as good as absent, and for Connection it closes. */
  lemma UnreadableFields(h: Headers, version: nat, v: seq<byte>, i: nat)
    requires i < |v| && (v[i] < 9 || 9 < v[i] < 32 || v[i] > 126)
    ensures Ascii("transfer-encoding") in h && h[Ascii("transfer-encoding")] == v ==> !IsChunked(h)
    ensures Ascii("content-length") in h && h[Ascii("content-length")] == v ==> GetContentLength(h) == None
    ensures Ascii("connection") in h && h[Ascii("connection")] == v ==> !ShouldKeepAlive(h, version)
  {
    assert !IsText(v);
  }

  /** Every byte of a readable value is visible ASCII, a space or a tab, and any such value is readable. */
  lemma ReadableExactly(v: seq<byte>)
    ensures IsText(v) <==> forall b | b in v :: b == 9 || 32 <= b <= 126
  {
    if forall b | b in v :: b == 9 || 32 <= b <= 126 {
      forall i | 0 <= i < |v| ensures 32 <= v[i] < 127 || v[i] == 9 {
        assert v[i] in v;
      }
    }
  }

  /** A chunked body that cannot be read leaves nothing, unless a size line is malformed: then what follows that line. */
  lemma {:induction false} ChunkedFailLeaves(s: seq<byte>, end: Ending, body: seq<byte>)
    requires ReadChunked(s, end, body).Fail?
    ensures IsSuffix(ChunkedFailRest(s, end), s)
    ensures ReadChunked(s, end, body).error != InvalidContentLength ==> ChunkedFailRest(s, end) == []
    ensures ReadChunked(s, end, body).error == InvalidContentLength ==>
      exists line :: MalformedLine(s, line, ChunkedFailRest(s, end))
    decreases |s|
  {
    hide ChunkSize, ReadExact;
    var c := ReadChunk(s, end);
    if c.Done? {
      ReadChunkRest(s, end);
      ChunkedFailLeaves(c.rest, end, body + c.value);
      SuffixTrans(ChunkedFailRest(s, end), c.rest, s);
      if ReadChunked(s, end, body).error == InvalidContentLength {
        var line :| MalformedLine(c.rest, line, ChunkedFailRest(c.rest, end));
        SuffixTrans(line + ([LF] + ChunkedFailRest(s, end)), c.rest, s);
        assert MalformedLine(s, line, ChunkedFailRest(s, end));
      }
    } else {
      FailsHere(s, end);
    }
  }

  /** The stream ends with a line that is no chunk size, and `rest` after it. */
  ghost predicate MalformedLine(s: seq<byte>, line: seq<byte>, rest: seq<byte>) {
    LF !in line && ChunkSize(ChopCr(line)).None? && IsSuffix(line + ([LF] + rest), s)
  }

  lemma FailsHere(s: seq<byte>, end: Ending)
    requires ReadChunk(s, end).Fail?
    ensures IsSuffix(ChunkFailRest(s, end), s)
    ensures ReadChunk(s, end).error != InvalidContentLength ==> ChunkFailRest(s, end) == []
    ensures ReadChunk(s, end).error == InvalidContentLength ==>
      exists line :: MalformedLine(s, line, ChunkFailRest(s, end))
  {
    hide ChunkSize;
    var k := IndexOf(s, LF);
    if k < |s| && ChunkSize(ChopCr(s[..k])).None? {
      assert s == s[..k] + ([LF] + s[k + 1..]);
      assert MalformedLine(s, s[..k], s[k + 1..]);
    }
  }

  /** Without either field, or with a length that is no number, there is no body. */
  lemma NoBody(h: Headers, s: seq<byte>, end: Ending)
    requires !IsChunked(h)
    requires Ascii("content-length") in h ==> ParseUsize(h[Ascii("content-length")], 10).None?
    ensures ReadBody(h, s, end) == Done([], s)
  {
  }

  // ---- Whole requests ----

  /** The header parser takes exactly `head` for a header, with these fields. */
  ghost predicate IsHead(lib: Library, head: seq<byte>, h: Head) {
    && |head| <= MAX_BUF_SIZE
    && lib.parse(head).Complete? && lib.parse(head).len == |head|
    && Convert(lib, lib.parse(head).head) == Good(h)
  }

  lemma HeadRead(lib: Library, head: seq<byte>, h: Head, rest: seq<byte>, end: Ending)
    requires lib.Lawful() && IsHead(lib, head, h)
    ensures ReadHead(lib, head + rest, end) == GotHead(h, |head|)
  {
    assert head <= Window(head + rest);
  }

  /**
   * A request is read back from its header and body, and what follows it is left:
   * `ReadBody` of the bytes after the header decides the body.
   */
  lemma RequestReadBack(
    lib: Library, head: seq<byte>, h: Head, encoded: seq<byte>, body: seq<byte>, suffix: seq<byte>, end: Ending)
    requires lib.Lawful() && IsHead(lib, head, h)
    requires ReadBody(h.headers, encoded + suffix, end) == Done(body, suffix)
    ensures ParseRequest(lib, head + (encoded + suffix), end) ==
      if lib.validUri(h.uri) then Got(Request(h, body), suffix) else Refused(InvalidUri)
  {
    hide ReadHead, ReadBody, Library.Lawful;
    var rest := encoded + suffix;
    HeadRead(lib, head, h, rest, end);
    assert (head + rest)[|head|..] == rest;
  }

  /** A header with a decimal length, the body and anything after: the request, and exactly what follows. */
  lemma FixedRequest(
    lib: Library, head: seq<byte>, h: Head, body: seq<byte>, suffix: seq<byte>, end: Ending)
    requires lib.Lawful() && IsHead(lib, head, h) && lib.validUri(h.uri)
    requires !IsChunked(h.headers) && |body| < USIZE_LIMIT
    requires Ascii("content-length") in h.headers && h.headers[Ascii("content-length")] == Numeral(|body|, 10)
    ensures ParseRequest(lib, head + (body + suffix), end) == Got(Request(h, body), suffix)
  {
    FixedRoundTrip(h.headers, body, suffix, end);
    RequestReadBack(lib, head, h, body, body, suffix, end);
  }

  lemma ChunkedRequest(
    lib: Library, head: seq<byte>, h: Head, chunks: seq<Chunk>, last: Chunk, suffix: seq<byte>, end: Ending)
    requires lib.Lawful() && IsHead(lib, head, h) && lib.validUri(h.uri) && IsChunked(h.headers)
    requires forall c | c in chunks :: WellFormed(c) && c.data != []
    requires WellFormed(last) && last.data == []
    ensures ParseRequest(lib, head + (Encode(chunks, last) + suffix), end)
      == Got(Request(h, Payload(chunks)), suffix)
  {
    ChunkedFirst(h.headers, chunks, last, suffix, end);
    RequestReadBack(lib, head, h, Encode(chunks, last), Payload(chunks), suffix, end);
  }

  // ---- Staying open ----

  /** The peer asks for the connection to stay: by the version, or by the field, which has the last word. */
  predicate AsksToStay(req: Request) {
    var h := req.head.headers;
    || (Ascii("connection") !in h && req.head.version == 1)
    || (Ascii("connection") in h && Lower(h[Ascii("connection")]) == Ascii("keep-alive"))
  }

  lemma KeepAliveExactly(req: Request)
    ensures KeepAlive(req) <==> AsksToStay(req)
  {
    var h := req.head.headers;
    if Ascii("connection") in h && Lower(h[Ascii("connection")]) == Ascii("keep-alive") {
      var v := h[Ascii("connection")];
      forall i | 0 <= i < |v| ensures 32 <= v[i] < 127 {
        assert Lower(v)[i] == ToLower(v[i]) == Ascii("keep-alive")[i];
      }
    }
  }

  lemma SpelledKeepAlive()
    ensures Lower(Ascii("Keep-Alive")) == Ascii("keep-alive") == Lower(Ascii("KEEP-ALIVE"))
    ensures Lower(Ascii("close")) != Ascii("keep-alive") && Lower(Ascii("keep-alive, te")) != Ascii("keep-alive")
  {
    assert |Ascii("close")| == 5 && |Ascii("keep-alive, te")| == 14;
  }

  /**
   * A request that asks to stay gets the handler's response as it is, and the
   * connection goes on with the bytes after it. Any other is the last one,
   * whatever follows it.
   */
  lemma StaysExactly(lib: Library, app: App, s: seq<byte>, end: Ending)
    requires lib.Lawful() && ParseRequest(lib, s, end).Got?
    ensures
      var p := ParseRequest(lib, s, end);
      var t := Serve(lib, app, s, end);
      && |p.rest| < |s|
      && (if AsksToStay(p.request) then
            var later := Serve(lib, app, p.rest, end);
            t == Transcript([p.request] + later.requests,
                            R.Serialize(app.text, app.handler(p.request)) + later.wire, later.stop)
          else
            t == Transcript([p.request], R.Serialize(app.text, Reply(app, p.request)), LastRequest))
  {
    hide ParseRequest, Serve, First, R.Serialize, Library.Lawful;
    KeepAliveExactly(ParseRequest(lib, s, end).request);
    ServeStarts(lib, app, s, end);
    FirstIs(lib, app, s, end);
  }

  lemma FirstIs(lib: Library, app: App, s: seq<byte>, end: Ending)
    requires lib.Lawful()
    ensures
      match ParseRequest(lib, s, end)
      case Closed => First(lib, app, s, end) == Transcript([], [], CleanClose)
      case Got(req, _) => First(lib, app, s, end) == Transcript([req], R.Serialize(app.text, Reply(app, req)), LastRequest)
      case Refused(e) =>
        First(lib, app, s, end) ==
          if e == ConnectionClosed then Transcript([], [], Truncated)
          else Transcript([], R.Serialize(app.text, BadRequest(app, e)), Rejected(e))
  {
    hide ParseRequest, R.Serialize, Reply, BadRequest, Library.Lawful;
  }

  function CloseField(): R.Field {
    (Ascii("connection"), Ascii("close"))
  }

  function CloseLine(): seq<byte> {
    Ascii("connection: close")
  }

  function BadRequestStart(): seq<byte> {
    Ascii("HTTP/1.1 400 ")
  }

  /** The last reply says so, and is otherwise the handler's. */
  lemma ClosingReply(app: App, req: Request)
    requires !AsksToStay(req)
    ensures
      var ours, theirs := Reply(app, req), app.handler(req);
      && ours.status == theirs.status && ours.version == theirs.version && ours.body == theirs.body
      && CloseField() in ours.headers
      && (forall f | f in ours.headers && f.0 == CloseField().0 :: f == CloseField())
      && WithoutHeader(ours.headers, CloseField().0) == WithoutHeader(theirs.headers, CloseField().0)
      && CloseLine() in R.HeadLines(app.text, ours)
  {
    hide SetHeader, WithoutHeader, R.HeadLines;
    KeepAliveExactly(req);
    ClosePrinted(app.text, Reply(app, req));
  }

  lemma ClosePrinted(t: R.Text, r: R.Response)
    requires CloseField() in r.headers
    ensures CloseLine() in R.HeadLines(t, r)
  {
    FieldPrinted(r.headers, CloseField());
    assert Ascii("connection") + Ascii(": ") + Ascii("close") == CloseLine();
  }

  lemma {:induction false} FieldPrinted(hs: seq<R.Field>, f: R.Field)
    requires f in hs
    ensures f.0 + Ascii(": ") + f.1 in R.FieldLines(hs)
  {
    var n := |hs| - 1;
    if f != hs[n] {
      FieldPrinted(hs[..n], f);
    }
  }

  /** What is written for a stream that holds no request. */
  ghost predicate AnsweredAs(app: App, p: Parsed, t: Transcript) {
    && t.requests == []
    && match p
       case Got(_, _) => false
       case Closed => t.wire == [] && t.stop == CleanClose
       case Refused(ConnectionClosed) => t.wire == [] && t.stop == Truncated
       case Refused(e) =>
         && t.stop == Rejected(e) && t.wire == R.Serialize(app.text, BadRequest(app, e))
         && BadRequestStart() <= t.wire && CloseLine() in R.HeadLines(app.text, BadRequest(app, e))
  }

  /** A malformed request is answered by 400 and `connection: close`, a truncated or missing one by nothing. */
  lemma RefusalsAnswered(lib: Library, app: App, s: seq<byte>, end: Ending)
    requires lib.Lawful() && !ParseRequest(lib, s, end).Got?
    ensures AnsweredAs(app, ParseRequest(lib, s, end), Serve(lib, app, s, end))
  {
    hide ParseRequest, Serve, First, R.Serialize, BadRequest, Library.Lawful, CloseLine, BadRequestStart, R.HeadLines;
    ServeStarts(lib, app, s, end);
    FirstIs(lib, app, s, end);
    if ParseRequest(lib, s, end).Refused? {
      RefusalSays(app, ParseRequest(lib, s, end).error);
    }
  }

  lemma RefusalSays(app: App, e: ParseError)
    ensures BadRequestStart() <= R.Serialize(app.text, BadRequest(app, e))
    ensures CloseLine() in R.HeadLines(app.text, BadRequest(app, e))
  {
    hide R.Serialize, R.HeadLines, Numeral;
    var r := BadRequest(app, e);
    ClosePrinted(app.text, r);
    R.StatusReadBack(app.text, r);
    FourHundred();
    assert Ascii("HTTP/1.1") + Ascii(" ") + Ascii("400") + Ascii(" ") == BadRequestStart();
  }

  lemma FourHundred()
    ensures Numeral(400, 10) == Ascii("400")
  {
    assert Numeral(4, 10) == [52];
    assert Numeral(40, 10) == Numeral(4, 10) + [48];
    assert Numeral(400, 10) == Numeral(40, 10) + [48];
  }
}
