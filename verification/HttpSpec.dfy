/**
 * The HTTP/1.1 request reader as a pure function of the bytes a connection
 * delivers: what `HttpParser` computes when fragmentation is forgotten.
 */
module HttpSpec {
  import opened Bytes

  const INITIAL_BUF_SIZE: nat := 1024
  const MAX_BUF_SIZE: nat := 65536

  datatype ParseError =
    | Io
    | Parse(code: nat)
    | InvalidMethod
    | InvalidVersion
    | InvalidHeader
    | InvalidUri
    | HeadersTooLarge
    | InvalidContentLength
    | ConnectionClosed

  /** How the peer's byte stream stops: a clean end, or an I/O error. */
  datatype Ending = Eof | Broken

  function EndError(end: Ending): ParseError {
    if end.Eof? then ConnectionClosed else Io
  }

  /** A read that consumed a prefix and left `rest`, or an error. */
  datatype Read<+T> = Done(value: T, rest: seq<byte>) | Fail(error: ParseError)

  // ---- Lines, exact reads and chunked bodies ----

  function ChopCr(line: seq<byte>): seq<byte> {
    if line != [] && line[|line| - 1] == CR then line[..|line| - 1] else line
  }

  function ReadLine(s: seq<byte>, end: Ending): (r: Read<seq<byte>>)
    ensures r.Done? ==> |r.rest| < |s|
  {
    var k := IndexOf(s, LF);
    if k < |s| then Done(ChopCr(s[..k]), s[k + 1..]) else Fail(EndError(end))
  }

  function ReadExact(s: seq<byte>, n: nat, end: Ending): Read<seq<byte>> {
    if n <= |s| then Done(s[..n], s[n..]) else Fail(EndError(end))
  }

  /** The size on a chunk-size line: what precedes any `;`, trimmed, in hexadecimal. */
  function ChunkSize(line: seq<byte>): Option<nat> {
    ParseUsize(Trim(line[..IndexOf(line, SEMICOLON)]), 16)
  }

  /** One chunk with its framing; the last chunk yields no data. */
  function ReadChunk(s: seq<byte>, end: Ending): (r: Read<seq<byte>>)
    ensures r.Done? ==> |r.rest| < |s|
  {
    match ReadLine(s, end)
    case Fail(e) => Fail(e)
    case Done(line, r1) =>
      match ChunkSize(line)
      case None => Fail(InvalidContentLength)
      case Some(n) =>
        match ReadExact(r1, n, end)
        case Fail(e) => Fail(e)
        case Done(chunk, r2) =>
          match ReadLine(r2, end)
          case Fail(e) => Fail(e)
          case Done(_, r3) => Done(chunk, r3)
  }

  function ReadChunked(s: seq<byte>, end: Ending, body: seq<byte>): (r: Read<seq<byte>>)
    ensures r.Done? ==> |r.rest| < |s|
    decreases |s|
  {
    match ReadChunk(s, end)
    case Fail(e) => Fail(e)
    case Done(chunk, rest) =>
      if chunk == [] then Done(body, rest) else ReadChunked(rest, end, body + chunk)
  }

  /** What is left after a chunk that cannot be read: nothing, or what follows a malformed size line. */
  function ChunkFailRest(s: seq<byte>, end: Ending): seq<byte> {
    match ReadLine(s, end)
    case Fail(_) => []
    case Done(line, rest) => if ChunkSize(line).None? then rest else []
  }

  function ChunkedFailRest(s: seq<byte>, end: Ending): seq<byte>
    decreases |s|
  {
    match ReadChunk(s, end)
    case Fail(_) => ChunkFailRest(s, end)
    case Done(chunk, rest) => if chunk == [] then [] else ChunkedFailRest(rest, end)
  }

  // ---- Header maps ----

  type Headers = map<seq<byte>, seq<byte>>

  function TransferEncoding(): seq<byte> { Ascii("transfer-encoding") }
  function ContentLength(): (r: seq<byte>)
    ensures |r| == 14
  {
    Ascii("content-length")
  }
  function Connection(): seq<byte> { Ascii("connection") }

  /** `HeaderValue::to_str` succeeds on visible ASCII and tabs only. */
  predicate IsText(v: seq<byte>) {
    forall i | 0 <= i < |v| :: 32 <= v[i] < 127 || v[i] == 9
  }

  predicate IsChunked(h: Headers) {
    TransferEncoding() in h && IsText(h[TransferEncoding()]) &&
    Contains(Lower(h[TransferEncoding()]), Ascii("chunked"))
  }

  function GetContentLength(h: Headers): Option<nat> {
    if ContentLength() in h && IsText(h[ContentLength()])
    then ParseUsize(h[ContentLength()], 10)
    else None
  }

  predicate ShouldKeepAlive(h: Headers, version: nat) {
    if Connection() in h
    then IsText(h[Connection()]) && Lower(h[Connection()]) == Ascii("keep-alive")
    else version == 1
  }

  function ReadBody(h: Headers, s: seq<byte>, end: Ending): Read<seq<byte>> {
    if IsChunked(h) then ReadChunked(s, end, [])
    else match GetContentLength(h)
      case Some(n) => ReadExact(s, n, end)
      case None => Done([], s)
  }

  function BodyFailRest(h: Headers, s: seq<byte>, end: Ending): seq<byte> {
    if IsChunked(h) then ChunkedFailRest(s, end) else []
  }

  // ---- The header parser, a library whose grammar stays abstract ----

  datatype RawHead = RawHead(
    verb: seq<byte>, path: seq<byte>, version: nat, headers: seq<(seq<byte>, seq<byte>)>)

  datatype HeadStatus = Complete(head: RawHead, len: nat) | Partial | Malformed(code: nat)

  /** The `httparse` and `http` crates, as far as this code uses them. */
  datatype Library = Library(
    parse: seq<byte> -> HeadStatus,
    validMethod: seq<byte> -> bool,
    validName: seq<byte> -> bool,
    validValue: seq<byte> -> bool,
    validUri: seq<byte> -> bool)
  {
    /**
     * More input never changes a verdict. A complete header is a non-empty
     * prefix, and is complete as soon as that prefix is there.
     */
    ghost predicate Lawful() {
      && parse([]).Partial?
      && (forall p :: parse(p).Complete? ==> 0 < parse(p).len <= |p|)
      && (forall p, q | p <= q && !parse(p).Partial? :: parse(q) == parse(p))
      && (forall p, q | q <= p && parse(p).Complete? && parse(p).len <= |q| :: parse(q) == parse(p))
    }
  }

  datatype Head = Head(verb: seq<byte>, uri: seq<byte>, version: nat, headers: Headers)
  datatype Request = Request(head: Head, body: seq<byte>)
  datatype Converted = Good(head: Head) | Bad(error: ParseError)

  /** Header insertion: names lower-cased, a later value replaces an earlier one. */
  function HeaderMap(hs: seq<(seq<byte>, seq<byte>)>): Headers {
    if hs == [] then map[]
    else HeaderMap(hs[..|hs| - 1])[Lower(hs[|hs| - 1].0) := hs[|hs| - 1].1]
  }

  function Convert(lib: Library, raw: RawHead): Converted {
    if !lib.validMethod(raw.verb) then Bad(InvalidMethod)
    else if raw.version != 0 && raw.version != 1 then Bad(InvalidVersion)
    else if exists i | 0 <= i < |raw.headers| ::
      !lib.validName(raw.headers[i].0) || !lib.validValue(raw.headers[i].1)
    then Bad(InvalidHeader)
    else Good(Head(raw.verb, raw.path, raw.version, HeaderMap(raw.headers)))
  }

  // ---- One request ----

  datatype HeadRead = NoRequest | GotHead(head: Head, len: nat) | HeadFail(error: ParseError)

  /** The bytes the header buffer can ever hold. */
  function Window(s: seq<byte>): seq<byte> {
    s[..Min(|s|, MAX_BUF_SIZE)]
  }

  function ReadHead(lib: Library, s: seq<byte>, end: Ending): HeadRead {
    match lib.parse(Window(s))
    case Complete(raw, n) =>
      (match Convert(lib, raw)
       case Good(h) => GotHead(h, n)
       case Bad(e) => HeadFail(e))
    case Malformed(c) => HeadFail(Parse(c))
    case Partial =>
      if |s| >= MAX_BUF_SIZE then HeadFail(HeadersTooLarge)
      else if s == [] && end.Eof? then NoRequest
      else HeadFail(EndError(end))
  }

  datatype Parsed = Closed | Got(request: Request, rest: seq<byte>) | Refused(error: ParseError)

  function ParseRequest(lib: Library, s: seq<byte>, end: Ending): (r: Parsed)
    requires lib.Lawful()
    ensures r.Got? ==> |r.rest| < |s|
  {
    hide ReadHead, ReadBody, Library.Lawful;
    HeadFits(lib, s, end);
    match ReadHead(lib, s, end)
    case NoRequest => Closed
    case HeadFail(e) => Refused(e)
    case GotHead(h, n) =>
      ReadBodyRest(h.headers, s[n..], end);
      match ReadBody(h.headers, s[n..], end)
      case Fail(e) => Refused(e)
      case Done(body, rest) =>
        if lib.validUri(h.uri) then Got(Request(h, body), rest) else Refused(InvalidUri)
  }

  // ---- What is left is a suffix ----

  ghost predicate IsSuffix(t: seq<byte>, s: seq<byte>) {
    |t| <= |s| && t == s[|s| - |t|..]
  }

  lemma SuffixTrans(u: seq<byte>, t: seq<byte>, s: seq<byte>)
    requires IsSuffix(u, t) && IsSuffix(t, s)
    ensures IsSuffix(u, s)
  {
  }

  lemma ReadLineRest(s: seq<byte>, end: Ending)
    requires ReadLine(s, end).Done?
    ensures IsSuffix(ReadLine(s, end).rest, s)
  {
  }

  lemma ReadChunkRest(s: seq<byte>, end: Ending)
    requires ReadChunk(s, end).Done?
    ensures IsSuffix(ReadChunk(s, end).rest, s)
  {
    var l := ReadLine(s, end);
    var x := ReadExact(l.rest, ChunkSize(l.value).value, end);
    var l2 := ReadLine(x.rest, end);
    ReadLineRest(s, end);
    SuffixTrans(x.rest, l.rest, s);
    ReadLineRest(x.rest, end);
    SuffixTrans(l2.rest, x.rest, s);
  }

  lemma {:induction false} ReadChunkedRest(s: seq<byte>, end: Ending, body: seq<byte>)
    requires ReadChunked(s, end, body).Done?
    ensures IsSuffix(ReadChunked(s, end, body).rest, s)
    decreases |s|
  {
    var c := ReadChunk(s, end);
    ReadChunkRest(s, end);
    if c.value != [] {
      ReadChunkedRest(c.rest, end, body + c.value);
      SuffixTrans(ReadChunked(s, end, body).rest, c.rest, s);
    }
  }

  lemma ReadBodyRest(h: Headers, s: seq<byte>, end: Ending)
    ensures
      var r := ReadBody(h, s, end);
      r.Done? ==> IsSuffix(r.rest, s)
  {
    if IsChunked(h) && ReadChunked(s, end, []).Done? {
      ReadChunkedRest(s, end, []);
    }
  }

  lemma HeadFits(lib: Library, s: seq<byte>, end: Ending)
    requires lib.Lawful()
    ensures
      var hr := ReadHead(lib, s, end);
      hr.GotHead? ==> 0 < hr.len <= |s| && hr.len <= MAX_BUF_SIZE
  {
  }

  /** A request consumes a non-empty prefix of the stream and leaves exactly the suffix after it. */
  lemma ParseRequestRest(lib: Library, s: seq<byte>, end: Ending)
    requires lib.Lawful()
    ensures
      var r := ParseRequest(lib, s, end);
      r.Got? ==> IsSuffix(r.rest, s) && |r.rest| < |s|
  {
    hide ReadHead, ReadBody, Library.Lawful;
    HeadFits(lib, s, end);
    match ReadHead(lib, s, end)
    case NoRequest =>
    case HeadFail(_) =>
    case GotHead(h, n) =>
      ReadBodyRest(h.headers, s[n..], end);
      if ReadBody(h.headers, s[n..], end).Done? {
        SuffixTrans(ReadBody(h.headers, s[n..], end).rest, s[n..], s);
      }
  }

  // ---- Bytes that arrive after a request do not change it ----

  lemma ReadLineExtend(s: seq<byte>, t: seq<byte>, end: Ending, end': Ending)
    requires ReadLine(s, end).Done?
    ensures ReadLine(s + t, end') == Done(ReadLine(s, end).value, ReadLine(s, end).rest + t)
  {
    var k := IndexOf(s, LF);
    IndexOfIsFirst(s + t, LF, k);
    SplitAppend(s, t, k);
    SplitAppend(s, t, k + 1);
  }

  lemma ReadExactExtend(s: seq<byte>, t: seq<byte>, n: nat, end: Ending, end': Ending)
    requires ReadExact(s, n, end).Done?
    ensures ReadExact(s + t, n, end') == Done(s[..n], s[n..] + t)
  {
    SplitAppend(s, t, n);
  }

  lemma ReadChunkExtend(s: seq<byte>, t: seq<byte>, end: Ending, end': Ending)
    requires ReadChunk(s, end).Done?
    ensures ReadChunk(s + t, end') == Done(ReadChunk(s, end).value, ReadChunk(s, end).rest + t)
  {
    var l := ReadLine(s, end);
    var n := ChunkSize(l.value).value;
    var x := ReadExact(l.rest, n, end);
    ReadLineExtend(s, t, end, end');
    ReadExactExtend(l.rest, t, n, end, end');
    ReadLineExtend(x.rest, t, end, end');
  }

  lemma {:induction false} ReadChunkedExtend(
    s: seq<byte>, t: seq<byte>, end: Ending, end': Ending, body: seq<byte>)
    requires ReadChunked(s, end, body).Done?
    ensures
      var r := ReadChunked(s, end, body);
      ReadChunked(s + t, end', body) == Done(r.value, r.rest + t)
    decreases |s|
  {
    var c := ReadChunk(s, end);
    ReadChunkExtend(s, t, end, end');
    if c.value != [] {
      ReadChunkedExtend(c.rest, t, end, end', body + c.value);
    }
  }

  lemma ReadBodyExtend(h: Headers, s: seq<byte>, t: seq<byte>, end: Ending, end': Ending)
    requires ReadBody(h, s, end).Done?
    ensures
      var r := ReadBody(h, s, end);
      ReadBody(h, s + t, end') == Done(r.value, r.rest + t)
  {
    if IsChunked(h) {
      ReadChunkedExtend(s, t, end, end', []);
    } else if GetContentLength(h).Some? {
      ReadExactExtend(s, t, GetContentLength(h).value, end, end');
    }
  }

  lemma ReadHeadExtend(lib: Library, s: seq<byte>, t: seq<byte>, end: Ending, end': Ending)
    requires lib.Lawful()
    requires ReadHead(lib, s, end).GotHead?
    ensures ReadHead(lib, s + t, end') == ReadHead(lib, s, end)
    ensures ReadHead(lib, s, end).len <= |s|
  {
    assert Window(s) <= Window(s + t);
    assert lib.parse(Window(s + t)) == lib.parse(Window(s));
  }

  /** A request that is complete in `s` is the same request, with `t` left over, in `s + t`. */
  lemma ParseRequestExtend(lib: Library, s: seq<byte>, t: seq<byte>, end: Ending, end': Ending)
    requires lib.Lawful()
    requires ParseRequest(lib, s, end).Got?
    ensures
      var r := ParseRequest(lib, s, end);
      ParseRequest(lib, s + t, end') == Got(r.request, r.rest + t)
  {
    hide ReadHead, ReadBody, Library.Lawful;
    var hr := ReadHead(lib, s, end);
    ReadHeadExtend(lib, s, t, end, end');
    SplitAppend(s, t, hr.len);
    ReadBodyExtend(hr.head.headers, s[hr.len..], t, end, end');
  }

  // ---- Chunked round trip (section 7.1 of RFC 9112) ----

  /** A chunk on the wire: its size text, an optional `;` extension, and its data. */
  datatype Chunk = Chunk(size: seq<byte>, ext: seq<byte>, data: seq<byte>)

  predicate WellFormed(c: Chunk) {
    && IsNumeral(c.size, 16)
    && NumeralValue(c.size, 16) == |c.data| < USIZE_LIMIT
    && (c.ext == [] || c.ext[0] == SEMICOLON)
    && LF !in c.ext
  }

  function EncodeChunk(c: Chunk): seq<byte> {
    (c.size + c.ext) + (CRLF + (c.data + CRLF))
  }

  /** Chunks, then the last one, whose data are empty, with no trailer fields. */
  function Encode(chunks: seq<Chunk>, last: Chunk): seq<byte> {
    if chunks == [] then EncodeChunk(last)
    else EncodeChunk(chunks[0]) + Encode(chunks[1..], last)
  }

  function Payload(chunks: seq<Chunk>): seq<byte> {
    if chunks == [] then [] else chunks[0].data + Payload(chunks[1..])
  }

  /** A line is read back whole, without one carriage return at its end. */
  lemma ReadLineAt(text: seq<byte>, rest: seq<byte>, end: Ending)
    requires LF !in text
    ensures ReadLine(text + ([LF] + rest), end) == Done(ChopCr(text), rest)
  {
    var s := text + ([LF] + rest);
    var k := |text|;
    assert s[k] == LF;
    forall i | 0 <= i < k ensures s[i] != LF {
      assert s[i] == text[i];
      assert text[i] in text;
    }
    IndexOfIsFirst(s, LF, k);
    assert s[..k] == text;
    assert s[k + 1..] == rest;
  }

  /** A line of `text` ended by CR LF is read back as `text`. */
  lemma ReadLineOf(text: seq<byte>, rest: seq<byte>, end: Ending)
    requires LF !in text
    ensures ReadLine(text + (CRLF + rest), end) == Done(text, rest)
  {
    var line := text + [CR];
    assert text + (CRLF + rest) == line + ([LF] + rest) by {
      assert CRLF + rest == [CR] + ([LF] + rest);
      Assoc(text, [CR], [LF] + rest);
    }
    ReadLineAt(line, rest, end);
    assert ChopCr(line) == text;
  }

  /** The size line of a well-formed chunk denotes the length of its data. */
  lemma ChunkSizeOf(c: Chunk)
    requires WellFormed(c)
    ensures ChunkSize(c.size + c.ext) == Some(|c.data|)
    ensures LF !in c.size + c.ext
  {
    var line := c.size + c.ext;
    assert forall i | 0 <= i < |c.size| :: line[i] == c.size[i];
    if c.ext == [] {
      assert SEMICOLON !in line;
      IndexOfAbsent(line, SEMICOLON);
    } else {
      IndexOfIsFirst(line, SEMICOLON, |c.size|);
    }
    assert line[..IndexOf(line, SEMICOLON)] == c.size;
    TrimKeeps(c.size);
  }

  lemma ChunkThen(c: Chunk, tail: seq<byte>)
    ensures EncodeChunk(c) + tail == (c.size + c.ext) + (CRLF + (c.data + (CRLF + tail)))
  {
    Assoc(c.size + c.ext, CRLF + (c.data + CRLF), tail);
    Assoc(CRLF, c.data + CRLF, tail);
    Assoc(c.data, CRLF, tail);
  }

  /** One well-formed chunk is read back exactly, whatever follows it. */
  lemma ReadChunkOf(c: Chunk, tail: seq<byte>, end: Ending)
    requires WellFormed(c)
    ensures ReadChunk(EncodeChunk(c) + tail, end) == Done(c.data, tail)
  {
    ChunkSizeOf(c);
    var r1 := c.data + (CRLF + tail);
    ChunkThen(c, tail);
    ReadLineOf(c.size + c.ext, r1, end);
    assert r1[..|c.data|] == c.data;
    assert r1[|c.data|..] == CRLF + tail == [] + (CRLF + tail);
    ReadLineOf([], tail, end);
  }

  lemma {:induction false} ChunkedRoundTripFrom(
    chunks: seq<Chunk>, last: Chunk, suffix: seq<byte>, end: Ending, body: seq<byte>)
    requires forall c | c in chunks :: WellFormed(c) && c.data != []
    requires WellFormed(last) && last.data == []
    ensures ReadChunked(Encode(chunks, last) + suffix, end, body) == Done(body + Payload(chunks), suffix)
    decreases |chunks|
  {
    if chunks == [] {
      ReadChunkOf(last, suffix, end);
      assert body + Payload(chunks) == body;
    } else {
      var c := chunks[0];
      var tail := Encode(chunks[1..], last) + suffix;
      Assoc(EncodeChunk(c), Encode(chunks[1..], last), suffix);
      ReadChunkOf(c, tail, end);
      ChunkedRoundTripFrom(chunks[1..], last, suffix, end, body + c.data);
      Assoc(body, c.data, Payload(chunks[1..]));
    }
  }

  /**
   * Whatever the split into non-empty chunks, the spelling of the sizes, the
   * extensions and what follows, decoding returns the body and leaves exactly
   * what follows.
   */
  lemma ChunkedRoundTrip(chunks: seq<Chunk>, last: Chunk, suffix: seq<byte>, end: Ending)
    requires forall c | c in chunks :: WellFormed(c) && c.data != []
    requires WellFormed(last) && last.data == []
    ensures ReadChunked(Encode(chunks, last) + suffix, end, []) == Done(Payload(chunks), suffix)
  {
    ChunkedRoundTripFrom(chunks, last, suffix, end, []);
    assert [] + Payload(chunks) == Payload(chunks);
  }

  /** Any data have a well-formed chunk, so the round trip covers every split of every body. */
  function ChunkOf(data: seq<byte>): (c: Chunk)
    requires |data| < USIZE_LIMIT
    ensures WellFormed(c) && c.data == data
  {
    NumeralRoundTrip(|data|, 16);
    Chunk(Numeral(|data|, 16), [], data)
  }
}
