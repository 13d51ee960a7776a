/**
 * `HttpParser` and `KimojioHttpParser`: an in-place buffer over a fragmenting
 * reader. The unconsumed stream is the buffered bytes followed by the unread
 * ones, and every method computes the function of `HttpSpec` on that stream,
 * whatever the fragments.
 */
module HttpParser {
  import opened Bytes
  import opened HttpSpec
  import opened Wire

  /** The sizes the buffer goes through: doubled from 1024 up to 65536. */
  predicate IsCapacity(n: nat): (r: bool)
    ensures r ==> INITIAL_BUF_SIZE <= n <= MAX_BUF_SIZE
  {
    n in {1024, 2048, 4096, 8192, 16384, 32768, 65536}
  }

  /** The size the buffer has grown to once it holds `n` bytes. */
  function Fit(capacity: nat, n: nat): (r: nat)
    requires capacity > 0
    ensures capacity <= r
    ensures n <= MAX_BUF_SIZE && IsCapacity(capacity) ==> n <= r && IsCapacity(r)
    decreases MAX_BUF_SIZE - capacity
  {
    if n <= capacity || capacity >= MAX_BUF_SIZE then capacity else Fit(2 * capacity, n)
  }

  /** The length of the header at the start of `s`, if there is one. */
  function HeadLen(lib: Library, s: seq<byte>): nat {
    var status := lib.parse(Window(s));
    if status.Complete? then status.len else 0
  }

  /** What the first `len` bytes say about the header of the whole. */
  lemma Verdict(lib: Library, s: seq<byte>, len: nat, end: Ending)
    requires lib.Lawful() && len <= |s| && len <= MAX_BUF_SIZE
    ensures
      match lib.parse(s[..len])
      case Complete(raw, n) =>
        && lib.parse(Window(s)).Complete? && 0 < n == HeadLen(lib, s) <= len
        && ReadHead(lib, s, end) ==
           (match Convert(lib, raw) case Good(h) => GotHead(h, n) case Bad(e) => HeadFail(e))
      case Malformed(c) => ReadHead(lib, s, end) == HeadFail(Parse(c))
      case Partial =>
        && (lib.parse(Window(s)).Complete? ==> len < HeadLen(lib, s))
        && (len == MAX_BUF_SIZE ==> ReadHead(lib, s, end) == HeadFail(HeadersTooLarge))
        && (len == |s| < MAX_BUF_SIZE ==>
            ReadHead(lib, s, end) == if s == [] && end.Eof? then NoRequest else HeadFail(EndError(end)))
  {
    hide Convert;
    assert s[..len] <= Window(s);
    if len == MAX_BUF_SIZE || len == |s| {
      assert s[..len] == Window(s);
    }
  }

  /** How a header read begins: the header, if there is one, the buffer and the plan. */
  datatype Begin = Begin(
    complete: bool, n: nat, total: nat, capacity: nat, empty: bool, greedy: bool, paced: bool, pace: nat)

  ghost function Beginning(
    lib: Library, s: seq<byte>, capacity: nat, empty: bool, greedy: bool, paced: bool, pace: nat): Begin
  {
    Begin(lib.parse(Window(s)).Complete?, HeadLen(lib, s), |s|, capacity, empty, greedy, paced, pace)
  }

  /** How far it has come: the buffer grew only for the header, and the reads were as the plan says. */
  ghost predicate Reached(b: Begin, capacity: nat, len: nat, greedy: bool, paced: bool) {
    && capacity > 0 && b.capacity > 0
    && (b.paced ==> paced)
    && (b.greedy ==> greedy)
    && (b.complete ==> Fit(capacity, b.n) == Fit(b.capacity, b.n))
    && (b.empty && b.greedy ==> len == 0 || len == Min(b.total, capacity))
    && (b.complete && b.empty && b.paced && b.total - b.n >= b.pace ==> len <= b.n)
  }

  lemma ReachedStart(b: Begin, len: nat)
    requires b.capacity > 0 && (b.empty ==> len == 0)
    ensures Reached(b, b.capacity, len, b.greedy, b.paced)
  {
  }

  /** A read of `k` bytes, after the buffer was doubled if it was full. */
  lemma ReachedMore(
    b: Begin, capacity: nat, len: nat, greedy: bool, paced: bool, k: nat, capacity': nat, greedy': bool, paced': bool)
    requires Reached(b, capacity, len, greedy, paced)
    requires len <= capacity && len + k <= b.total && (b.complete ==> len < b.n)
    requires capacity' == if len == capacity then 2 * capacity else capacity
    requires len == capacity ==> capacity < MAX_BUF_SIZE
    requires greedy ==> greedy' && k == Min(capacity' - len, b.total - len)
    requires paced ==> paced' && (b.total - len > b.pace ==> k == 1)
    ensures Reached(b, capacity', len + k, greedy', paced')
  {
  }

  lemma ReachedPaced(b: Begin, capacity: nat, len: nat, greedy: bool, paced: bool)
    requires Reached(b, capacity, len, greedy, paced)
    ensures b.paced ==> paced
  {
  }

  /** A complete header leaves the smallest buffer that holds it, filled as the plan says. */
  ghost predicate Settled(b: Begin, capacity: nat, len: nat) {
    && b.capacity > 0 && capacity == Fit(b.capacity, b.n)
    && (b.empty && b.greedy ==> len == Min(b.total, capacity))
    && (b.empty && b.paced && b.total - b.n >= b.pace ==> len == b.n)
  }

  lemma ReachedEnd(b: Begin, capacity: nat, len: nat, greedy: bool, paced: bool)
    requires Reached(b, capacity, len, greedy, paced)
    requires b.complete && 0 < b.n <= len <= capacity
    ensures Settled(b, capacity, len)
  {
  }

  /** A read's outcome, without the rest: that is the parser's own state. */
  datatype Outcome<+T> = Value(value: T) | Error(error: ParseError)

  /** The two parsers are the same code but for how they fill a body past the buffer. */
  datatype Filling = Exactly | InPieces

  const PIECE: nat := 8192

  class HttpParser {
    const lib: Library
    const reader: Socket
    const filling: Filling
    var buf: array<byte>
    var len: nat

    ghost predicate Valid()
      reads this
    {
      lib.Lawful() && IsCapacity(buf.Length) && len <= buf.Length
    }

    /** The unconsumed stream. */
    ghost function Pending(): seq<byte>
      reads this, buf, reader
      requires len <= buf.Length
    {
      buf[..len] + reader.unread
    }

    constructor (lib: Library, reader: Socket, filling: Filling)
      requires lib.Lawful()
      ensures Valid() && fresh(buf)
      ensures this.lib == lib && this.reader == reader && this.filling == filling
      ensures Pending() == reader.unread && len == 0 && buf.Length == INITIAL_BUF_SIZE
    {
      this.lib := lib;
      this.reader := reader;
      this.filling := filling;
      buf := new byte[INITIAL_BUF_SIZE](_ => 0);
      len := 0;
    }

    /** `Vec::copy_within(k..len, 0)`: drop the first `k` buffered bytes. */
    method Discard(k: nat)
      requires Valid() && k <= len
      modifies this`len, buf
      ensures Valid() && len == old(len) - k
      ensures buf[..len] == old(buf[k..len])
      ensures Pending() == old(Pending())[k..]
    {
      hide IsCapacity, Library.Lawful;
      forall i | 0 <= i < len - k {
        buf[i] := buf[i + k];
      }
      len := len - k;
      assert buf[..len] == old(buf[k..len]);
    }

    /** `KimojioHttpParser::reset`: forget whatever is buffered. */
    method Reset()
      requires Valid()
      modifies this`len, reader`drops
      ensures Valid() && len == 0
      ensures Pending() == old(Pending())[old(len)..]
      ensures reader.drops == old(reader.drops) + [old(len)]
    {
      reader.drops := reader.drops + [len];
      len := 0;
    }

    method Grow()
      requires Valid() && buf.Length < MAX_BUF_SIZE
      modifies this`buf
      ensures Valid() && fresh(buf) && buf.Length == 2 * old(buf.Length)
      ensures buf[..len] == old(buf[..len])
    {
      var bigger := new byte[2 * buf.Length](_ => 0);
      forall i | 0 <= i < buf.Length {
        bigger[i] := buf[i];
      }
      buf := bigger;
    }

    /**
     * Fetch more bytes. The slice offered to the reader is never empty, so a
     * zero is always the end of the stream; only a full 64 KiB buffer is refused.
     */
    method ReadMore() returns (r: Outcome<nat>)
      requires Valid()
      modifies this, buf, reader`unread, reader`plan, reader`asked
      ensures Valid() && (buf == old(buf) || fresh(buf))
      ensures Pending() == old(Pending())
      ensures r.Error? && r.error == HeadersTooLarge <==> old(len) == MAX_BUF_SIZE
      ensures r.Error? && r.error != HeadersTooLarge ==>
        r.error == Io && reader.ending.Broken? && reader.unread == []
      ensures r.Value? && r.value == 0 ==> reader.ending.Eof? && reader.unread == []
      ensures r.Value? ==> len == old(len) + r.value && |reader.unread| == |old(reader.unread)| - r.value
      ensures r.Error? ==> len == old(len)
      ensures old(len) == old(buf.Length) && r.Value? ==> buf.Length == 2 * old(buf.Length)
      ensures old(len) < old(buf.Length) ==> buf == old(buf)
      ensures old(reader.Paced()) ==> reader.Paced()
      ensures old(reader.Paced()) && |old(reader.unread)| > reader.pace && r.Value? ==> r.value == 1
      ensures old(reader.plan) == [] ==> reader.plan == []
      ensures old(reader.plan) == [] && r.Value? ==> r.value == Min(buf.Length - old(len), |old(reader.unread)|)
      ensures old(reader.Marked()) && old(len) == 0 ==> reader.Marked()
    {
      if len == buf.Length {
        if buf.Length >= MAX_BUF_SIZE {
          return Error(HeadersTooLarge);
        }
        Grow();
      }
      r := ReadInto();
    }

    /** One read into the free part of the buffer. */
    method ReadInto() returns (r: Outcome<nat>)
      requires Valid() && len < buf.Length
      modifies this`len, buf, reader`unread, reader`plan, reader`asked
      ensures Valid()
      ensures Pending() == old(Pending())
      ensures r.Error? ==> r.error == Io && reader.ending.Broken? && reader.unread == [] && len == old(len)
      ensures r.Value? && r.value == 0 ==> reader.ending.Eof? && reader.unread == []
      ensures r.Value? ==> len == old(len) + r.value && |reader.unread| == |old(reader.unread)| - r.value
      ensures old(reader.Paced()) ==> reader.Paced()
      ensures old(reader.Paced()) && |old(reader.unread)| > reader.pace && r.Value? ==> r.value == 1
      ensures old(reader.plan) == [] ==> reader.plan == []
      ensures old(reader.plan) == [] && r.Value? ==> r.value == Min(buf.Length - old(len), |old(reader.unread)|)
      ensures old(reader.Marked()) && old(len) + 2 <= buf.Length ==> reader.Marked()
    {
      hide Socket.Paced, Socket.Marked, Amount, IsCapacity, Library.Lawful;
      ghost var u := reader.unread;
      var n := reader.Read(buf, len, buf.Length);
      match n
      case None => return Error(Io);
      case Some(k) =>
        Joined(old(buf[..len]), u, k);
        len := len + k;
        return Value(k);
    }

    /** Read until the header is complete; the buffered bytes are only looked at. */
    method ParseHeaders() returns (r: HeadRead)
      requires Valid()
      modifies this, buf, reader`unread, reader`plan, reader`asked
      ensures Valid() && (buf == old(buf) || fresh(buf))
      ensures Pending() == old(Pending())
      ensures r == ReadHead(lib, old(Pending()), reader.ending)
      ensures r.GotHead? ==> r.len <= len && r.len == HeadLen(lib, old(Pending()))
      ensures r.GotHead? ==> buf.Length == Fit(old(buf.Length), r.len)
      ensures old(reader.Paced()) ==> reader.Paced()
      ensures r.GotHead? && old(len) == 0 && old(reader.plan) == [] ==> len == Min(|old(Pending())|, buf.Length)
      ensures r.GotHead? && old(len) == 0 && old(reader.Paced()) && |old(Pending())| - r.len >= reader.pace ==>
        len == r.len
    {
      hide Socket.Paced, IsCapacity, ReadHead, Library.Lawful, HeadLen, Reached, Fit;
      ghost var s := Pending();
      ghost var start := Beginning(lib, s, buf.Length, len == 0, reader.plan == [], reader.Paced(), reader.pace);
      ReachedStart(start, len);
      while true
        invariant Valid() && (buf == old(buf) || fresh(buf))
        invariant Pending() == s
        invariant Reached(start, buf.Length, len, reader.plan == [], reader.Paced())
        decreases |reader.unread|
      {
        var done := TryHeader(s, start);
        if done.Some? {
          return done.value;
        }
      }
    }

    /** One turn of the loop: a verdict on what is buffered, or more bytes. */
    method TryHeader(ghost s: seq<byte>, ghost b: Begin) returns (r: Option<HeadRead>)
      requires Valid() && Pending() == s
      requires b == Beginning(lib, s, b.capacity, b.empty, b.greedy, b.paced, reader.pace)
      requires Reached(b, buf.Length, len, reader.plan == [], reader.Paced())
      modifies this, buf, reader`unread, reader`plan, reader`asked
      ensures Valid() && (buf == old(buf) || fresh(buf)) && Pending() == s
      ensures r.None? ==>
        |reader.unread| < |old(reader.unread)| && Reached(b, buf.Length, len, reader.plan == [], reader.Paced())
      ensures r.Some? ==> r.value == ReadHead(lib, s, reader.ending) && (b.paced ==> reader.Paced())
      ensures r.Some? && r.value.GotHead? ==>
        && r.value.len == b.n <= len && Settled(b, buf.Length, len)
    {
      hide Socket.Paced, IsCapacity, ReadHead, Convert, HeadLen, Library.Lawful, Reached, Settled;
      var status := lib.parse(buf[..len]);
      assert buf[..len] == s[..len];
      Verdict(lib, s, len, reader.ending);
      ReachedPaced(b, buf.Length, len, reader.plan == [], reader.Paced());
      if status.Complete? {
        ReachedEnd(b, buf.Length, len, reader.plan == [], reader.Paced());
        match Convert(lib, status.head)
        case Good(h) => return Some(GotHead(h, status.len));
        case Bad(e) => return Some(HeadFail(e));
      } else if status.Malformed? {
        return Some(HeadFail(Parse(status.code)));
      }
      var first := len == 0;
      ghost var capacity, had, greedy, paced := buf.Length, len, reader.plan == [], reader.Paced();
      var more := ReadMore();
      if more.Error? {
        assert more.error != HeadersTooLarge ==> buf[..len] == s;
        return Some(HeadFail(more.error));
      }
      if more.value == 0 {
        assert buf[..len] == s;
        return Some(if first then NoRequest else HeadFail(ConnectionClosed));
      }
      ReachedMore(b, capacity, had, greedy, paced, more.value, buf.Length, reader.plan == [], reader.Paced());
      return None;
    }

    method ReadExactBytes(n: nat) returns (r: Outcome<seq<byte>>)
      requires Valid()
      modifies this`len, buf, reader`unread, reader`plan, reader`asked
      ensures Valid()
      ensures match ReadExact(old(Pending()), n, reader.ending)
        case Done(v, rest) => r == Value(v) && Pending() == rest
        case Fail(e) => r == Error(e) && Pending() == []
      ensures len == old(len) - Min(old(len), n)
      ensures |reader.unread| <= |old(reader.unread)|
      ensures reader.unread == old(reader.unread) || len == 0
      ensures old(reader.Paced()) ==> reader.Paced()
    {
      hide Socket.Paced, IsCapacity, Library.Lawful;
      ghost var unread := reader.unread;
      ExactSplit(buf[..len], unread, n, reader.ending);
      var fromBuf := Min(len, n);
      var data := buf[..fromBuf];
      assert buf[..len][..fromBuf] == data;
      Discard(fromBuf);
      if fromBuf < n {
        assert buf[..len] == [];
        assert Pending() == reader.unread == unread;
        var tail := Fill(n - fromBuf);
        assert Pending() == reader.unread;
        return if tail.Error? then tail else Value(data + tail.value);
      }
      return Value(data);
    }

    /** The bytes that the buffer lacks, as either parser reads them. */
    method Fill(n: nat) returns (r: Outcome<seq<byte>>)
      modifies reader`unread, reader`plan, reader`asked
      ensures Filled(n, old(reader.unread), r)
      ensures old(reader.Paced()) ==> reader.Paced()
    {
      hide Socket.Paced;
      if filling.Exactly? {
        r := FillExact(n);
      } else {
        r := FillPieces(n);
      }
    }

    /** tokio's `read_exact` on the underlying reader: fill one slice or fail at the end of the stream. */
    method FillExact(n: nat) returns (r: Outcome<seq<byte>>)
      modifies reader`unread, reader`plan, reader`asked
      ensures Filled(n, old(reader.unread), r)
      ensures old(reader.Paced()) ==> reader.Paced()
    {
      hide PacedAt;
      ghost var s := reader.unread;
      var dst := new byte[n](_ => 0);
      var filled := 0;
      while filled < n
        invariant filled <= n && filled <= |s|
        invariant dst[..filled] == s[..filled]
        invariant reader.unread == s[filled..]
        invariant old(reader.Paced()) ==> reader.Paced()
      {
        var got := reader.Read(dst, filled, n);
        if got.None? {
          return Error(Io);
        }
        if got.value == 0 {
          return Error(ConnectionClosed);
        }
        Advance(s, filled, got.value);
        filled := filled + got.value;
      }
      assert dst[..] == dst[..n];
      return Value(dst[..]);
    }

    /** The completion-based parser's loop: pieces of at most 8192 bytes, each appended. */
    method FillPieces(n: nat) returns (r: Outcome<seq<byte>>)
      modifies reader`unread, reader`plan, reader`asked
      ensures Filled(n, old(reader.unread), r)
      ensures old(reader.Paced()) ==> reader.Paced()
    {
      hide PacedAt;
      ghost var s := reader.unread;
      var data := [];
      while |data| < n
        invariant |data| <= n && |data| <= |s|
        invariant data == s[..|data|]
        invariant reader.unread == s[|data|..]
        invariant old(reader.Paced()) ==> reader.Paced()
      {
        var piece := new byte[Min(n - |data|, PIECE)](_ => 0);
        var got := reader.Read(piece, 0, piece.Length);
        if got.None? {
          return Error(Io);
        }
        if got.value == 0 {
          return Error(ConnectionClosed);
        }
        assert piece[..got.value] == s[|data|..][..got.value];
        Advance(s, |data|, got.value);
        data := data + piece[..got.value];
      }
      return Value(data);
    }

    /** Exactly the next `n` unread bytes, or the end-of-stream error with nothing left unread. */
    ghost predicate Filled(n: nat, before: seq<byte>, r: Outcome<seq<byte>>)
      reads reader
    {
      if n <= |before| then r == Value(before[..n]) && reader.unread == before[n..]
      else r == Error(EndError(reader.ending)) && reader.unread == []
    }

    method ReadLineBytes() returns (r: Outcome<seq<byte>>)
      requires Valid()
      modifies this, buf, reader`unread, reader`plan, reader`asked
      ensures Valid() && buf == old(buf)
      ensures match ReadLine(old(Pending()), reader.ending)
        case Done(v, rest) => r == Value(v) && Pending() == rest
        case Fail(e) => r == Error(e) && Pending() == []
      ensures |reader.unread| <= |old(reader.unread)|
      ensures old(reader.Paced()) ==> reader.Paced()
      ensures old(reader.Marked()) ==> reader.Marked()
    {
      hide ReadLine, ChopCr, IndexOf, IsCapacity, PacedAt;
      ghost var s := Pending();
      var line := [];
      while true
        invariant Valid() && buf == old(buf)
        invariant s == line + Pending()
        invariant LF !in line
        invariant |reader.unread| <= |old(reader.unread)|
        invariant old(reader.Paced()) ==> reader.Paced()
        invariant old(reader.Marked()) ==> reader.Marked()
        decreases |reader.unread|
      {
        var pos := IndexOf(buf[..len], LF);
        if pos < len {
          line := TakeLine(line, pos);
          return Value(line);
        }
        line := TakeAll(line);
        var more := ReadMore();
        if more.Error? || more.value == 0 {
          assert Pending() == [];
          assert s == line;
          NoLine(s, reader.ending);
          return Error(if more.Error? then more.error else ConnectionClosed);
        }
      }
    }

    /** The buffer holds the end of the line: take it, with its line feed, and drop a final CR. */
    method TakeLine(line: seq<byte>, pos: nat) returns (r: seq<byte>)
      requires Valid() && LF !in line
      requires pos < len && pos == IndexOf(buf[..len], LF)
      modifies this`len, buf
      ensures Valid()
      ensures ReadLine(line + old(Pending()), reader.ending) == Done(r, Pending())
    {
      LineFound(line + Pending(), line, buf[..len], reader.unread, pos, reader.ending);
      assert buf[..len][..pos] == buf[..pos];
      r := ChopCr(line + buf[..pos]);
      Discard(pos + 1);
    }

    /** Move every buffered byte to the end of `line`. */
    method TakeAll(line: seq<byte>) returns (r: seq<byte>)
      requires Valid() && LF !in line && LF !in buf[..len]
      modifies this`len
      ensures Valid() && len == 0 && LF !in r
      ensures r + Pending() == line + old(Pending())
    {
      hide IsCapacity, Library.Lawful;
      Assoc(line, buf[..len], reader.unread);
      r := line + buf[..len];
      len := 0;
      assert Pending() == reader.unread;
    }

    method ReadChunkedBody() returns (r: Outcome<seq<byte>>)
      requires Valid()
      modifies this, buf, reader`unread, reader`plan, reader`asked
      ensures Valid() && buf == old(buf)
      ensures match ReadChunked(old(Pending()), reader.ending, [])
        case Done(v, rest) => r == Value(v) && Pending() == rest
        case Fail(e) => r == Error(e) && Pending() == ChunkedFailRest(old(Pending()), reader.ending)
      ensures |reader.unread| <= |old(reader.unread)|
      ensures old(reader.Paced()) ==> reader.Paced()
      ensures r.Value? && old(reader.Marked()) && |Pending()| >= reader.pace - 1 ==> reader.Marked()
    {
      hide IsCapacity, PacedAt, ReadChunk, ChunkFailRest;
      ghost var s := Pending();
      var body := [];
      while true
        invariant Valid() && buf == old(buf)
        invariant ReadChunked(s, reader.ending, []) == ReadChunked(Pending(), reader.ending, body)
        invariant ChunkedFailRest(s, reader.ending) == ChunkedFailRest(Pending(), reader.ending)
        invariant |reader.unread| <= |old(reader.unread)|
        invariant old(reader.Paced()) ==> reader.Paced()
        invariant old(reader.Marked()) && |Pending()| >= reader.pace - 1 ==> reader.Marked()
        decreases |Pending()|
      {
        var chunk := ReadOneChunk();
        if chunk.Error? {
          return chunk;
        }
        if chunk.value == [] {
          return Value(body);
        }
        body := body + chunk.value;
      }
    }

    /** A chunk-size line, the data and the line end after them; size zero is the last chunk. */
    method ReadOneChunk() returns (r: Outcome<seq<byte>>)
      requires Valid()
      modifies this, buf, reader`unread, reader`plan, reader`asked
      ensures Valid() && buf == old(buf)
      ensures match ReadChunk(old(Pending()), reader.ending)
        case Done(v, rest) => r == Value(v) && Pending() == rest
        case Fail(e) => r == Error(e) && Pending() == ChunkFailRest(old(Pending()), reader.ending)
      ensures |reader.unread| <= |old(reader.unread)|
      ensures old(reader.Paced()) ==> reader.Paced()
      ensures r.Value? && old(reader.Marked()) && |Pending()| >= reader.pace - 1 ==> reader.Marked()
    {
      hide IsCapacity, PacedAt;
      var sizeLine := ReadLineBytes();
      if sizeLine.Error? {
        return sizeLine;
      }
      var size := ChunkSize(sizeLine.value);
      if size.None? {
        return Error(InvalidContentLength);
      }
      if size.value == 0 {
        assert ReadExact(Pending(), 0, reader.ending) == Done([], Pending());
        var end := ReadLineBytes();
        return if end.Error? then end else Value([]);
      }
      var chunk := ReadExactBytes(size.value);
      if chunk.Error? {
        return chunk;
      }
      var end := ReadLineBytes();
      return if end.Error? then end else chunk;
    }

    method ReadRequestBody(h: Headers) returns (r: Outcome<seq<byte>>)
      requires Valid()
      modifies this, buf, reader`unread, reader`plan, reader`asked
      ensures Valid() && buf == old(buf)
      ensures match ReadBody(h, old(Pending()), reader.ending)
        case Done(v, rest) => r == Value(v) && Pending() == rest
        case Fail(e) => r == Error(e) && Pending() == BodyFailRest(h, old(Pending()), reader.ending)
      ensures |reader.unread| <= |old(reader.unread)|
      ensures old(reader.Paced()) ==> reader.Paced()
      ensures r.Value? && IsChunked(h) && old(reader.Marked()) && |Pending()| >= reader.pace - 1 ==> reader.Marked()
      ensures r.Value? && !IsChunked(h) ==>
        len == old(len) - Min(old(len), |old(Pending())| - |Pending()|)
    {
      hide IsCapacity, PacedAt;
      if IsChunked(h) {
        r := ReadChunkedBody();
        return;
      }
      match GetContentLength(h)
      case Some(n) => r := ReadExactBytes(n);
      case None => r := Value([]);
    }

    /** Drop the header from the buffer and read the body after it. */
    method TakeBody(
      h: Headers, n: nat, ghost capacity: nat, ghost buffered: nat, ghost plan: seq<nat>, ghost paced: bool)
      returns (r: Outcome<seq<byte>>)
      requires Valid() && 0 < n <= len && capacity <= buf.Length
      requires buffered == 0 && plan == [] ==> len == Min(|Pending()|, buf.Length)
      requires paced ==> reader.Paced()
      requires buffered == 0 && paced && |Pending()| - n >= reader.pace ==> len == n
      modifies this, buf, reader`unread, reader`plan, reader`asked
      ensures Valid() && buf == old(buf)
      ensures match ReadBody(h, old(Pending())[n..], reader.ending)
        case Done(v, rest) => r == Value(v) && Pending() == rest
        case Fail(e) => r == Error(e)
      ensures paced ==> reader.Paced()
      ensures r.Value? ==> |Pending()| <= |old(Pending())|
      ensures r.Value? ==>
        Leaves(IsChunked(h), capacity, |old(Pending())|, buffered, plan, paced, reader.pace,
               buf.Length, |Pending()|, len)
    {
      hide IsCapacity, PacedAt, ReadBody, ReadChunked, Library.Lawful;
      ghost var s, seen := Pending(), len;
      Discard(n);
      BodyRest(h, s[n..], reader.ending);
      r := ReadRequestBody(h);
      if r.Value? {
        Leaving(IsChunked(h), capacity, |s|, buffered, plan, paced, reader.pace,
                buf.Length, n, seen, |Pending()|, len, |reader.unread|);
      }
    }

    /** One request; afterwards the unconsumed stream is exactly what follows it. */
    method ParseOneRequest() returns (r: Outcome<Option<Request>>)
      requires Valid()
      modifies this, buf, reader`unread, reader`plan, reader`asked
      ensures Valid() && (buf == old(buf) || fresh(buf))
      ensures match ParseRequest(lib, old(Pending()), reader.ending)
        case Closed => r == Value(None)
        case Got(req, rest) => r == Value(Some(req)) && Pending() == rest
        case Refused(e) => r == Error(e)
      ensures old(reader.Paced()) ==> reader.Paced()
      ensures r.Value? && r.value.Some? ==>
        && buf.Length == Fit(old(buf.Length), HeadLen(lib, old(Pending())))
        && Leaves(IsChunked(r.value.value.head.headers), old(buf.Length), |old(Pending())|, old(len),
                  old(reader.plan), old(reader.Paced()), reader.pace, buf.Length, |Pending()|, len)
    {
      hide IsCapacity, Socket.Paced, ReadBody, ReadHead, Leaves, Library.Lawful;
      ghost var buffered, plan, paced := len, reader.plan, reader.Paced();
      HeadFits(lib, Pending(), reader.ending);
      var head := ParseHeaders();
      match head
      case NoRequest => return Value(None);
      case HeadFail(e) => return Error(e);
      case GotHead(h, n) =>
        var body := TakeBody(h.headers, n, old(buf.Length), buffered, plan, paced);
        if body.Error? {
          return Error(body.error);
        }
        if !lib.validUri(h.uri) {
          return Error(InvalidUri);
        }
        return Value(Some(Request(h, body.value)));
    }
  }

  lemma BodyRest(h: Headers, s: seq<byte>, end: Ending)
    ensures
      var r := ReadBody(h, s, end);
      r.Done? ==> |r.rest| <= |s| && (IsChunked(h) ==> |r.rest| < |s|)
  {
  }

  /**
   * How many bytes after a request are buffered, given the buffer and the plan
   * before it. A body of known length is never read past its end, so only the
   * reads for the header can go too far; the reads for a chunked body always can.
   */
  predicate Leaves(
    chunked: bool, capacity: nat, total: nat, buffered: nat, plan: seq<nat>, paced: bool, pace: nat,
    capacity': nat, rest: nat, len: nat)
  {
    && (!chunked && capacity' <= total - rest ==> len == 0)
    && (!chunked && buffered == 0 && plan == [] && total - rest < capacity' && rest > 0 ==> len > 0)
    && (buffered == 0 && plan == [] && total <= capacity ==> len == rest)
    && (chunked && buffered == 0 && paced && pace == rest + 1 >= 2 ==> len > 0)
  }

  lemma Leaving(
    chunked: bool, capacity: nat, total: nat, buffered: nat, plan: seq<nat>, paced: bool, pace: nat,
    capacity': nat, n: nat, seen: nat, rest: nat, len: nat, unread: nat)
    requires capacity <= capacity' && n <= seen <= capacity' && n <= total
    requires buffered == 0 && plan == [] ==> seen == Min(total, capacity')
    requires rest == len + unread && rest <= total - n && unread <= total - seen
    requires !chunked ==> len == seen - n - Min(seen - n, total - n - rest)
    requires chunked && buffered == 0 && paced && pace == rest + 1 >= 2 ==> unread != rest
    ensures Leaves(chunked, capacity, total, buffered, plan, paced, pace, capacity', rest, len)
  {
  }

  /** An exact read takes the buffered bytes first and the rest from the reader. */
  lemma ExactSplit(buffered: seq<byte>, unread: seq<byte>, n: nat, end: Ending)
    ensures n <= |buffered| ==>
      ReadExact(buffered + unread, n, end) == Done(buffered[..n], (buffered + unread)[n..])
    ensures n > |buffered| && n - |buffered| <= |unread| ==>
      ReadExact(buffered + unread, n, end)
      == Done(buffered + unread[..n - |buffered|], unread[n - |buffered|..])
    ensures n > |buffered| + |unread| ==> ReadExact(buffered + unread, n, end) == Fail(EndError(end))
    ensures (buffered + unread)[|buffered|..] == unread
    ensures buffered[..|buffered|] == buffered
  {
    var s := buffered + unread;
    if n <= |buffered| {
      assert s[..n] == buffered[..n];
    } else if n <= |s| {
      assert s[..n] == buffered + unread[..n - |buffered|];
      assert s[n..] == unread[n - |buffered|..];
    }
  }

  lemma Joined(b: seq<byte>, u: seq<byte>, k: nat)
    requires k <= |u|
    ensures b + u[..k] + u[k..] == b + u
  {
    assert u == u[..k] + u[k..];
    Assoc(b, u[..k], u[k..]);
  }

  /** Two consecutive reads take consecutive pieces. */
  lemma Advance(s: seq<byte>, done: nat, k: nat)
    requires done + k <= |s|
    ensures s[..done] + s[done..][..k] == s[..done + k]
    ensures s[done..][k..] == s[done + k..]
  {
  }

  /**
   * Two parsers on the same stream, filling differently and fragmented
   * differently, return the same body or error and leave the same bytes.
   */
  method BodiesAgree(h: Headers, a: HttpParser, b: HttpParser)
    returns (ra: Outcome<seq<byte>>, rb: Outcome<seq<byte>>)
    requires a.Valid() && b.Valid()
    requires a != b && a.buf != b.buf && a.reader != b.reader
    requires a.filling.Exactly? && b.filling.InPieces?
    requires a.Pending() == b.Pending() && a.reader.ending == b.reader.ending
    modifies a, a.buf, a.reader, b, b.buf, b.reader
    ensures a.Valid() && b.Valid()
    ensures ra == rb && a.Pending() == b.Pending()
    ensures match ReadBody(h, old(a.Pending()), a.reader.ending)
      case Done(v, rest) => ra == Value(v) && a.Pending() == rest
      case Fail(e) => ra == Error(e) && a.Pending() == BodyFailRest(h, old(a.Pending()), a.reader.ending)
  {
    ra := a.ReadRequestBody(h);
    rb := b.ReadRequestBody(h);
  }

  lemma NoLine(s: seq<byte>, end: Ending)
    requires LF !in s
    ensures ReadLine(s, end) == Fail(EndError(end))
  {
    IndexOfAbsent(s, LF);
  }

  /** The line ends at the first line feed, even when its start left the buffer long ago. */
  lemma LineFound(s: seq<byte>, line: seq<byte>, buffered: seq<byte>, unread: seq<byte>, pos: nat,
    end: Ending)
    requires s == line + (buffered + unread)
    requires LF !in line
    requires pos < |buffered| && pos == IndexOf(buffered, LF)
    ensures ReadLine(s, end) == Done(ChopCr(line + buffered[..pos]), (buffered + unread)[pos + 1..])
  {
    var text := line + buffered[..pos];
    var after := [LF] + buffered[pos + 1..];
    var rest := buffered[pos + 1..] + unread;
    assert buffered == buffered[..pos] + after;
    Assoc(buffered[..pos], after, unread);
    Assoc(line, buffered[..pos], after + unread);
    Assoc([LF], buffered[pos + 1..], unread);
    assert LF !in buffered[..pos];
    assert (buffered + unread)[pos + 1..] == rest;
    ReadLineAt(text, rest, end);
  }
}
