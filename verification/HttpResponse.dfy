/**
 * The response printer of both servers and the response framer of the raw
 * benchmark client, with the round trip between them.
 */
module HttpResponse {
  import opened Bytes
  import opened HttpSpec

  type Field = (seq<byte>, seq<byte>)

  datatype Version = Http10 | Http11 | Http2 | Http3 | OtherVersion

  datatype Response = Response(version: Version, status: nat, headers: seq<Field>, body: seq<byte>)

  /** The reason phrases and the UTF-8 check come from libraries. */
  datatype Text = Text(reason: nat -> seq<byte>, utf8: seq<byte> -> bool) {
    ghost predicate Lawful() {
      && (forall status :: IsLineText(reason(status)))
      && (forall s | IsAscii(s) :: utf8(s))
    }
  }

  predicate IsAscii(s: seq<byte>) {
    forall i | 0 <= i < |s| :: s[i] < 128
  }

  /** ASCII text that stays on one line. */
  predicate IsLineText(s: seq<byte>) {
    forall i | 0 <= i < |s| :: s[i] < 128 && s[i] != CR && s[i] != LF
  }

  function VersionText(v: Version): (r: seq<byte>)
    ensures IsLineText(r) && |r| == 8 && r[0] == 72
  {
    match v
    case Http10 => Ascii("HTTP/1.0")
    case Http2 => Ascii("HTTP/2.0")
    case Http3 => Ascii("HTTP/3.0")
    case _ => Ascii("HTTP/1.1")
  }

  predicate HasContentLength(hs: seq<Field>) {
    exists f | f in hs :: f.0 == ContentLength()
  }

  function StatusLine(t: Text, r: Response): seq<byte> {
    VersionText(r.version) + [32] + Numeral(r.status, 10) + [32] + t.reason(r.status)
  }

  function FieldLine(f: Field): seq<byte> {
    f.0 + Ascii(": ") + f.1
  }

  function LengthLine(n: nat): seq<byte> {
    Ascii("Content-Length: ") + Numeral(n, 10)
  }

  function FieldLines(hs: seq<Field>): seq<seq<byte>> {
    if hs == [] then [] else FieldLines(hs[..|hs| - 1]) + [FieldLine(hs[|hs| - 1])]
  }

  /** Every line of the response head, without the line ends. */
  function HeadLines(t: Text, r: Response): seq<seq<byte>> {
    [StatusLine(t, r)] + FieldLines(r.headers) +
    (if HasContentLength(r.headers) then [] else [LengthLine(|r.body|)])
  }

  function Join(lines: seq<seq<byte>>): seq<byte> {
    if lines == [] then [] else lines[0] + (CRLF + Join(lines[1..]))
  }

  function Serialize(t: Text, r: Response): seq<byte> {
    Join(HeadLines(t, r)) + (CRLF + r.body)
  }

  lemma {:induction false} JoinAppend(a: seq<seq<byte>>, b: seq<seq<byte>>)
    ensures Join(a + b) == Join(a) + Join(b)
  {
    if a == [] {
      assert a + b == b;
    } else {
      assert (a + b)[1..] == a[1..] + b;
      JoinAppend(a[1..], b);
      JoinThen(a, Join(b));
    }
  }

  lemma JoinThen(lines: seq<seq<byte>>, tail: seq<byte>)
    requires lines != []
    ensures Join(lines) + tail == lines[0] + (CRLF + (Join(lines[1..]) + tail))
  {
    Assoc(lines[0], CRLF + Join(lines[1..]), tail);
    Assoc(CRLF, Join(lines[1..]), tail);
  }

  lemma JoinOne(line: seq<byte>)
    ensures Join([line]) == line + CRLF
  {
    assert [line][1..] == [];
  }

  /** The printer: it appends piece by piece, and what it prints is the joined head and the body. */
  method SerializeResponse(t: Text, r: Response) returns (buf: seq<byte>)
    ensures buf == Serialize(t, r)
  {
    hide VersionText, Numeral, FieldLine, HasContentLength;
    buf := VersionText(r.version);
    buf := buf + [32];
    buf := buf + Numeral(r.status, 10);
    buf := buf + [32];
    buf := buf + t.reason(r.status);
    buf := buf + CRLF;
    ghost var lines := [StatusLine(t, r)];
    JoinOne(StatusLine(t, r));
    for i := 0 to |r.headers|
      invariant lines == [StatusLine(t, r)] + FieldLines(r.headers[..i])
      invariant buf == Join(lines)
    {
      buf := AppendField(buf, r.headers[i]);
      assert r.headers[..i + 1][..i] == r.headers[..i];
      JoinAppend(lines, [FieldLine(r.headers[i])]);
      lines := lines + [FieldLine(r.headers[i])];
    }
    assert r.headers[..|r.headers|] == r.headers;
    if !HasContentLength(r.headers) {
      JoinAppend(lines, [LengthLine(|r.body|)]);
      JoinOne(LengthLine(|r.body|));
      buf := buf + Ascii("Content-Length: ");
      buf := buf + Numeral(|r.body|, 10);
      buf := buf + CRLF;
      lines := lines + [LengthLine(|r.body|)];
    }
    assert lines == HeadLines(t, r);
    buf := buf + CRLF;
    buf := buf + r.body;
  }

  method AppendField(buf: seq<byte>, f: Field) returns (r: seq<byte>)
    ensures r == buf + Join([FieldLine(f)])
  {
    r := buf + f.0;
    r := r + Ascii(": ");
    r := r + f.1;
    r := r + CRLF;
    JoinOne(FieldLine(f));
  }

  // ---- The framer of the raw client ----

  predicate TerminatorAt(s: seq<byte>, i: int) {
    0 <= i <= |s| - 4 && s[i] == CR && s[i + 1] == LF && s[i + 2] == CR && s[i + 3] == LF
  }

  /** `e` is just past the first blank line of `s`. */
  predicate IsHeaderEnd(s: seq<byte>, e: nat) {
    TerminatorAt(s, e - 4) && forall i | 0 <= i < e - 4 :: !TerminatorAt(s, i)
  }

  lemma TerminatorSlice(s: seq<byte>, i: nat)
    requires i + 4 <= |s|
    ensures TerminatorAt(s, i) <==> s[i..i + 4] == [CR, LF, CR, LF]
  {
    var w := s[i..i + 4];
    assert s[i] == w[0] && s[i + 1] == w[1] && s[i + 2] == w[2] && s[i + 3] == w[3];
    if w[0] == CR && w[1] == LF && w[2] == CR && w[3] == LF {
      assert w == [CR, LF, CR, LF];
    }
  }

  method FindHeaderEnd(data: seq<byte>) returns (r: Option<nat>)
    ensures r.Some? ==> IsHeaderEnd(data, r.value)
    ensures r.None? ==> forall i :: !TerminatorAt(data, i)
  {
    var n := if |data| < 3 then 0 else |data| - 3;
    for i := 0 to n
      invariant forall j | 0 <= j < i :: !TerminatorAt(data, j)
    {
      TerminatorSlice(data, i);
      if data[i..i + 4] == [CR, LF, CR, LF] {
        return Some(i + 4);
      }
    }
    return None;
  }

  function LengthPrefix(): (r: seq<byte>)
    ensures |r| == 15 && r[..14] == ContentLength() && r[14] == 58
  {
    Ascii("content-length:")
  }

  function FirstLine(s: seq<byte>): seq<byte> {
    var k := IndexOf(s, LF);
    if k == |s| then s
    else if k > 0 && s[k - 1] == CR then s[..k - 1]
    else s[..k]
  }

  function AfterFirstLine(s: seq<byte>): (r: seq<byte>)
    ensures s != [] ==> |r| < |s|
  {
    var k := IndexOf(s, LF);
    if k == |s| then [] else s[k + 1..]
  }

  /** The value on the first line that names Content-Length in any case, if it is a number. */
  function LengthInLines(s: seq<byte>): Option<nat>
    decreases |s|
  {
    if s == [] then None
    else if LengthPrefix() <= Lower(FirstLine(s)) then
      ParseUsize(Trim(Lower(FirstLine(s))[15..]), 10)
    else LengthInLines(AfterFirstLine(s))
  }

  function ParseContentLength(t: Text, head: seq<byte>): Option<nat> {
    if t.utf8(head) then LengthInLines(head) else None
  }

  // ---- Round trip ----

  /** A response as the http crate lets a handler build it, restricted to ASCII fields. */
  predicate Printable(r: Response) {
    && 100 <= r.status <= 999
    && |r.body| < USIZE_LIMIT
    && forall f | f in r.headers :: PrintableField(f)
  }

  /** A field name is non-empty and holds no colon; neither part breaks the line. */
  predicate PrintableField(f: Field) {
    && IsLineText(f.0) && IsLineText(f.1)
    && f.0 != []
    && (forall i | 0 <= i < |f.0| :: f.0[i] != 58 && f.0[i] == ToLower(f.0[i]))
  }

  predicate HeadLine(s: seq<byte>) {
    s != [] && IsLineText(s)
  }

  lemma NumeralIsLineText(n: nat)
    ensures HeadLine(Numeral(n, 10))
  {
    NumeralRoundTrip(n, 10);
  }

  lemma {:induction false} FieldLinesAre(hs: seq<Field>)
    requires forall f | f in hs :: PrintableField(f)
    ensures forall i | 0 <= i < |FieldLines(hs)| :: HeadLine(FieldLines(hs)[i])
    ensures !HasContentLength(hs) ==>
      forall i | 0 <= i < |FieldLines(hs)| :: !(LengthPrefix() <= Lower(FieldLines(hs)[i]))
  {
    if hs != [] {
      var init := hs[..|hs| - 1];
      assert forall f | f in init :: f in hs;
      FieldLinesAre(init);
      var f := hs[|hs| - 1];
      assert f in hs;
      FieldLineIs(f);
      assert !HasContentLength(hs) ==> !HasContentLength(init);
    }
  }

  /** Only a field named Content-Length prints a line the framer takes for one. */
  lemma FieldLineIs(f: Field)
    requires PrintableField(f)
    ensures HeadLine(FieldLine(f))
    ensures f.0 != ContentLength() ==> !(LengthPrefix() <= Lower(FieldLine(f)))
  {
    var line := FieldLine(f);
    var low := Lower(line);
    assert line[|f.0|] == 58;
    if |f.0| > 14 {
      assert low[14] == f.0[14] != LengthPrefix()[14];
    } else if |f.0| < 14 {
      assert low[|f.0|] == 58 != ContentLength()[|f.0|] == LengthPrefix()[..14][|f.0|];
    } else {
      assert low[..14] == f.0;
      assert LengthPrefix() <= low ==> low[..14] == LengthPrefix()[..14];
    }
  }

  lemma StatusLineIs(t: Text, r: Response)
    requires t.Lawful() && Printable(r)
    ensures HeadLine(StatusLine(t, r))
    ensures !(LengthPrefix() <= Lower(StatusLine(t, r)))
  {
    NumeralIsLineText(r.status);
    assert StatusLine(t, r)[0] == 72;
    assert Lower(StatusLine(t, r))[0] == 104;
    assert LengthPrefix()[..14][0] == 99;
  }

  lemma TrimLeadingSpace(s: seq<byte>)
    requires forall i | 0 <= i < |s| :: !IsSpace(s[i])
    ensures Trim([32] + s) == s
  {
    assert ([32] + s)[1..] == s;
    assert TrimStart([32] + s) == TrimStart(s);
    TrimKeeps(s);
  }

  lemma LengthNameLower()
    ensures HeadLine(Ascii("Content-Length: "))
    ensures Lower(Ascii("Content-Length: ")) == LengthPrefix() + [32]
  {
  }

  lemma LowerAppend(a: seq<byte>, b: seq<byte>)
    ensures Lower(a + b) == Lower(a) + Lower(b)
  {
  }

  lemma DigitsLower(n: nat)
    ensures Lower(Numeral(n, 10)) == Numeral(n, 10)
  {
    NumeralRoundTrip(n, 10);
  }

  lemma LengthLineLower(n: nat)
    ensures HeadLine(LengthLine(n))
    ensures Lower(LengthLine(n)) == LengthPrefix() + [32] + Numeral(n, 10)
  {
    hide Lower, Numeral, LengthPrefix;
    NumeralIsLineText(n);
    LengthNameLower();
    DigitsLower(n);
    LowerAppend(Ascii("Content-Length: "), Numeral(n, 10));
  }

  lemma LengthLineIs(n: nat)
    requires n < USIZE_LIMIT
    ensures HeadLine(LengthLine(n))
    ensures LengthPrefix() <= Lower(LengthLine(n))
    ensures ParseUsize(Trim(Lower(LengthLine(n))[15..]), 10) == Some(n)
  {
    var digits := Numeral(n, 10);
    LengthLineLower(n);
    NumeralRoundTrip(n, 10);
    assert Lower(LengthLine(n))[15..] == [32] + digits;
    TrimLeadingSpace(digits);
  }

  lemma {:induction false} JoinIsAscii(lines: seq<seq<byte>>)
    requires forall i | 0 <= i < |lines| :: HeadLine(lines[i])
    ensures IsAscii(Join(lines))
  {
    if lines != [] {
      JoinIsAscii(lines[1..]);
    }
  }

  /** A head of non-empty lines has no blank line before its own. */
  lemma {:induction false} NoEarlyTerminator(lines: seq<seq<byte>>, tail: seq<byte>, i: nat)
    requires forall j | 0 <= j < |lines| :: HeadLine(lines[j])
    requires lines != []
    requires i < |Join(lines)| - 2
    ensures !TerminatorAt(Join(lines) + (CRLF + tail), i)
    decreases |lines|
  {
    var s := Join(lines) + (CRLF + tail);
    var first := lines[0];
    var rest := lines[1..];
    var s' := Join(rest) + (CRLF + tail);
    JoinThen(lines, CRLF + tail);
    assert s == first + (CRLF + s');
    if i < |first| {
      assert s[i] == first[i] != CR;
    } else if i == |first| {
      assert rest != [];
      assert s[i + 2] == s'[0] == rest[0][0] != CR;
    } else if i == |first| + 1 {
      assert s[i] == LF;
    } else {
      var k := i - |first| - 2;
      NoEarlyTerminator(rest, tail, k);
      assert s[i..i + 4] == s'[k..k + 4];
      TerminatorSlice(s, i);
      TerminatorSlice(s', k);
    }
  }

  lemma {:induction false} JoinEnds(lines: seq<seq<byte>>)
    requires lines != []
    ensures |Join(lines)| >= 2
    ensures Join(lines)[|Join(lines)| - 2..] == CRLF
  {
    if |lines| == 1 {
      assert lines == [lines[0]];
      JoinOne(lines[0]);
    } else {
      JoinEnds(lines[1..]);
    }
  }

  lemma HeaderEndOf(lines: seq<seq<byte>>, body: seq<byte>)
    requires lines != []
    requires forall i | 0 <= i < |lines| :: HeadLine(lines[i])
    ensures IsHeaderEnd(Join(lines) + (CRLF + body), |Join(lines)| + 2)
  {
    JoinEnds(lines);
    var head := Join(lines);
    var s := head + (CRLF + body);
    var k := |head| - 2;
    assert s[k] == head[k..][0] && s[k + 1] == head[k..][1];
    forall i | 0 <= i < k ensures !TerminatorAt(s, i) {
      NoEarlyTerminator(lines, body, i);
    }
  }

  lemma FirstLineOf(line: seq<byte>, rest: seq<byte>)
    requires IsLineText(line)
    ensures FirstLine(line + (CRLF + rest)) == line
    ensures AfterFirstLine(line + (CRLF + rest)) == rest
  {
    var s := line + (CRLF + rest);
    assert forall i | 0 <= i < |line| :: s[i] == line[i];
    IndexOfIsFirst(s, LF, |line| + 1);
  }

  lemma LengthStep(line: seq<byte>, rest: seq<byte>)
    requires HeadLine(line)
    ensures LengthInLines(line + (CRLF + rest)) ==
      if LengthPrefix() <= Lower(line) then ParseUsize(Trim(Lower(line)[15..]), 10)
      else LengthInLines(rest)
  {
    FirstLineOf(line, rest);
  }

  lemma {:induction false} LengthInHead(lines: seq<seq<byte>>, k: nat, tail: seq<byte>)
    requires k < |lines|
    requires forall i | 0 <= i <= k :: HeadLine(lines[i])
    requires forall i | 0 <= i < k :: !(LengthPrefix() <= Lower(lines[i]))
    requires LengthPrefix() <= Lower(lines[k])
    ensures LengthInLines(Join(lines) + tail) == ParseUsize(Trim(Lower(lines[k])[15..]), 10)
    decreases k
  {
    hide LengthInLines, Lower, Trim, ParseUsize, LengthPrefix, HeadLine, Join;
    var rest := Join(lines[1..]) + tail;
    JoinThen(lines, tail);
    LengthStep(lines[0], rest);
    if k > 0 {
      assert forall i | 0 <= i < k :: lines[1..][i] == lines[i + 1];
      LengthInHead(lines[1..], k - 1, tail);
    }
  }

  /** Where the body starts, and how long the head is. */
  function BodyStart(t: Text, r: Response): nat {
    |Join(HeadLines(t, r))| + 2
  }

  lemma HeadLinesAre(t: Text, r: Response)
    requires t.Lawful() && Printable(r)
    ensures HeadLines(t, r) != []
    ensures forall i | 0 <= i < |HeadLines(t, r)| :: HeadLine(HeadLines(t, r)[i])
    ensures !HasContentLength(r.headers) ==>
      var k := |HeadLines(t, r)| - 1;
      HeadLines(t, r)[k] == LengthLine(|r.body|) &&
      forall i | 0 <= i < k :: !(LengthPrefix() <= Lower(HeadLines(t, r)[i]))
  {
    StatusLineIs(t, r);
    FieldLinesAre(r.headers);
    LengthLineIs(|r.body|);
  }

  /** The length the framer reads from the head of a printed response. */
  lemma HeadLength(t: Text, r: Response)
    requires t.Lawful() && Printable(r) && !HasContentLength(r.headers)
    ensures ParseContentLength(t, Join(HeadLines(t, r)) + CRLF) == Some(|r.body|)
  {
    var lines := HeadLines(t, r);
    HeadLinesAre(t, r);
    JoinIsAscii(lines);
    assert IsAscii(Join(lines) + CRLF);
    LengthLineIs(|r.body|);
    LengthInHead(lines, |lines| - 1, CRLF);
  }

  lemma WireSplit(head: seq<byte>, body: seq<byte>, extra: seq<byte>)
    ensures
      var wire := head + (CRLF + body) + extra;
      wire == head + (CRLF + (body + extra)) &&
      wire[..|head| + 2] == head + CRLF &&
      wire[|head| + 2..] == body + extra
  {
    Assoc(head, CRLF + body, extra);
    Assoc(CRLF, body, extra);
    Assoc(head, CRLF, body + extra);
    SplitAppend(head + CRLF, body + extra, |head| + 2);
  }

  /**
   * For every printable response without its own Content-Length, whatever
   * follows on the wire, the framer finds exactly the body start and reads
   * exactly the body length.
   */
  lemma FramerRoundTrip(t: Text, r: Response, extra: seq<byte>)
    requires t.Lawful() && Printable(r) && !HasContentLength(r.headers)
    ensures
      var wire := Serialize(t, r) + extra;
      var e := BodyStart(t, r);
      IsHeaderEnd(wire, e) &&
      ParseContentLength(t, wire[..e]) == Some(|r.body|) &&
      wire[e..] == r.body + extra &&
      |Serialize(t, r)| == e + |r.body|
  {
    hide HeadLine, HeadLines, LengthInLines, ParseContentLength, Printable;
    var lines := HeadLines(t, r);
    HeadLinesAre(t, r);
    WireSplit(Join(lines), r.body, extra);
    HeaderEndOf(lines, r.body + extra);
    HeadLength(t, r);
  }

  lemma HeaderEndUnique(s: seq<byte>, a: nat, b: nat)
    requires IsHeaderEnd(s, a) && IsHeaderEnd(s, b)
    ensures a == b
  {
  }

  // ---- What a printed head says ----

  /** The printed response starts with the version, the status in decimal and a space after each. */
  lemma StatusReadBack(t: Text, r: Response)
    ensures VersionText(r.version) + Ascii(" ") + Numeral(r.status, 10) + Ascii(" ") <= Serialize(t, r)
    ensures r.version == Http10 ==> VersionText(r.version) == Ascii("HTTP/1.0")
    ensures r.version == Http11 || r.version == OtherVersion ==> VersionText(r.version) == Ascii("HTTP/1.1")
    ensures r.version == Http2 ==> VersionText(r.version) == Ascii("HTTP/2.0")
    ensures r.version == Http3 ==> VersionText(r.version) == Ascii("HTTP/3.0")
    ensures r.status < USIZE_LIMIT ==> ParseUsize(Numeral(r.status, 10), 10) == Some(r.status)
  {
    NumeralRoundTrip(r.status, 10);
    assert DigitValue(Numeral(r.status, 10)[0], 10).Some?;
    var start := VersionText(r.version) + [32] + Numeral(r.status, 10) + [32];
    assert Ascii(" ") == [32];
    assert StatusLine(t, r) == start + t.reason(r.status);
    var lines := HeadLines(t, r);
    assert lines[0] == StatusLine(t, r);
    JoinThen(lines, CRLF + r.body);
    assert start <= lines[0] <= Serialize(t, r);
  }

  /** How many of the lines the framer takes for a Content-Length. */
  function LengthLines(lines: seq<seq<byte>>): nat {
    if lines == [] then 0
    else LengthLines(lines[..|lines| - 1]) + if LengthPrefix() <= Lower(lines[|lines| - 1]) then 1 else 0
  }

  function LengthFields(hs: seq<Field>): nat {
    if hs == [] then 0
    else LengthFields(hs[..|hs| - 1]) + if hs[|hs| - 1].0 == Ascii("content-length") then 1 else 0
  }

  lemma {:induction false} LengthLinesAppend(a: seq<seq<byte>>, b: seq<seq<byte>>)
    ensures LengthLines(a + b) == LengthLines(a) + LengthLines(b)
  {
    if b == [] {
      assert a + b == a;
    } else {
      var n := |b| - 1;
      assert (a + b)[..|a| + n] == a + b[..n];
      LengthLinesAppend(a, b[..n]);
    }
  }

  lemma {:induction false} LengthLinesOfFields(hs: seq<Field>)
    requires forall f | f in hs :: PrintableField(f)
    ensures LengthLines(FieldLines(hs)) == LengthFields(hs)
    ensures HasContentLength(hs) <==> LengthFields(hs) > 0
  {
    if hs != [] {
      var n := |hs| - 1;
      LengthLinesOfFields(hs[..n]);
      OneFieldLine(hs[n]);
      LengthLinesAppend(FieldLines(hs[..n]), [FieldLine(hs[n])]);
      assert LengthLines([FieldLine(hs[n])]) == LengthFields([hs[n]]);
      assert HasContentLength(hs) <==> HasContentLength(hs[..n]) || hs[n].0 == ContentLength();
    }
  }

  lemma OneFieldLine(f: Field)
    requires PrintableField(f)
    ensures LengthPrefix() <= Lower(FieldLine(f)) <==> f.0 == Ascii("content-length")
    ensures LengthLines([FieldLine(f)]) == LengthFields([f]) == if f.0 == Ascii("content-length") then 1 else 0
  {
    FieldLineIs(f);
    if f.0 == Ascii("content-length") {
      var line := FieldLine(f);
      forall i | 0 <= i < 15 ensures Lower(line)[i] == LengthPrefix()[i] {
        if i < 14 {
          assert line[i] == f.0[i] && LengthPrefix()[..14][i] == ContentLength()[i];
        } else {
          assert line[14] == Ascii(": ")[0];
        }
      }
    }
    assert [FieldLine(f)][..0] == [] && [f][..0] == [];
  }

  /** The handler's own Content-Length fields are printed and no other; without one exactly one is added. */
  lemma LengthPrintedOnce(t: Text, r: Response)
    requires t.Lawful() && Printable(r)
    ensures LengthLines(HeadLines(t, r)) == if HasContentLength(r.headers) then LengthFields(r.headers) else 1
  {
    var status, fields := [StatusLine(t, r)], FieldLines(r.headers);
    StatusLineIs(t, r);
    LengthLineIs(|r.body|);
    LengthLinesOfFields(r.headers);
    LengthLinesAppend(status, fields);
    assert status[..0] == [];
    assert LengthLines(status) == 0;
    if HasContentLength(r.headers) {
      assert HeadLines(t, r) == status + fields;
    } else {
      var added := [LengthLine(|r.body|)];
      assert added[..0] == [];
      assert LengthLines(added) == 1;
      LengthLinesAppend(status + fields, added);
    }
  }

  lemma {:induction false} FieldLineAt(hs: seq<Field>, k: nat)
    requires k < |hs|
    ensures |FieldLines(hs)| == |hs| && FieldLines(hs)[k] == FieldLine(hs[k])
  {
    var n := |hs| - 1;
    if k < n {
      FieldLineAt(hs[..n], k);
    } else if n > 0 {
      FieldLineAt(hs[..n], 0);
    }
  }

  lemma OwnNameLower()
    ensures Lower(Ascii("content-length") + Ascii(": ")) == LengthPrefix() + [32]
  {
  }

  lemma OwnLengthLine(f: Field, n: nat)
    requires f.0 == Ascii("content-length") && f.1 == Numeral(n, 10) && n < USIZE_LIMIT
    ensures LengthPrefix() <= Lower(FieldLine(f))
    ensures ParseUsize(Trim(Lower(FieldLine(f))[15..]), 10) == Some(n)
  {
    hide Lower, Numeral, LengthPrefix, Trim, DigitValue, NumeralValue;
    var digits := Numeral(n, 10);
    OwnNameLower();
    DigitsLower(n);
    LowerAppend(f.0 + Ascii(": "), digits);
    Assoc(LengthPrefix(), [32], digits);
    SplitAppend(LengthPrefix(), [32] + digits, 15);
    LengthValue(n);
  }

  lemma LengthValue(n: nat)
    requires n < USIZE_LIMIT
    ensures ParseUsize(Trim([32] + Numeral(n, 10)), 10) == Some(n)
  {
    var digits := Numeral(n, 10);
    NumeralRoundTrip(n, 10);
    TrimLeadingSpace(digits);
    assert DigitValue(digits[0], 10).Some?;
  }

  /** With the handler's own Content-Length the framer reads that one, the first if there are several. */
  lemma FramerOwnLength(t: Text, r: Response, k: nat, n: nat, extra: seq<byte>)
    requires t.Lawful() && Printable(r) && k < |r.headers| && n < USIZE_LIMIT
    requires r.headers[k] == (Ascii("content-length"), Numeral(n, 10))
    requires forall j | 0 <= j < k :: r.headers[j].0 != Ascii("content-length")
    ensures
      var wire := Serialize(t, r) + extra;
      var e := BodyStart(t, r);
      IsHeaderEnd(wire, e) && ParseContentLength(t, wire[..e]) == Some(n) && wire[e..] == r.body + extra
  {
    hide HeadLine, HeadLines, LengthInLines, ParseContentLength, Printable, Serialize, Join, IsHeaderEnd, Numeral;
    var lines := HeadLines(t, r);
    HeadLinesAre(t, r);
    OwnHeadLength(t, r, k, n);
    HeaderEndOf(lines, r.body + extra);
    WireSplit(Join(lines), r.body, extra);
    SerializeIs(t, r);
  }

  lemma OwnHeadLength(t: Text, r: Response, k: nat, n: nat)
    requires t.Lawful() && Printable(r) && k < |r.headers| && n < USIZE_LIMIT
    requires r.headers[k] == (Ascii("content-length"), Numeral(n, 10))
    requires forall j | 0 <= j < k :: r.headers[j].0 != Ascii("content-length")
    ensures ParseContentLength(t, Join(HeadLines(t, r)) + CRLF) == Some(n)
  {
    hide LengthInLines, Join, HeadLines, Printable, Numeral;
    var lines := HeadLines(t, r);
    HeadLinesAre(t, r);
    JoinIsAscii(lines);
    OwnLengthFound(t, r, k, n);
    LengthInHead(lines, k + 1, CRLF);
    assert IsAscii(Join(lines) + CRLF);
  }

  lemma SerializeIs(t: Text, r: Response)
    ensures Serialize(t, r) == Join(HeadLines(t, r)) + (CRLF + r.body)
  {
  }

  lemma OwnLengthFound(t: Text, r: Response, k: nat, n: nat)
    requires t.Lawful() && Printable(r) && k < |r.headers| && n < USIZE_LIMIT
    requires r.headers[k] == (Ascii("content-length"), Numeral(n, 10))
    requires forall j | 0 <= j < k :: r.headers[j].0 != Ascii("content-length")
    ensures
      var lines := HeadLines(t, r);
      && k + 1 < |lines| && LengthPrefix() <= Lower(lines[k + 1])
      && ParseUsize(Trim(Lower(lines[k + 1])[15..]), 10) == Some(n)
      && forall i | 0 <= i <= k :: !(LengthPrefix() <= Lower(lines[i]))
  {
    hide Printable, PrintableField, LengthPrefix, Trim, ParseUsize, FieldLine, StatusLine, Text.Lawful;
    var lines := HeadLines(t, r);
    PrintableAt(r, k);
    StatusLineIs(t, r);
    FieldLineAt(r.headers, k);
    OwnLengthLine(r.headers[k], n);
    assert lines[k + 1] == FieldLines(r.headers)[k];
    forall i | 0 <= i <= k ensures !(LengthPrefix() <= Lower(lines[i])) {
      if i > 0 {
        FieldLineAt(r.headers, i - 1);
        PrintableAt(r, i - 1);
        OneFieldLine(r.headers[i - 1]);
        assert lines[i] == FieldLines(r.headers)[i - 1];
      }
    }
  }

  lemma PrintableAt(r: Response, k: nat)
    requires Printable(r) && k < |r.headers|
    ensures PrintableField(r.headers[k])
  {
    assert r.headers[k] in r.headers;
  }
}
