/** Bytes, ASCII text and numerals, as the HTTP code reads and prints them, and common lemmas on collections. */
module Bytes {

  type byte = x: int | 0 <= x < 256

  datatype Option<+T> = None | Some(value: T)

  const CR: byte := 13
  const LF: byte := 10
  const SEMICOLON: byte := 59
  const PLUS: byte := 43
  const CRLF: seq<byte> := [CR, LF]

  /** One past the largest value of a 64-bit `usize`. */
  const USIZE_LIMIT: nat := 0x1_0000_0000_0000_0000

  /** The bytes of an ASCII literal. */
  function Ascii(s: string): (r: seq<byte>)
    requires forall c | c in s :: c < 128 as char
    ensures |r| == |s|
    ensures forall i | 0 <= i < |s| :: r[i] == s[i] as int
  {
    seq(|s|, i requires 0 <= i < |s| => CharByte(s, i))
  }

  function CharByte(s: string, i: nat): byte
    requires i < |s|
    requires forall c | c in s :: c < 128 as char
  {
    assert s[i] in s;
    s[i] as int
  }

  function Min(a: nat, b: nat): nat {
    if a <= b then a else b
  }

  /** How often `q` occurs in `s`. */
  function Count(s: seq<nat>, q: nat): nat {
    multiset(s)[q]
  }

  lemma CountAppend(s: seq<nat>, x: nat)
    ensures forall q :: Count(s + [x], q) == Count(s, q) + if x == q then 1 else 0
  {
  }

  function Tail<T>(s: seq<T>): seq<T> {
    if s == [] then [] else s[1..]
  }

  function Concat(parts: seq<seq<byte>>): seq<byte> {
    if parts == [] then [] else parts[0] + Concat(parts[1..])
  }

  /** Fill the next bytes of a buffer whose first `at` bytes are done. */
  method Copy(dst: array<byte>, at: nat, src: seq<byte>)
    requires at + |src| <= dst.Length
    modifies dst
    ensures dst[..at + |src|] == old(dst[..at]) + src
  {
    forall i | 0 <= i < |src| {
      dst[at + i] := src[i];
    }
  }

  lemma Assoc<T>(a: seq<T>, b: seq<T>, c: seq<T>)
    ensures a + b + c == a + (b + c)
  {
  }

  lemma Cancel<T>(a: multiset<T>, b: multiset<T>, x: multiset<T>)
    requires a + x == b + x
    ensures a == b
  {
    assert a == (a + x) - x == (b + x) - x == b;
  }

  lemma SplitAppend<T>(s: seq<T>, t: seq<T>, n: nat)
    requires n <= |s|
    ensures (s + t)[..n] == s[..n]
    ensures (s + t)[n..] == s[n..] + t
  {
  }

  /** The position of the first `b` in `s`, or `|s|` when there is none. */
  function IndexOf(s: seq<byte>, b: byte): (k: nat)
    ensures k <= |s|
    ensures k < |s| ==> s[k] == b
    ensures forall i | 0 <= i < k :: s[i] != b
  {
    IndexFrom(s, b, 0)
  }

  function IndexFrom(s: seq<byte>, b: byte, from: nat): (k: nat)
    requires from <= |s|
    ensures from <= k <= |s|
    ensures k < |s| ==> s[k] == b
    ensures forall i | from <= i < k :: s[i] != b
    decreases |s| - from
  {
    if from == |s| || s[from] == b then from else IndexFrom(s, b, from + 1)
  }

  /** The first occurrence is wherever the byte is seen with none before it. */
  lemma IndexOfIsFirst(s: seq<byte>, b: byte, k: nat)
    requires k < |s| && s[k] == b
    requires forall i | 0 <= i < k :: s[i] != b
    ensures IndexOf(s, b) == k
  {
  }

  /** A byte that is absent has no position. */
  lemma IndexOfAbsent(s: seq<byte>, b: byte)
    requires b !in s
    ensures IndexOf(s, b) == |s|
  {
  }

  function ToLower(b: byte): byte {
    if 65 <= b <= 90 then b + 32 else b
  }

  function Lower(s: seq<byte>): (r: seq<byte>)
    ensures |r| == |s|
    ensures forall i | 0 <= i < |s| :: r[i] == ToLower(s[i])
  {
    seq(|s|, i requires 0 <= i < |s| => ToLower(s[i]))
  }

  ghost predicate OccursAt(s: seq<byte>, sub: seq<byte>, i: int) {
    0 <= i <= |s| - |sub| && s[i..i + |sub|] == sub
  }

  /** Whether `sub` occurs somewhere in `s`. */
  predicate Contains(s: seq<byte>, sub: seq<byte>)
    ensures Contains(s, sub) <==> exists i :: OccursAt(s, sub, i)
  {
    if sub <= s then
      assert OccursAt(s, sub, 0);
      true
    else if s == [] then
      false
    else
      assert forall i :: 1 <= i ==> (OccursAt(s, sub, i) <==> OccursAt(s[1..], sub, i - 1)) by {
        forall i | 1 <= i ensures OccursAt(s, sub, i) <==> OccursAt(s[1..], sub, i - 1) {
          if i <= |s| - |sub| {
            assert s[i..i + |sub|] == s[1..][i - 1..i - 1 + |sub|];
          }
        }
      }
      assert forall j :: OccursAt(s[1..], sub, j) ==> OccursAt(s, sub, j + 1);
      Contains(s[1..], sub)
  }

  /** ASCII white space, as `str::trim` sees it. */
  predicate IsSpace(b: byte) {
    9 <= b <= 13 || b == 32
  }

  function TrimStart(s: seq<byte>): (r: seq<byte>)
    ensures r == [] || !IsSpace(r[0])
  {
    if s != [] && IsSpace(s[0]) then TrimStart(s[1..]) else s
  }

  function TrimEnd(s: seq<byte>): (r: seq<byte>)
    ensures r <= s
    ensures r == [] || !IsSpace(r[|r| - 1])
  {
    if s != [] && IsSpace(s[|s| - 1]) then TrimEnd(s[..|s| - 1]) else s
  }

  function Trim(s: seq<byte>): seq<byte> {
    TrimEnd(TrimStart(s))
  }

  /** Text without white space is untouched by trimming. */
  lemma TrimKeeps(s: seq<byte>)
    requires forall i | 0 <= i < |s| :: !IsSpace(s[i])
    ensures Trim(s) == s
  {
  }

  /** The value of a digit character in the given radix, or `None`. */
  function DigitValue(b: byte, radix: nat): (r: Option<nat>)
    ensures r.Some? ==> r.value < radix && !IsSpace(b) && b != PLUS && b != SEMICOLON
  {
    var v :=
      if 48 <= b <= 57 then b - 48
      else if 97 <= b <= 122 then b - 97 + 10
      else if 65 <= b <= 90 then b - 65 + 10
      else radix;
    if v < radix then Some(v) else None
  }

  predicate IsNumeral(s: seq<byte>, radix: nat) {
    s != [] && forall i | 0 <= i < |s| :: DigitValue(s[i], radix).Some?
  }

  /** The number a string of digits denotes, most significant first. */
  function NumeralValue(s: seq<byte>, radix: nat): nat
    requires forall i | 0 <= i < |s| :: DigitValue(s[i], radix).Some?
  {
    if s == [] then 0
    else
      var high := NumeralValue(s[..|s| - 1], radix);
      Product(high, radix);
      high * radix + DigitValue(s[|s| - 1], radix).value
  }

  lemma Product(a: nat, b: nat)
    ensures a * b >= 0
  {
  }

  /**
   * `usize::from_str_radix`: an optional plus sign, then at least one digit,
   * and a value that fits in 64 bits.
   */
  function ParseUsize(s: seq<byte>, radix: nat): Option<nat> {
    var digits := if s != [] && s[0] == PLUS then s[1..] else s;
    if IsNumeral(digits, radix) && NumeralValue(digits, radix) < USIZE_LIMIT
    then Some(NumeralValue(digits, radix))
    else None
  }

  function DigitByte(d: nat): byte
    requires d < 16
  {
    if d < 10 then 48 + d else 97 + d - 10
  }

  lemma DigitRoundTrip(d: nat, radix: nat)
    requires d < radix <= 16
    ensures DigitValue(DigitByte(d), radix) == Some(d)
  {
  }

  lemma NumeralAppend(s: seq<byte>, b: byte, radix: nat)
    requires forall i | 0 <= i < |s| :: DigitValue(s[i], radix).Some?
    requires DigitValue(b, radix).Some?
    ensures forall i | 0 <= i < |s + [b]| :: DigitValue((s + [b])[i], radix).Some?
    ensures NumeralValue(s + [b], radix) == NumeralValue(s, radix) * radix + DigitValue(b, radix).value
  {
    assert (s + [b])[..|s|] == s;
  }

  /** The shortest numeral of `n`, as `to_string` and `{:x}` print it. */
  function Numeral(n: nat, radix: nat): seq<byte>
    requires 2 <= radix <= 16
  {
    if n < radix then [DigitByte(n)]
    else
      DivModId(n, radix);
      Numeral(n / radix, radix) + [DigitByte(n % radix)]
  }

  lemma DivModId(n: nat, radix: nat)
    requires 2 <= radix
    ensures n == n / radix * radix + n % radix
    ensures 0 <= n % radix < radix
    ensures n >= radix ==> 0 <= n / radix < n
  {
  }

  /** Printing a number and reading it back is the identity. */
  lemma {:induction false} NumeralRoundTrip(n: nat, radix: nat)
    requires 2 <= radix <= 16
    ensures IsNumeral(Numeral(n, radix), radix)
    ensures NumeralValue(Numeral(n, radix), radix) == n
  {
    if n < radix {
      NumeralOne(n, radix);
    } else {
      hide NumeralValue, DigitValue, DigitByte;
      DivModId(n, radix);
      NumeralRoundTrip(n / radix, radix);
      DigitRoundTrip(n % radix, radix);
      NumeralAppend(Numeral(n / radix, radix), DigitByte(n % radix), radix);
    }
  }

  lemma NumeralOne(d: nat, radix: nat)
    requires d < radix <= 16
    ensures IsNumeral([DigitByte(d)], radix) && NumeralValue([DigitByte(d)], radix) == d
  {
    DigitRoundTrip(d, radix);
    NumeralAppend([], DigitByte(d), radix);
    assert [] + [DigitByte(d)] == [DigitByte(d)];
  }
}
