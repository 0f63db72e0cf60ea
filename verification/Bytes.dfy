/** Byte strings, and the text routines of the Go standard library that the modelled code calls on them. */
module Bytes {
  import opened Wrappers

  type byte = b: int | 0 <= b < 256
  type bytes = seq<byte>

  const CR: byte := 13
  const LF: byte := 10
  const CRLF: bytes := [CR, LF]

  /** The bytes of an ASCII literal. */
  function Ascii(s: string): (r: bytes)
    ensures |r| == |s| && forall i :: 0 <= i < |s| && s[i] < '\U{0080}' ==> r[i] == s[i] as int
  {
    seq(|s|, i requires 0 <= i < |s| => (s[i] as int) % 256)
  }

  /** The bytes of all strings together. */
  function TotalLength(parts: seq<bytes>): nat {
    if parts == [] then 0 else TotalLength(parts[..|parts| - 1]) + |parts[|parts| - 1]|
  }

  /** Largest value of Go's int64 (and of int on the 64-bit targets). */
  const MAX_INT64: int := 0x7fff_ffff_ffff_ffff

  // ---- Searching ----

  ghost predicate OccursAt(s: bytes, sep: bytes, i: int) {
    0 <= i && i + |sep| <= |s| && s[i..i + |sep|] == sep
  }

  /** First occurrence of `sep` at or after `from`: bytes.Index and strings.Index. */
  function IndexFrom(s: bytes, sep: bytes, from: nat): (r: Option<nat>)
    requires from <= |s|
    ensures r.Some? ==> from <= r.value && OccursAt(s, sep, r.value)
    ensures forall j :: from <= j && (r.Some? ==> j < r.value) ==> !OccursAt(s, sep, j)
    decreases |s| - from
  {
    if from + |sep| > |s| then None
    else if s[from..from + |sep|] == sep then Some(from)
    else if from == |s| then None
    else IndexFrom(s, sep, from + 1)
  }

  function Index(s: bytes, sep: bytes): (r: Option<nat>)
    ensures r.Some? ==> OccursAt(s, sep, r.value)
    ensures forall j :: 0 <= j && (r.Some? ==> j < r.value) ==> !OccursAt(s, sep, j)
  {
    IndexFrom(s, sep, 0)
  }

  /** bytes.IndexByte and strings.IndexByte. */
  function IndexByte(s: bytes, b: byte): (r: Option<nat>)
    ensures r.Some? ==> r.value < |s| && s[r.value] == b && b !in s[..r.value]
    ensures r.None? ==> b !in s
  {
    if s == [] then None
    else if s[0] == b then Some(0)
    else match IndexByte(s[1..], b)
      case None => None
      case Some(i) => assert s[..i + 1] == [s[0]] + s[1..][..i]; Some(i + 1)
  }

  lemma IndexByteIs(text: bytes, b: byte, i: nat)
    requires i < |text| && text[i] == b && b !in text[..i]
    ensures IndexByte(text, b) == Some(i)
  {
    assert text[i] in text;
    var found := IndexByte(text, b).value;
    assert forall j :: 0 <= j < i ==> text[j] in text[..i];
    assert forall j :: 0 <= j < found ==> text[j] in text[..found];
  }

  // ---- White space ----

  predicate AsciiSpace(b: byte) {
    b == 32 || 9 <= b <= 13
  }

  /** UTF-8 encodings of the two-byte white-space characters U+0085 and U+00A0. */
  predicate WideSpace2(a: byte, b: byte) {
    a == 0xC2 && (b == 0x85 || b == 0xA0)
  }

  /** UTF-8 encodings of U+1680, U+2000..U+200A, U+2028, U+2029, U+202F, U+205F and U+3000. */
  predicate WideSpace3(a: byte, b: byte, c: byte) {
    || (a == 0xE1 && b == 0x9A && c == 0x80)
    || (a == 0xE2 && b == 0x80 && (0x80 <= c <= 0x8A || c == 0xA8 || c == 0xA9 || c == 0xAF))
    || (a == 0xE2 && b == 0x81 && c == 0x9F)
    || (a == 0xE3 && b == 0x80 && c == 0x80)
  }

  /** Bytes taken by the white-space character that `s` starts with, 0 when it starts with none. */
  function LeadingSpace(s: bytes): (n: nat)
    ensures n <= |s|
  {
    if |s| >= 1 && AsciiSpace(s[0]) then 1
    else if |s| >= 2 && WideSpace2(s[0], s[1]) then 2
    else if |s| >= 3 && WideSpace3(s[0], s[1], s[2]) then 3
    else 0
  }

  function TrailingSpace(s: bytes): (n: nat)
    ensures n <= |s|
  {
    var n := |s|;
    if n >= 1 && AsciiSpace(s[n - 1]) then 1
    else if n >= 2 && WideSpace2(s[n - 2], s[n - 1]) then 2
    else if n >= 3 && WideSpace3(s[n - 3], s[n - 2], s[n - 1]) then 3
    else 0
  }

  function TrimLeft(s: bytes): bytes
    decreases |s|
  {
    var n := LeadingSpace(s);
    if n == 0 then s else TrimLeft(s[n..])
  }

  function TrimRight(s: bytes): bytes
    decreases |s|
  {
    var n := TrailingSpace(s);
    if n == 0 then s else TrimRight(s[..|s| - n])
  }

  /** strings.TrimSpace. */
  function TrimSpace(s: bytes): bytes {
    TrimRight(TrimLeft(s))
  }

  // ---- Integers ----

  /** Value of one digit in bases up to 16, both letter cases. */
  function DigitValue(b: byte): (r: Option<nat>)
    ensures r.Some? ==> r.value < 16
  {
    if 48 <= b <= 57 then Some(b - 48)
    else if 97 <= b <= 102 then Some(b - 97 + 10)
    else if 65 <= b <= 70 then Some(b - 65 + 10)
    else None
  }

  predicate IsDigit(b: byte, base: nat) {
    DigitValue(b).Some? && DigitValue(b).value < base
  }

  /** Value of a non-empty digit string, None when it is empty or holds anything else. */
  function DigitsValue(s: bytes, base: nat): (r: Option<nat>)
    ensures r.Some? ==> s != [] && forall i :: 0 <= i < |s| ==> IsDigit(s[i], base)
  {
    if s == [] then None
    else
      var last := s[|s| - 1];
      if !IsDigit(last, base) then None
      else if |s| == 1 then Some(DigitValue(last).value)
      else match DigitsValue(s[..|s| - 1], base)
        case None => None
        case Some(high) => Some(high * base + DigitValue(last).value)
  }

  /** strconv.ParseInt(s, base, 64) for base 10 and 16, and strconv.Atoi on 64-bit targets: None stands for
      either kind of error (syntax or range). */
  function ParseInt(s: bytes, base: nat): (r: Option<int>)
    ensures r.Some? ==> -MAX_INT64 - 1 <= r.value <= MAX_INT64
  {
    var negative := s != [] && s[0] == 45;
    var digits := if s != [] && (s[0] == 43 || s[0] == 45) then s[1..] else s;
    var magnitude := DigitsValue(digits, base);
    if magnitude.None? then None
    else
      var n: int := magnitude.value;
      if negative then (if n > MAX_INT64 + 1 then None else Some(0 - n))
      else if n > MAX_INT64 then None
      else Some(n)
  }

  /** strconv.Itoa for the non-negative counts and lengths the code prints. */
  function Itoa(n: nat): (s: bytes)
    ensures s != [] && forall i :: 0 <= i < |s| ==> 48 <= s[i] <= 57
  {
    if n < 10 then [48 + n] else Itoa(n / 10) + [48 + n % 10]
  }

  /** Reading a printed number gives the number back. */
  lemma {:induction false} DigitsOfItoa(n: nat)
    ensures DigitsValue(Itoa(n), 10) == Some(n)
  {
    if n >= 10 {
      DigitsOfItoa(n / 10);
      assert Itoa(n)[..|Itoa(n)| - 1] == Itoa(n / 10);
    }
  }

  lemma ParseOfItoa(n: nat)
    requires n <= MAX_INT64
    ensures ParseInt(Itoa(n), 10) == Some(n)
  {
    hide DigitsValue, Itoa;
    DigitsOfItoa(n);
  }
}
