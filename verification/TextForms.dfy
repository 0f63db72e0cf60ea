/** What trimming and number reading mean: the white-space characters of Unicode, and place values. */
module TextForms {
  import opened Wrappers
  import opened Bytes

  // ---- White space ----

  /** The code points with the property White_Space. */
  ghost predicate IsSpacePoint(u: nat) {
    || 0x09 <= u <= 0x0D || u == 0x20 || u == 0x85 || u == 0xA0 || u == 0x1680 || 0x2000 <= u <= 0x200A
    || u == 0x2028 || u == 0x2029 || u == 0x202F || u == 0x205F || u == 0x3000
  }

  /** The UTF-8 encoding of a code point of at most 16 bits (section 3 of RFC 3629). */
  function Utf8(u: nat): bytes
    requires u < 0x1_0000
  {
    if u < 0x80 then [u]
    else if u < 0x800 then [0xC0 + u / 64, 0x80 + u % 64]
    else [0xE0 + u / 4096, 0x80 + u / 64 % 64, 0x80 + u % 64]
  }

  ghost predicate IsSpace(c: bytes) {
    exists u: nat :: u < 0x1_0000 && IsSpacePoint(u) && c == Utf8(u)
  }

  /** Zero or more white-space characters. */
  ghost predicate Blank(s: bytes)
    decreases |s|
  {
    s == [] || exists n :: 0 < n <= |s| && IsSpace(s[..n]) && Blank(s[n..])
  }

  ghost predicate StartsBlank(s: bytes) {
    exists n :: 0 < n <= |s| && IsSpace(s[..n])
  }

  ghost predicate EndsBlank(s: bytes) {
    exists n :: 0 <= n < |s| && IsSpace(s[n..])
  }

  /** Text without white space around it. */
  ghost predicate Trimmed(s: bytes) {
    !StartsBlank(s) && !EndsBlank(s)
  }

  ghost predicate SpaceBytes(c: bytes) {
    || (|c| == 1 && AsciiSpace(c[0]))
    || (|c| == 2 && WideSpace2(c[0], c[1]))
    || (|c| == 3 && WideSpace3(c[0], c[1], c[2]))
  }

  lemma Encodes(c: bytes, u: nat)
    requires u < 0x1_0000 && IsSpacePoint(u) && c == Utf8(u)
    ensures IsSpace(c)
  {}

  lemma PointBytes(u: nat)
    requires u < 0x1_0000 && IsSpacePoint(u)
    ensures SpaceBytes(Utf8(u))
  {}

  lemma BytesPoint(c: bytes)
    requires SpaceBytes(c)
    ensures IsSpace(c)
  {
    var a: int, b: int := c[0], c[|c| - 1];
    if |c| == 3 {
      var middle: int := c[1];
      Encodes(c, (a - 0xE0) * 4096 + (middle - 0x80) * 64 + b - 0x80);
    } else {
      Encodes(c, b);
    }
  }

  lemma SpaceIs(c: bytes)
    ensures IsSpace(c) <==> SpaceBytes(c)
  {
    hide SpaceBytes, Utf8, IsSpacePoint;
    if IsSpace(c) {
      var u: nat :| u < 0x1_0000 && IsSpacePoint(u) && c == Utf8(u);
      PointBytes(u);
    } else if SpaceBytes(c) {
      BytesPoint(c);
    }
  }

  lemma LeadingIs(s: bytes)
    ensures LeadingSpace(s) > 0 <==> StartsBlank(s)
    ensures LeadingSpace(s) > 0 ==> IsSpace(s[..LeadingSpace(s)])
    ensures forall n :: 0 < n <= |s| && IsSpace(s[..n]) ==> n == LeadingSpace(s)
  {
    hide IsSpace;
    var n := LeadingSpace(s);
    SpaceIs(s[..n]);
    forall k | 0 < k <= |s| && IsSpace(s[..k]) ensures k == n {
      SpaceIs(s[..k]);
    }
  }

  lemma TrailingIs(s: bytes)
    ensures TrailingSpace(s) > 0 <==> EndsBlank(s)
    ensures TrailingSpace(s) > 0 ==> IsSpace(s[|s| - TrailingSpace(s)..])
    ensures forall n :: 0 <= n < |s| && IsSpace(s[n..]) ==> n == |s| - TrailingSpace(s)
  {
    hide IsSpace;
    var n := TrailingSpace(s);
    SpaceIs(s[|s| - n..]);
    forall k | 0 <= k < |s| && IsSpace(s[k..]) ensures k == |s| - n {
      SpaceIs(s[k..]);
    }
  }

  lemma BlankAfter(c: bytes, s: bytes)
    requires IsSpace(c) && Blank(s)
    ensures Blank(c + s)
  {
    SpaceIs(c);
    assert (c + s)[..|c|] == c && (c + s)[|c|..] == s;
  }

  lemma {:induction false} BlankConcat(a: bytes, b: bytes)
    requires Blank(a) && Blank(b)
    ensures Blank(a + b)
    decreases |a|
  {
    hide IsSpace;
    if a == [] {
      assert a + b == b;
    } else {
      var n :| 0 < n <= |a| && IsSpace(a[..n]) && Blank(a[n..]);
      BlankConcat(a[n..], b);
      BlankAfter(a[..n], a[n..] + b);
      assert a[..n] + (a[n..] + b) == a + b;
    }
  }

  lemma OneBlank(c: bytes)
    requires IsSpace(c)
    ensures Blank(c)
  {
    SpaceIs(c);
    BlankAfter(c, []);
    assert c + [] == c;
  }

  /** White space ends with a character too. */
  lemma {:induction false} BlankEnd(s: bytes) returns (n: nat)
    requires Blank(s) && s != []
    ensures n < |s| && IsSpace(s[n..]) && Blank(s[..n])
    decreases |s|
  {
    hide IsSpace;
    var k :| 0 < k <= |s| && IsSpace(s[..k]) && Blank(s[k..]);
    if k == |s| {
      n := 0;
      assert s[..k] == s && s[0..] == s && s[..0] == [];
    } else {
      n := BlankEnd(s[k..]);
      BlankAfter(s[..k], s[k..][..n]);
      assert s[..k] + s[k..][..n] == s[..k + n] && s[k..][n..] == s[k + n..];
      n := k + n;
    }
  }

  lemma {:induction false} TrimLeftSplits(s: bytes) returns (left: bytes)
    ensures Blank(left) && s == left + TrimLeft(s) && !StartsBlank(TrimLeft(s))
    decreases |s|
  {
    hide IsSpace, LeadingSpace;
    LeadingIs(s);
    var n := LeadingSpace(s);
    if n == 0 {
      left := [];
    } else {
      left := TrimLeftSplits(s[n..]);
      BlankAfter(s[..n], left);
      left := s[..n] + left;
    }
  }

  lemma {:induction false} TrimRightSplits(s: bytes) returns (right: bytes)
    ensures Blank(right) && s == TrimRight(s) + right && !EndsBlank(TrimRight(s))
    decreases |s|
  {
    hide IsSpace, TrailingSpace;
    TrailingIs(s);
    var n := TrailingSpace(s);
    if n == 0 {
      right := [];
    } else {
      right := TrimRightSplits(s[..|s| - n]);
      OneBlank(s[|s| - n..]);
      BlankConcat(right, s[|s| - n..]);
      right := right + s[|s| - n..];
    }
  }

  lemma {:induction false} TrimLeftOf(left: bytes, rest: bytes)
    requires Blank(left) && !StartsBlank(rest)
    ensures TrimLeft(left + rest) == rest
    decreases |left|
  {
    hide IsSpace, LeadingSpace;
    LeadingIs(left + rest);
    if left == [] {
      assert left + rest == rest;
    } else {
      var n :| 0 < n <= |left| && IsSpace(left[..n]) && Blank(left[n..]);
      assert (left + rest)[..n] == left[..n] && (left + rest)[n..] == left[n..] + rest;
      TrimLeftOf(left[n..], rest);
    }
  }

  lemma {:induction false} TrimRightOf(rest: bytes, right: bytes)
    requires Blank(right) && !EndsBlank(rest)
    ensures TrimRight(rest + right) == rest
    decreases |right|
  {
    hide IsSpace, TrailingSpace;
    var all := rest + right;
    TrailingIs(all);
    if right == [] {
      assert all == rest;
    } else {
      var n := BlankEnd(right);
      assert all[|rest| + n..] == right[n..] && all[..|rest| + n] == rest + right[..n];
      TrimRightOf(rest, right[..n]);
    }
  }

  /** No character reaches from text into the white space after it. */
  lemma NoStraddle(core: bytes, right: bytes)
    requires core != [] && !StartsBlank(core) && Blank(right)
    ensures !StartsBlank(core + right)
  {
    hide IsSpace;
    var all := core + right;
    forall n | 0 < n <= |all| ensures !IsSpace(all[..n]) {
      if n <= |core| {
        assert all[..n] == core[..n];
      } else {
        var k :| 0 < k <= |right| && IsSpace(right[..k]) && Blank(right[k..]);
        SpaceIs(all[..n]);
        SpaceIs(right[..k]);
        assert right[..k][0] == right[0] && all[..n][|core|] == right[0];
      }
    }
  }

  /** Trimming takes the white space off both ends. */
  lemma TrimSpaceOf(left: bytes, core: bytes, right: bytes)
    requires Blank(left) && Trimmed(core) && Blank(right)
    ensures TrimSpace(left + core + right) == core
  {
    hide IsSpace, TrimLeft, TrimRight;
    if core == [] {
      BlankConcat(left, right);
      TrimLeftOf(left + right, []);
      TrimRightOf([], []);
      assert left + core + right == left + right + [];
    } else {
      NoStraddle(core, right);
      assert left + core + right == left + (core + right);
      TrimLeftOf(left, core + right);
      TrimRightOf(core, right);
    }
  }

  /** Trimming takes off nothing else, and leaves no white space at either end. */
  lemma TrimSpaceSplits(s: bytes) returns (left: bytes, right: bytes)
    ensures Blank(left) && Blank(right) && Trimmed(TrimSpace(s)) && s == left + TrimSpace(s) + right
  {
    hide IsSpace, Blank, TrimLeft, TrimRight;
    left := TrimLeftSplits(s);
    var rest := TrimLeft(s);
    right := TrimRightSplits(rest);
    var core := TrimRight(rest);
    forall n | 0 < n <= |core| ensures !IsSpace(core[..n]) {
      assert core[..n] == rest[..n];
    }
  }

  // ---- Numbers ----

  /** The digits in either letter case. */
  ghost predicate Shows(b: byte, d: nat) {
    d < 16 && (b == "0123456789abcdef"[d] as int || b == "0123456789ABCDEF"[d] as int)
  }

  /** The digits of a number, as values. */
  ghost predicate Spells(s: bytes, ds: seq<nat>, base: nat) {
    |s| == |ds| && s != [] && forall i :: 0 <= i < |s| ==> Shows(s[i], ds[i]) && ds[i] < base
  }

  function Power(base: nat, n: nat): nat {
    if n == 0 then 1 else base * Power(base, n - 1)
  }

  /** Each digit times the power of the base at its place. */
  function PlaceValue(ds: seq<nat>, base: nat): nat {
    if ds == [] then 0 else ds[0] * Power(base, |ds| - 1) + PlaceValue(ds[1..], base)
  }

  ghost predicate IsNumeral(s: bytes, base: nat, n: nat) {
    exists ds :: Spells(s, ds, base) && PlaceValue(ds, base) == n
  }

  lemma DigitIs(b: byte, d: nat)
    ensures Shows(b, d) <==> DigitValue(b) == Some(d)
  {
    var lower, upper := "0123456789abcdef", "0123456789ABCDEF";
    if d < 16 {
      assert lower[d] == if d < 10 then '0' + d as char else 'a' + (d - 10) as char;
      assert upper[d] == if d < 10 then '0' + d as char else 'A' + (d - 10) as char;
    }
  }

  lemma Regroup(first: nat, power: nat, rest: nat, base: nat)
    ensures first * (base * power) + rest * base == (first * power + rest) * base
  {
    assert first * (base * power) == (first * power) * base;
  }

  lemma PlaceValueFirst(ds: seq<nat>, base: nat)
    requires ds != []
    ensures PlaceValue(ds, base) == ds[0] * Power(base, |ds| - 1) + PlaceValue(ds[1..], base)
  {}

  lemma PowerNext(base: nat, n: nat)
    ensures Power(base, n + 1) == base * Power(base, n)
  {}

  lemma OneDigit(d: nat, base: nat)
    ensures PlaceValue([d], base) == d && PlaceValue([], base) == 0
  {
    assert [d][1..] == [];
  }

  lemma {:induction false} PlaceValueSnoc(ds: seq<nat>, d: nat, base: nat)
    ensures PlaceValue(ds + [d], base) == PlaceValue(ds, base) * base + d
  {
    hide PlaceValue, Power;
    OneDigit(d, base);
    if ds == [] {
      assert ds + [d] == [d];
    } else {
      var all, rest := ds + [d], ds[1..];
      assert all[0] == ds[0] && all[1..] == rest + [d];
      PlaceValueFirst(all, base);
      PlaceValueFirst(ds, base);
      PlaceValueSnoc(rest, d, base);
      PowerNext(base, |ds| - 1);
      Regroup(ds[0], Power(base, |ds| - 1), PlaceValue(rest, base), base);
    }
  }

  lemma {:induction false} DigitsGive(s: bytes, ds: seq<nat>, base: nat)
    requires Spells(s, ds, base)
    ensures DigitsValue(s, base) == Some(PlaceValue(ds, base))
  {
    hide DigitValue, Shows, PlaceValue, Power;
    var k := |s| - 1;
    DigitIs(s[k], ds[k]);
    assert ds == ds[..k] + [ds[k]];
    PlaceValueSnoc(ds[..k], ds[k], base);
    if k == 0 {
      OneDigit(0, base);
      assert ds[..k] == [];
    } else {
      DigitsGive(s[..k], ds[..k], base);
    }
  }

  lemma {:induction false} DigitsSpell(s: bytes, base: nat) returns (ds: seq<nat>)
    requires DigitsValue(s, base).Some?
    ensures Spells(s, ds, base)
  {
    hide DigitValue, Shows;
    var k := |s| - 1;
    var last := DigitValue(s[k]).value;
    DigitIs(s[k], last);
    if k == 0 {
      ds := [last];
    } else {
      ds := DigitsSpell(s[..k], base);
      ds := ds + [last];
      assert forall i :: 0 <= i < k ==> s[..k][i] == s[i];
    }
  }

  /** A digit string is read as the number that its places give. */
  lemma DigitsAre(s: bytes, base: nat, n: nat)
    ensures DigitsValue(s, base) == Some(n) <==> IsNumeral(s, base, n)
  {
    hide DigitsValue, Spells, PlaceValue;
    if DigitsValue(s, base).Some? {
      var ds := DigitsSpell(s, base);
      DigitsGive(s, ds, base);
    }
    if IsNumeral(s, base, n) {
      var ds :| Spells(s, ds, base) && PlaceValue(ds, base) == n;
      DigitsGive(s, ds, base);
    }
  }

  /** A number of at most 63 bits with an optional sign. */
  ghost predicate IsInteger(s: bytes, base: nat, n: int) {
    exists sign, digits :: s == sign + digits && IsSigned(sign, digits, base, n)
  }

  ghost predicate IsSigned(sign: bytes, digits: bytes, base: nat, n: int) {
    || ((sign == [] || sign == Ascii("+")) && 0 <= n <= 0x7fff_ffff_ffff_ffff && IsNumeral(digits, base, n))
    || (sign == Ascii("-") && -0x8000_0000_0000_0000 <= n <= 0 && IsNumeral(digits, base, 0 - n))
  }

  lemma NumeralStart(s: bytes, base: nat, n: nat)
    requires IsNumeral(s, base, n)
    ensures s != [] && s[0] != 43 && s[0] != 45
  {
    DigitsAre(s, base, n);
  }

  lemma ParseGives(s: bytes, base: nat, n: int)
    requires IsInteger(s, base, n)
    ensures ParseInt(s, base) == Some(n)
  {
    hide DigitsValue, IsNumeral;
    var sign, digits :| s == sign + digits && IsSigned(sign, digits, base, n);
    assert Ascii("+") == [43] && Ascii("-") == [45];
    var magnitude := if sign == Ascii("-") then 0 - n else n;
    NumeralStart(digits, base, magnitude);
    DigitsAre(digits, base, magnitude);
    if sign == [] {
      assert s == digits;
    } else {
      assert s[0] == sign[0] && s[1..] == digits;
    }
  }

  /** An integer is read exactly from its decimal or hexadecimal digits, with an optional sign, within 64 bits. */
  lemma ParseIntIs(s: bytes, base: nat, n: int)
    ensures ParseInt(s, base) == Some(n) <==> IsInteger(s, base, n)
  {
    hide DigitsValue, IsNumeral;
    if IsInteger(s, base, n) {
      ParseGives(s, base, n);
    }
    if ParseInt(s, base) == Some(n) {
      var signed := s != [] && (s[0] == 43 || s[0] == 45);
      var sign, digits := if signed then s[..1] else [], if signed then s[1..] else s;
      DigitsAre(digits, base, DigitsValue(digits, base).value);
      assert s == sign + digits;
      assert Ascii("+") == [43] && Ascii("-") == [45];
      assert IsSigned(sign, digits, base, n);
    }
  }

  /** Leading zeros do not count, and the digits that are printed are those that are read. */
  lemma {:induction false} ZerosAndItoa(zeros: bytes, n: nat)
    requires forall i :: 0 <= i < |zeros| ==> zeros[i] == 48
    ensures IsNumeral(zeros + Itoa(n), 10, n)
  {
    hide IsNumeral;
    var all := zeros + Itoa(n);
    DigitsAre(all, 10, n);
    if n >= 10 {
      var high, last := zeros + Itoa(n / 10), n % 10;
      ZerosAndItoa(zeros, n / 10);
      DigitsAre(high, 10, n / 10);
      assert all == high + [48 + last];
      hide Itoa, DigitsValue;
      DigitsSnoc(high, n / 10, last);
    } else {
      ZerosOnly(zeros, n);
    }
  }

  lemma DigitsSnoc(high: bytes, n: nat, d: nat)
    requires DigitsValue(high, 10) == Some(n) && d < 10
    ensures DigitsValue(high + [48 + d], 10) == Some(n * 10 + d)
  {
    assert (high + [48 + d])[..|high|] == high;
  }

  lemma {:induction false} ZerosOnly(zeros: bytes, n: nat)
    requires forall i :: 0 <= i < |zeros| ==> zeros[i] == 48
    requires n < 10
    ensures DigitsValue(zeros + [48 + n], 10) == Some(n)
  {
    var all := zeros + [48 + n];
    assert all[..|all| - 1] == zeros;
    if zeros != [] {
      var k := |zeros| - 1;
      ZerosOnly(zeros[..k], 0);
      assert zeros == zeros[..k] + [48 + 0];
    }
  }

  /** Text that starts and ends with visible ASCII characters has no white space around it. */
  lemma VisibleIsTrimmed(s: bytes)
    requires s != [] && 33 <= s[0] <= 126 && 33 <= s[|s| - 1] <= 126
    ensures Trimmed(s)
  {
    LeadingIs(s);
    TrailingIs(s);
  }

  lemma IntegerIsTrimmed(s: bytes, base: nat, n: int)
    requires IsInteger(s, base, n)
    ensures Trimmed(s)
  {
    IntegerEnds(s, base, n);
    VisibleIsTrimmed(s);
  }

  /** A visible ASCII character is no part of white space. */
  lemma {:induction false} VisibleNotBlank(s: bytes, b: byte)
    requires Blank(s) && 33 <= b <= 126
    ensures b !in s
    decreases |s|
  {
    hide IsSpace;
    if s != [] {
      var n :| 0 < n <= |s| && IsSpace(s[..n]) && Blank(s[n..]);
      SpaceIs(s[..n]);
      VisibleNotBlank(s[n..], b);
      assert s == s[..n] + s[n..];
    }
  }

  /** Trimming on the right keeps everything up to a visible ASCII character. */
  lemma TrimRightKeeps(s: bytes, i: nat)
    requires i < |s| && 33 <= s[i] <= 126
    ensures i < |TrimRight(s)| <= |s| && TrimRight(s) == s[..|TrimRight(s)|]
  {
    hide TrimRight, Blank;
    var right := TrimRightSplits(s);
    VisibleNotBlank(right, s[i]);
    var kept := |TrimRight(s)|;
    forall j | kept <= j < |s| ensures s[j] != s[i] {
      assert s[j] == right[j - kept];
    }
  }

  /** Nothing is trimmed on the left of text that starts with a visible ASCII character. */
  lemma VisibleStart(s: bytes)
    requires s != [] && 33 <= s[0] <= 126
    ensures !StartsBlank(s)
  {
    LeadingIs(s);
  }

  lemma IntegerEnds(s: bytes, base: nat, n: int)
    requires IsInteger(s, base, n)
    ensures s != [] && 33 <= s[0] <= 126 && 33 <= s[|s| - 1] <= 126 && 59 !in s
  {
    hide IsNumeral;
    var sign, digits :| s == sign + digits && IsSigned(sign, digits, base, n);
    assert Ascii("+") == [43] && Ascii("-") == [45];
    NumeralBytes(digits, base, if sign == Ascii("-") then 0 - n else n);
    assert digits[0] in digits && digits[|digits| - 1] in digits;
    assert s[0] == if sign == [] then digits[0] else sign[0];
    assert s[|s| - 1] == digits[|digits| - 1];
  }

  lemma NumeralBytes(s: bytes, base: nat, n: int)
    requires n >= 0 && IsNumeral(s, base, n)
    ensures s != [] && forall b :: b in s ==> 48 <= b <= 57 || 65 <= b <= 70 || 97 <= b <= 102
  {
    DigitsAre(s, base, n);
  }
}
