/** What header lines say, in terms of their bytes alone: the names they carry, the place they are wanted at, and the
    request body that they announce. */
module HeaderFraming {
  import opened Wrappers
  import opened Bytes
  import opened TextForms
  import opened StableOrder
  import opened HeaderOrder

  // ---- Names ----

  /** A header field of this name, in any letter case, with this value (section 5 of RFC 9112). */
  ghost predicate Carries(fold: bytes -> bytes, line: bytes, name: bytes, value: bytes) {
    exists own :: own != [] && 58 !in own && line == own + [58] + value && fold(own) == fold(name)
  }

  ghost predicate IsNamed(fold: bytes -> bytes, line: bytes, name: bytes) {
    exists value :: Carries(fold, line, name, value)
  }

  lemma FirstByteAt(s: bytes, t: bytes, b: byte)
    requires b !in s
    ensures IndexByte(s + [b] + t, b) == Some(|s|)
  {
    IndexByteIs(s + [b] + t, b, |s|);
  }

  lemma CarriedValue(fold: bytes -> bytes, line: bytes, name: bytes, value: bytes)
    requires Carries(fold, line, name, value)
    ensures HeaderLineNamed(fold, line, name) && LineValue(line) == value
  {
    hide IndexByte;
    var own :| own != [] && 58 !in own && line == own + [58] + value && fold(own) == fold(name);
    FirstByteAt(own, value, 58);
    assert line[..|own|] == own && line[|own| + 1..] == value;
  }

  lemma NamedCarries(fold: bytes -> bytes, line: bytes, name: bytes)
    requires HeaderLineNamed(fold, line, name)
    ensures Carries(fold, line, name, LineValue(line))
  {
    hide IndexByte;
    var colon := IndexByte(line, 58).value;
    assert line == line[..colon] + [58] + line[colon + 1..];
  }

  /** A line carries a name exactly when what stands before its first colon is not empty and folds like the name. */
  lemma NamedIs(fold: bytes -> bytes, line: bytes, name: bytes)
    ensures HeaderLineNamed(fold, line, name) <==> IsNamed(fold, line, name)
  {
    hide HeaderLineNamed, Carries;
    if HeaderLineNamed(fold, line, name) {
      NamedCarries(fold, line, name);
    }
    if value :| Carries(fold, line, name, value) {
      CarriedValue(fold, line, name, value);
    }
  }

  // ---- Places ----

  /** The wanted order is asked for with the first two of the parts that single spaces separate. */
  lemma DesiredIs(policy: Policy, verb: bytes, target: bytes, rest: bytes)
    requires 32 !in verb && 32 !in target
    ensures Desired(policy, verb + [32] + target + [32] + rest) == policy.order(verb, target)
    ensures Desired(policy, verb + [32] + target) == [] && Desired(policy, verb) == []
  {
    hide IndexByte;
    var tail := target + [32] + rest;
    var line := verb + [32] + tail;
    assert line == verb + [32] + target + [32] + rest;
    FirstByteAt(verb, tail, 32);
    FirstByteAt(target, rest, 32);
    FirstByteAt(verb, target, 32);
    assert line[..|verb|] == verb && line[|verb| + 1..] == tail && tail[..|target|] == target;
    assert (verb + [32] + target)[|verb| + 1..] == target;
  }

  /** In the rewritten block, every line above one with a wanted name has a name that is wanted no later. */
  lemma WantedPlace(policy: Policy, header: bytes, verb: bytes, target: bytes, rest: bytes, i: nat, j: nat, d: nat)
    requires EndsHeader(header) && Lines(header)[0] == verb + [32] + target + [32] + rest
    requires 32 !in verb && 32 !in target
    requires d < |policy.order(verb, target)|
    ensures |Reordered(policy, header)| >= 4
    ensures 1 <= i < j < |Lines(Reordered(policy, header))|
            && IsNamed(policy.fold, Lines(Reordered(policy, header))[j], policy.order(verb, target)[d])
        ==> exists e :: 0 <= e <= d && IsNamed(policy.fold, Lines(Reordered(policy, header))[i], policy.order(verb, target)[e])
  {
    hide HeaderLineNamed, IsNamed, Lines, Reordered, Desired, EndsHeader, Rank, Arrange;
    DesiredIs(policy, verb, target, rest);
    ReorderedLines(policy, header);
    var order, lines := policy.order(verb, target), Lines(Reordered(policy, header));
    var arranged := Arrange(Naming(policy.fold), order, Lines(header)[1..]);
    assert lines == [Lines(header)[0]] + arranged;
    if 1 <= i < j < |lines| && IsNamed(policy.fold, lines[j], order[d]) {
      var rank := RankBy(Naming(policy.fold), order);
      ArrangeSorted(Naming(policy.fold), order, Lines(header)[1..]);
      assert lines[i] == arranged[i - 1] && lines[j] == arranged[j - 1];
      NamedIs(policy.fold, lines[j], order[d]);
      var e := rank(lines[i]);
      assert e <= rank(lines[j]) <= d;
      NamedIs(policy.fold, lines[i], order[e]);
    }
  }

  // ---- The announced length ----

  /** An integer between white space. */
  ghost predicate Shows64(value: bytes, n: int) {
    exists left, number, right :: value == left + number + right && Blank(left) && IsInteger(number, 10, n) && Blank(right)
  }

  ghost predicate IsFirstNamed(fold: bytes -> bytes, lines: seq<bytes>, k: nat, name: bytes, value: bytes) {
    && k < |lines| && Carries(fold, lines[k], name, value)
    && forall j :: 0 <= j < k ==> !IsNamed(fold, lines[j], name)
  }

  /** The first Content-Length field holds this number. */
  ghost predicate AnnouncesLength(fold: bytes -> bytes, lines: seq<bytes>, n: nat) {
    exists k, value :: IsFirstNamed(fold, lines, k, Ascii("Content-Length"), value) && Shows64(value, n)
  }

  lemma {:induction false} FirstIs(fold: bytes -> bytes, lines: seq<bytes>, name: bytes, k: nat, value: bytes)
    requires IsFirstNamed(fold, lines, k, name, value)
    ensures First(HasName(fold, name), lines) == [lines[k]]
  {
    hide IsNamed, HeaderLineNamed, Carries;
    NamedIs(fold, lines[0], name);
    if k == 0 {
      CarriedValue(fold, lines[0], name, value);
    } else {
      assert forall j :: 0 <= j < k - 1 ==> lines[1..][j] == lines[j + 1];
      FirstIs(fold, lines[1..], name, k - 1, value);
    }
  }

  lemma {:induction false} FirstFound(fold: bytes -> bytes, lines: seq<bytes>, name: bytes) returns (k: nat)
    requires First(HasName(fold, name), lines) != []
    ensures k < |lines| && IsFirstNamed(fold, lines, k, name, LineValue(lines[k]))
    ensures First(HasName(fold, name), lines) == [lines[k]]
  {
    hide IsNamed, HeaderLineNamed, Carries, LineValue;
    NamedIs(fold, lines[0], name);
    if HeaderLineNamed(fold, lines[0], name) {
      NamedCarries(fold, lines[0], name);
      k := 0;
    } else {
      k := FirstFound(fold, lines[1..], name);
      assert forall j :: 1 <= j < k + 1 ==> lines[j] == lines[1..][j - 1];
      k := k + 1;
    }
  }

  /** The integer that trimmed text stands for. */
  lemma ShownIs(value: bytes, n: int)
    ensures ParseInt(TrimSpace(value), 10) == Some(n) <==> Shows64(value, n)
  {
    hide ParseInt, TrimSpace, Blank, IsInteger, Trimmed;
    ParseIntIs(TrimSpace(value), 10, n);
    var before, after := TrimSpaceSplits(value);
    if Shows64(value, n) {
      var left, number, right :| value == left + number + right && Blank(left) && IsInteger(number, 10, n) && Blank(right);
      IntegerIsTrimmed(number, 10, n);
      TrimSpaceOf(left, number, right);
    }
  }

  /** The length read is that of the first Content-Length field, when it holds a positive 64-bit number; it is 0 when it
      holds anything else and when there is no such field. */
  lemma ContentLengthIs(fold: bytes -> bytes, lines: seq<bytes>, n: nat)
    requires n > 0
    ensures ContentLength(fold, lines) == n <==> AnnouncesLength(fold, lines, n)
  {
    hide ParseInt, TrimSpace, Shows64, IsFirstNamed, First, Carries, LineValue, HeaderLineNamed;
    var name := Ascii("Content-Length");
    assert name == CONTENT_LENGTH;
    if k, value :| IsFirstNamed(fold, lines, k, name, value) && Shows64(value, n) {
      FirstIs(fold, lines, name, k, value);
      FirstCarries(fold, lines, k, name, value);
      ShownIs(value, n);
    }
    if ContentLength(fold, lines) == n {
      var k := FirstFound(fold, lines, name);
      ShownIs(LineValue(lines[k]), n);
    }
  }

  lemma FirstCarries(fold: bytes -> bytes, lines: seq<bytes>, k: nat, name: bytes, value: bytes)
    requires IsFirstNamed(fold, lines, k, name, value)
    ensures LineValue(lines[k]) == value
  {
    CarriedValue(fold, lines[k], name, value);
  }

  lemma PrintedShows(left: bytes, zeros: bytes, n: nat, right: bytes)
    requires Blank(left) && Blank(right) && n <= MAX_INT64
    requires forall i :: 0 <= i < |zeros| ==> zeros[i] == 48
    ensures Shows64(left + (zeros + Itoa(n)) + right, n)
  {
    hide Blank, IsNumeral, Itoa;
    var number := zeros + Itoa(n);
    ZerosAndItoa(zeros, n);
    assert number == [] + number && IsSigned([], number, 10, n);
    assert IsInteger(number, 10, n);
  }

  /** The usual form: decimal digits between white space, with or without leading zeros. */
  lemma PrintedLength(fold: bytes -> bytes, before: seq<bytes>, own: bytes, left: bytes, zeros: bytes, n: nat, right: bytes,
                      after: seq<bytes>)
    requires forall line :: line in before ==> !IsNamed(fold, line, Ascii("Content-Length"))
    requires own != [] && 58 !in own && fold(own) == fold(Ascii("Content-Length"))
    requires Blank(left) && Blank(right) && 0 < n <= MAX_INT64
    requires forall i :: 0 <= i < |zeros| ==> zeros[i] == 48
    ensures ContentLength(fold, before + [own + [58] + (left + (zeros + Itoa(n)) + right)] + after) == n
  {
    hide IsNamed, Blank, Itoa, Shows64, ContentLength;
    PrintedShows(left, zeros, n, right);
    var value := left + (zeros + Itoa(n)) + right;
    FirstOfThese(fold, before, own, value, after);
    ContentLengthIs(fold, before + [own + [58] + value] + after, n);
  }

  lemma FirstOfThese(fold: bytes -> bytes, before: seq<bytes>, own: bytes, value: bytes, after: seq<bytes>)
    requires forall line :: line in before ==> !IsNamed(fold, line, Ascii("Content-Length"))
    requires own != [] && 58 !in own && fold(own) == fold(Ascii("Content-Length"))
    ensures IsFirstNamed(fold, before + [own + [58] + value] + after, |before|, Ascii("Content-Length"), value)
  {
    hide IsNamed;
    var lines := before + [own + [58] + value] + after;
    assert lines[|before|] == own + [58] + value;
    assert forall j :: 0 <= j < |before| ==> lines[j] == before[j] && before[j] in before;
  }

  // ---- Chunked bodies ----

  /** An element of a comma-separated list, with the white space around it. */
  ghost predicate IsPart(value: bytes, part: bytes) {
    exists before, after :: value == before + part + after && Bounds(before, part, after)
  }

  ghost predicate Bounds(before: bytes, part: bytes, after: bytes) {
    && (before == [] || before[|before| - 1] == 44)
    && 44 !in part
    && (after == [] || after[0] == 44)
  }

  lemma OnlyPart(part: bytes)
    requires 44 !in part
    ensures IsPart(part, part)
  {
    assert part == [] + part + [] && Bounds([], part, []);
  }

  lemma FirstPart(value: bytes, i: nat)
    requires i < |value| && value[i] == 44 && 44 !in value[..i]
    ensures IsPart(value, value[..i])
  {
    assert value == [] + value[..i] + value[i..] && Bounds([], value[..i], value[i..]);
  }

  lemma LaterPart(value: bytes, i: nat, part: bytes)
    requires i < |value| && value[i] == 44 && IsPart(value[i + 1..], part)
    ensures IsPart(value, part)
  {
    var before, after :| value[i + 1..] == before + part + after && Bounds(before, part, after);
    var more := value[..i + 1] + before;
    assert more[|more| - 1] == if before == [] then value[i] else before[|before| - 1];
    hide Bounds;
    assert value == value[..i + 1] + value[i + 1..] == more + part + after;
  }

  lemma {:induction false} PartSplits(value: bytes, part: bytes)
    requires part in SplitCommas(value)
    ensures IsPart(value, part)
    decreases |value|
  {
    hide IndexByte, IsPart;
    match IndexByte(value, 44)
    case None =>
      OnlyPart(value);
    case Some(i) =>
      if part == value[..i] {
        FirstPart(value, i);
      } else {
        PartSplits(value[i + 1..], part);
        LaterPart(value, i, part);
      }
  }

  lemma {:induction false} SplitHasPart(before: bytes, part: bytes, after: bytes)
    requires Bounds(before, part, after)
    ensures part in SplitCommas(before + part + after)
    decreases |before|
  {
    hide IndexByte;
    var value := before + part + after;
    var found := IndexByte(value, 44);
    if before == [] {
      if after == [] {
        assert value == part;
      } else {
        assert value == part + [44] + after[1..];
        FirstByteAt(part, after[1..], 44);
        assert value[..|part|] == part;
      }
    } else {
      assert value[|before| - 1] == 44;
      var i := found.value;
      forall j | 0 <= j < i ensures value[j] != 44 {
        assert value[..i][j] == value[j];
      }
      assert value[i + 1..] == before[i + 1..] + part + after;
      SplitHasPart(before[i + 1..], part, after);
    }
  }

  /** A comma-separated list with the coding among its elements, in any letter case and between white space. */
  ghost predicate Lists(fold: bytes -> bytes, value: bytes, coding: bytes) {
    exists left, own, right :: Blank(left) && Blank(right) && Trimmed(own) && fold(own) == fold(coding) && IsPart(value, left + own + right)
  }

  lemma ListsIs(fold: bytes -> bytes, line: bytes)
    ensures ListsChunked(fold, line) <==> Lists(fold, LineValue(line), Ascii("chunked"))
  {
    hide TrimSpace, Blank, Trimmed, SplitCommas, LineValue, Bounds;
    var value := LineValue(line);
    var parts := SplitCommas(value);
    if ListsChunked(fold, line) {
      var i :| 0 <= i < |parts| && fold(TrimSpace(parts[i])) == fold(CHUNKED);
      PartSplits(value, parts[i]);
      var left, right := TrimSpaceSplits(parts[i]);
    }
    if Lists(fold, value, Ascii("chunked")) {
      var left, own, right :| Blank(left) && Blank(right) && Trimmed(own) && fold(own) == fold(Ascii("chunked")) && IsPart(value, left + own + right);
      TrimSpaceOf(left, own, right);
      var before, after :| value == before + (left + own + right) + after && Bounds(before, left + own + right, after);
      SplitHasPart(before, left + own + right, after);
    }
  }

  /** Some Transfer-Encoding field lists chunked. */
  ghost predicate AnnouncesChunked(fold: bytes -> bytes, lines: seq<bytes>) {
    exists k, value :: 0 <= k < |lines| && Carries(fold, lines[k], Ascii("Transfer-Encoding"), value)
                       && Lists(fold, value, Ascii("chunked"))
  }

  lemma UsesChunkedIs(fold: bytes -> bytes, lines: seq<bytes>)
    ensures UsesChunked(fold, lines) <==> AnnouncesChunked(fold, lines)
  {
    hide Carries, Lists, ListsChunked, HeaderLineNamed, LineValue;
    var name := Ascii("Transfer-Encoding");
    assert name == TRANSFER_ENCODING;
    if UsesChunked(fold, lines) {
      var line :| line in lines && HeaderLineNamed(fold, line, TRANSFER_ENCODING) && ListsChunked(fold, line);
      var k :| 0 <= k < |lines| && lines[k] == line;
      NamedCarries(fold, line, name);
      ListsIs(fold, line);
    }
    if k, value :| 0 <= k < |lines| && Carries(fold, lines[k], name, value) && Lists(fold, value, Ascii("chunked")) {
      CarriedValue(fold, lines[k], name, value);
      ListsIs(fold, lines[k]);
    }
  }
}
