/** Header blocks of HTTP/1.1 requests: splitting into lines, reordering the lines, reading the body framing. */
module HeaderOrder {
  import opened Wrappers
  import opened Bytes
  import opened StableOrder

  /** What the embedding program supplies: the wanted header order for a method and request target, and the
      case folding behind strings.EqualFold, given as the canonical form that equal-folding strings share. */
  datatype Policy = Policy(order: (bytes, bytes) -> seq<bytes>, fold: bytes -> bytes)

  const TERMINATOR: bytes := [CR, LF, CR, LF]

  ghost predicate EndsHeader(s: bytes) {
    |s| >= 4 && s[|s| - 4..] == TERMINATOR
  }

  /** A complete header block: it ends with the first empty line it contains. */
  ghost predicate IsHeaderBlock(s: bytes) {
    EndsHeader(s) && forall i :: 0 <= i < |s| - 4 ==> !OccursAt(s, TERMINATOR, i)
  }

  // ---- Lines ----

  /** bytes.Split(s, CRLF). */
  function Split(s: bytes): (lines: seq<bytes>)
    ensures |lines| >= 1
    decreases |s|
  {
    match Index(s, CRLF)
    case None => [s]
    case Some(i) => [s[..i]] + Split(s[i + 2..])
  }

  /** Every line followed by CRLF. */
  function Unlines(lines: seq<bytes>): bytes {
    if lines == [] then [] else lines[0] + CRLF + Unlines(lines[1..])
  }

  ghost predicate NoBreak(line: bytes) {
    forall i :: !OccursAt(line, CRLF, i)
  }

  lemma {:induction false} SplitLinesUnbroken(s: bytes)
    ensures forall line :: line in Split(s) ==> NoBreak(line)
    decreases |s|
  {
    match Index(s, CRLF)
    case None =>
    case Some(i) =>
      SplitLinesUnbroken(s[i + 2..]);
      forall j ensures !OccursAt(s[..i], CRLF, j) {
        if OccursAt(s[..i], CRLF, j) {
          assert s[..i][j..j + 2] == s[j..j + 2];
          assert OccursAt(s, CRLF, j);
        }
      }
  }

  lemma UnlinesCons(line: bytes, rest: seq<bytes>)
    ensures Unlines([line] + rest) == line + CRLF + Unlines(rest)
  {
    assert ([line] + rest)[1..] == rest;
  }

  lemma {:induction false} UnlinesOfSplit(s: bytes)
    ensures Unlines(Split(s)) == s + CRLF
    decreases |s|
  {
    hide Unlines;
    match Index(s, CRLF)
    case None =>
      assert Split(s) == [s] + [];
      UnlinesCons(s, []);
      UnlinesNone();
    case Some(i) =>
      assert Split(s) == [s[..i]] + Split(s[i + 2..]);
      hide Split;
      UnlinesCons(s[..i], Split(s[i + 2..]));
      UnlinesOfSplit(s[i + 2..]);
      assert s == s[..i] + CRLF + s[i + 2..];
      assert s[..i] + CRLF + (s[i + 2..] + CRLF) == s + CRLF;
  }

  lemma UnlinesNone()
    ensures Unlines([]) == []
  {}

  /** The first line break of a line without breaks, once a break is put after it, is that one. */
  lemma FirstBreak(line: bytes, rest: bytes)
    requires NoBreak(line)
    ensures Index(line + CRLF + rest, CRLF) == Some(|line|)
  {
    var s := line + CRLF + rest;
    assert OccursAt(s, CRLF, |line|);
    forall j | 0 <= j < |line| ensures !OccursAt(s, CRLF, j) {
      if j + 1 < |line| {
        assert s[j..j + 2] == line[j..j + 2];
        assert !OccursAt(line, CRLF, j);
      } else {
        assert s[j..j + 2][1] == CR;
      }
    }
  }

  lemma {:induction false} SplitOfUnlines(lines: seq<bytes>, body: bytes)
    requires lines != [] && forall line :: line in lines ==> NoBreak(line)
    requires Unlines(lines) == body + CRLF
    ensures Split(body) == lines
  {
    var line, rest := lines[0], lines[1..];
    if rest == [] {
      assert Unlines(lines) == line + CRLF + Unlines([]);
      assert body == (body + CRLF)[..|body|] == (line + CRLF + [])[..|body|] == line;
      assert line in lines;
      assert lines == [line];
    } else {
      var tail := Unlines(rest);
      assert tail == rest[0] + CRLF + Unlines(rest[1..]);
      UnlinesEndsWithBreak(rest);
      var inner := tail[..|tail| - 2];
      assert body + CRLF == line + CRLF + inner + CRLF;
      assert body == (body + CRLF)[..|body|] == line + CRLF + inner;
      FirstBreak(line, inner);
      assert body[..|line|] == line && body[|line| + 2..] == inner;
      SplitOfUnlines(rest, inner);
    }
  }

  lemma {:induction false} UnlinesEndsWithBreak(lines: seq<bytes>)
    requires lines != []
    ensures |Unlines(lines)| >= 2 && Unlines(lines) == Unlines(lines)[..|Unlines(lines)| - 2] + CRLF
  {
    if |lines| > 1 {
      UnlinesEndsWithBreak(lines[1..]);
    }
  }

  lemma {:induction false} UnlinesConcat(a: seq<bytes>, b: seq<bytes>)
    ensures Unlines(a + b) == Unlines(a) + Unlines(b)
  {
    if a == [] {
      assert a + b == b;
    } else {
      var line := a[0] + CRLF;
      assert (a + b)[0] == a[0] && (a + b)[1..] == a[1..] + b;
      assert Unlines(a + b) == line + Unlines(a[1..] + b) && Unlines(a) == line + Unlines(a[1..]);
      hide Unlines;
      UnlinesConcat(a[1..], b);
      assert line + (Unlines(a[1..]) + Unlines(b)) == (line + Unlines(a[1..])) + Unlines(b);
    }
  }

  // ---- Names ----

  /** The part of a header line before its colon; a line without a colon, or starting with one, has no name. */
  function LineName(line: bytes): Option<bytes> {
    match IndexByte(line, 58)
    case None => None
    case Some(colon) => if colon > 0 then Some(line[..colon]) else None
  }

  predicate HeaderLineNamed(fold: bytes -> bytes, line: bytes, name: bytes) {
    match LineName(line)
    case None => false
    case Some(own) => fold(own) == fold(name)
  }

  /** The test for the lines of one name. */
  function HasName(fold: bytes -> bytes, name: bytes): bytes -> bool {
    line => HeaderLineNamed(fold, line, name)
  }

  /** The lines with a given name, in order. */
  function Named(fold: bytes -> bytes, lines: seq<bytes>, name: bytes): seq<bytes> {
    Filter(HasName(fold, name), lines)
  }

  /** headerLineNamed, as the relation that the header lines are ordered by. */
  function Naming(fold: bytes -> bytes): (bytes, bytes) -> bool {
    (line, name) => HeaderLineNamed(fold, line, name)
  }

  /** Lines that carry the same name have the same rank. */
  lemma {:induction false} SameNameSameRank(fold: bytes -> bytes, desired: seq<bytes>, a: bytes, b: bytes, name: bytes)
    requires HeaderLineNamed(fold, a, name) && HeaderLineNamed(fold, b, name)
    ensures Rank(Naming(fold), desired, a) == Rank(Naming(fold), desired, b)
  {
    if desired != [] {
      SameNameSameRank(fold, desired[1..], a, b, name);
    }
  }

  /** Header fields with the same name keep their relative order (section 5.3 of RFC 9110). */
  lemma SameNameOrderKept(fold: bytes -> bytes, desired: seq<bytes>, lines: seq<bytes>, name: bytes)
    ensures Named(fold, Arrange(Naming(fold), desired, lines), name) == Named(fold, lines, name)
  {
    forall a, b | HeaderLineNamed(fold, a, name) && HeaderLineNamed(fold, b, name)
      ensures Rank(Naming(fold), desired, a) == Rank(Naming(fold), desired, b)
    {
      SameNameSameRank(fold, desired, a, b, name);
    }
    ArrangeStable(Naming(fold), desired, lines, HasName(fold, name));
  }

  // ---- Body framing ----

  const CONTENT_LENGTH: bytes := Ascii("Content-Length")
  const TRANSFER_ENCODING: bytes := Ascii("Transfer-Encoding")
  const CHUNKED: bytes := Ascii("chunked")

  /** The part of a header line after its colon. */
  function LineValue(line: bytes): bytes {
    match IndexByte(line, 58)
    case None => []
    case Some(colon) => line[colon + 1..]
  }

  /** requestContentLength: only the first Content-Length line is read; anything but a positive int64 is 0. */
  function ContentLength(fold: bytes -> bytes, lines: seq<bytes>): (n: nat)
    ensures n <= MAX_INT64
  {
    var first := First(HasName(fold, CONTENT_LENGTH), lines);
    if first == [] then 0
    else match ParseInt(TrimSpace(LineValue(first[0])), 10)
      case None => 0
      case Some(n) => if n > 0 then n else 0
  }

  /** strings.Split(s, ","). */
  function SplitCommas(s: bytes): (parts: seq<bytes>)
    decreases |s|
  {
    match IndexByte(s, 44)
    case None => [s]
    case Some(i) => [s[..i]] + SplitCommas(s[i + 1..])
  }

  predicate ListsChunked(fold: bytes -> bytes, line: bytes) {
    var parts := SplitCommas(LineValue(line));
    exists i :: 0 <= i < |parts| && fold(TrimSpace(parts[i])) == fold(CHUNKED)
  }

  /** requestUsesChunkedEncoding: any Transfer-Encoding line that lists chunked. */
  predicate UsesChunked(fold: bytes -> bytes, lines: seq<bytes>) {
    exists line :: line in lines && HeaderLineNamed(fold, line, TRANSFER_ENCODING) && ListsChunked(fold, line)
  }

  /** Rearranged lines announce the same body as the lines they came from. */
  lemma ArrangeKeepsFraming(fold: bytes -> bytes, desired: seq<bytes>, lines: seq<bytes>)
    ensures ContentLength(fold, Arrange(Naming(fold), desired, lines)) == ContentLength(fold, lines)
    ensures UsesChunked(fold, Arrange(Naming(fold), desired, lines)) == UsesChunked(fold, lines)
  {
    var arranged := Arrange(Naming(fold), desired, lines);
    SameNameOrderKept(fold, desired, lines, CONTENT_LENGTH);
    FirstOfFilter(HasName(fold, CONTENT_LENGTH), lines);
    FirstOfFilter(HasName(fold, CONTENT_LENGTH), arranged);
    ArrangePermutes(Naming(fold), desired, lines);
    assert forall line :: line in arranged <==> line in multiset(arranged);
    assert forall line :: line in lines <==> line in multiset(lines);
  }

  // ---- Whole header blocks ----

  function Lines(header: bytes): (lines: seq<bytes>)
    requires |header| >= 4
    ensures |lines| >= 1
  {
    Split(header[..|header| - 4])
  }

  /** The order wanted for a request line; none when it does not have three space-separated parts. */
  function Desired(policy: Policy, requestLine: bytes): seq<bytes> {
    match IndexByte(requestLine, 32)
    case None => []
    case Some(i) =>
      var rest := requestLine[i + 1..];
      match IndexByte(rest, 32)
      case None => []
      case Some(j) => policy.order(requestLine[..i], rest[..j])
  }

  /** What goes on the wire instead of a header block. */
  function Reordered(policy: Policy, header: bytes): bytes
    requires |header| >= 4
  {
    var lines := Lines(header);
    var desired := Desired(policy, lines[0]);
    if desired == [] then header
    else Unlines(ReorderedBlockLines(policy, header)) + CRLF
  }

  lemma HeaderOfLines(header: bytes)
    requires EndsHeader(header)
    ensures header == Unlines(Lines(header)) + CRLF
  {
    UnlinesOfSplit(header[..|header| - 4]);
    assert header == header[..|header| - 4] + TERMINATOR;
    assert TERMINATOR == CRLF + CRLF;
  }

  function LineLength(): bytes -> nat {
    line => |line| + 2
  }

  lemma {:induction false} UnlinesLength(lines: seq<bytes>)
    ensures |Unlines(lines)| == Sum(LineLength(), lines)
  {
    if lines != [] {
      UnlinesLength(lines[1..]);
    }
  }

  /** The lines of the rewritten block. */
  function ReorderedBlockLines(policy: Policy, header: bytes): (lines: seq<bytes>)
    requires |header| >= 4
    ensures |lines| >= 1
  {
    var lines := Lines(header);
    var desired := Desired(policy, lines[0]);
    if desired == [] then lines else [lines[0]] + Arrange(Naming(policy.fold), desired, lines[1..])
  }

  /** The rewritten block consists of the block's own lines: none lost, added or changed. */
  lemma ReorderedPermutes(policy: Policy, header: bytes)
    requires |header| >= 4
    ensures multiset(ReorderedBlockLines(policy, header)) == multiset(Lines(header))
  {
    var lines := Lines(header);
    ArrangePermutes(Naming(policy.fold), Desired(policy, lines[0]), lines[1..]);
    assert lines == [lines[0]] + lines[1..];
  }

  /** A block made of unbroken lines splits into those lines. */
  lemma BlockSplits(lines: seq<bytes>)
    requires lines != [] && forall line :: line in lines ==> NoBreak(line)
    ensures |Unlines(lines) + CRLF| >= 4 && EndsHeader(Unlines(lines) + CRLF)
    ensures Lines(Unlines(lines) + CRLF) == lines
  {
    UnlinesEndsWithBreak(lines);
    var text := Unlines(lines);
    var block := text + CRLF;
    assert block[|block| - 4..] == TERMINATOR;
    assert block[..|block| - 4] == text[..|text| - 2];
    SplitOfUnlines(lines, text[..|text| - 2]);
  }

  /** The rewritten block has the length of the block, ends like one, and splits into its lines. */
  lemma ReorderedLines(policy: Policy, header: bytes)
    requires EndsHeader(header)
    ensures |Reordered(policy, header)| == |header| && EndsHeader(Reordered(policy, header))
    ensures Lines(Reordered(policy, header)) == ReorderedBlockLines(policy, header)
  {
    var lines, out := Lines(header), ReorderedBlockLines(policy, header);
    HeaderOfLines(header);
    ReorderedPermutes(policy, header);
    SumPermuted(LineLength(), out, lines);
    UnlinesLength(out);
    UnlinesLength(lines);
    SplitLinesUnbroken(header[..|header| - 4]);
    forall line | line in out ensures NoBreak(line) {
      assert line in multiset(lines);
    }
    BlockSplits(out);
  }

  /** Reordering a header block a second time changes nothing. */
  lemma ReorderedTwice(policy: Policy, header: bytes)
    requires EndsHeader(header)
    ensures |Reordered(policy, header)| == |header|
    ensures Reordered(policy, Reordered(policy, header)) == Reordered(policy, header)
  {
    ReorderedLines(policy, header);
    var lines := Lines(header);
    var desired := Desired(policy, lines[0]);
    ArrangeTwice(Naming(policy.fold), desired, lines[1..]);
  }

  /** A reader of the rewritten block finds the body framing that the caller announced. */
  lemma ReorderedKeepsFraming(policy: Policy, header: bytes)
    requires EndsHeader(header)
    ensures |Reordered(policy, header)| == |header|
    ensures ContentLength(policy.fold, Lines(Reordered(policy, header))[1..]) == ContentLength(policy.fold, Lines(header)[1..])
    ensures UsesChunked(policy.fold, Lines(Reordered(policy, header))[1..]) == UsesChunked(policy.fold, Lines(header)[1..])
  {
    ReorderedLines(policy, header);
    ArrangeKeepsFraming(policy.fold, Desired(policy, Lines(header)[0]), Lines(header)[1..]);
  }

  // ---- The operations ----

  /** orderRequestHeader: the block to send, and the framing of the body that follows it. */
  method OrderRequestHeader(policy: Policy, header: bytes) returns (output: bytes, contentLength: nat, chunked: bool)
    requires EndsHeader(header)
    ensures output == Reordered(policy, header)
    ensures contentLength == ContentLength(policy.fold, Lines(header)[1..])
    ensures chunked == UsesChunked(policy.fold, Lines(header)[1..])
  {
    var lines := Lines(header);
    var headerLines := lines[1..];
    contentLength := ContentLength(policy.fold, headerLines);
    chunked := UsesChunked(policy.fold, headerLines);
    var desired := Desired(policy, lines[0]);
    if desired == [] {
      return header, contentLength, chunked;
    }
    var rearranged := PickInOrder(Naming(policy.fold), desired, headerLines);
    var orderedLines := [lines[0]] + rearranged;
    output := [];
    for i := 0 to |orderedLines|
      invariant output == Unlines(orderedLines[..i])
    {
      assert orderedLines[..i + 1] == orderedLines[..i] + [orderedLines[i]];
      UnlinesConcat(orderedLines[..i], [orderedLines[i]]);
      assert Unlines([orderedLines[i]]) == orderedLines[i] + CRLF + Unlines([]);
      output := output + orderedLines[i] + CRLF;
    }
    assert orderedLines[..|orderedLines|] == orderedLines;
    output := output + CRLF;
  }
}
