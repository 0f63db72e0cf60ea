/** The tracker that finds the end of a chunked request body (section 7.1 of RFC 9112). */
module ChunkTracker {
  import opened Wrappers
  import opened Bytes
  import opened TextForms
  import opened HeaderOrder

  /** maxBufferedRequestHeader: the most bytes kept of a header block, a chunk-size line or the trailers. */
  const MAX_BUFFERED: nat := 0x10_0000

  datatype Tracker =
    | ReadingSize(line: bytes)
    | ReadingData(remaining: nat)
    | ReadingDataCRLF(position: nat)
    | ReadingTrailers(trailers: bytes)
  {
    /** What the tracker keeps between bytes; without it a data state could swallow a byte too many. */
    predicate Valid() {
      (ReadingData? ==> 0 < remaining <= MAX_INT64) && (ReadingDataCRLF? ==> position < 2)
    }
  }

  const START: Tracker := ReadingSize([])

  datatype ChunkError = SizeLineTooLong | InvalidSize | MissingCRLF | TrailersTooLong

  // ---- One byte at a time ----

  datatype Progress = Continue(next: Tracker) | Complete | Reject(error: ChunkError)

  predicate EndsLine(s: bytes) {
    |s| >= 2 && s[|s| - 2..] == CRLF
  }

  /** The size announced by a chunk-size line without its line break. */
  function ParseSize(line: bytes): (r: Option<nat>)
    ensures r.Some? ==> r.value <= MAX_INT64
  {
    var text := TrimSpace(line);
    var sizeText := match IndexByte(text, 59) case None => text case Some(i) => TrimSpace(text[..i]);
    match ParseInt(sizeText, 16)
    case None => None
    case Some(n) => if n < 0 then None else Some(n)
  }

  /** The effect of one body byte. */
  function Step(t: Tracker, b: byte): (r: Progress)
    requires t.Valid()
    ensures r.Continue? ==> r.next.Valid()
  {
    match t
    case ReadingSize(line) =>
      var longer := line + [b];
      if |longer| > MAX_BUFFERED then Reject(SizeLineTooLong)
      else if !EndsLine(longer) then Continue(ReadingSize(longer))
      else (match ParseSize(longer[..|longer| - 2])
            case None => Reject(InvalidSize)
            case Some(n) => Continue(if n == 0 then ReadingTrailers([]) else ReadingData(n)))
    case ReadingData(n) =>
      Continue(if n == 1 then ReadingDataCRLF(0) else ReadingData(n - 1))
    case ReadingDataCRLF(position) =>
      if b != CRLF[position] then Reject(MissingCRLF)
      else Continue(if position == 1 then ReadingSize([]) else ReadingDataCRLF(1))
    case ReadingTrailers(trailers) =>
      var longer := trailers + [b];
      if |longer| > MAX_BUFFERED then Reject(TrailersTooLong)
      else if longer == CRLF || (|longer| >= 4 && longer[|longer| - 4..] == TERMINATOR) then Complete
      else Continue(ReadingTrailers(longer))
  }

  /** What a run of bytes does: it stays inside the body, completes it after `used` bytes, or breaks it. */
  datatype Scan = Pending(tracker: Tracker) | Finished(used: nat) | Broken(error: ChunkError)

  function TrackAll(t: Tracker, s: bytes): (r: Scan)
    requires t.Valid()
    ensures r.Pending? ==> r.tracker.Valid()
    ensures r.Finished? ==> 1 <= r.used <= |s|
    decreases |s|
  {
    if s == [] then Pending(t)
    else match Step(t, s[0])
      case Complete => Finished(1)
      case Reject(error) => Broken(error)
      case Continue(next) => Later(TrackAll(next, s[1..]), 1)
  }

  function Later(r: Scan, n: nat): Scan {
    if r.Finished? then Finished(r.used + n) else r
  }

  /** The tracker is incremental: a run of bytes may be cut anywhere. */
  lemma {:induction false} TrackConcat(t: Tracker, a: bytes, b: bytes)
    requires t.Valid()
    ensures TrackAll(t, a + b)
         == match TrackAll(t, a) { case Pending(u) => Later(TrackAll(u, b), |a|) case r => r }
    decreases |a|
  {
    if a == [] {
      assert a + b == b;
    } else {
      assert (a + b)[1..] == a[1..] + b;
      var first := Step(t, a[0]);
      if first.Continue? {
        TrackConcat(first.next, a[1..], b);
      }
    }
  }

  /** Nothing completes or breaks before the byte that completes. */
  lemma TrackBefore(t: Tracker, s: bytes, j: nat)
    requires t.Valid() && j <= |s|
    requires match TrackAll(t, s) { case Finished(k) => j < k case Pending(_) => true case Broken(_) => false }
    ensures TrackAll(t, s[..j]).Pending?
  {
    assert s == s[..j] + s[j..];
    TrackConcat(t, s[..j], s[j..]);
  }

  /** A whole stretch of chunk data at once. */
  lemma {:induction false} TrackData(n: nat, s: bytes)
    requires 0 < n <= MAX_INT64 && |s| <= n
    ensures TrackAll(ReadingData(n), s) == Pending(if |s| == n then ReadingDataCRLF(0) else ReadingData(n - |s|))
  {
    if s != [] && n > 1 {
      TrackData(n - 1, s[1..]);
    }
  }

  lemma TrackNone(t: Tracker)
    requires t.Valid()
    ensures TrackAll(t, []) == Pending(t)
  {}

  lemma TrackFirst(t: Tracker, s: bytes)
    requires t.Valid() && s != []
    ensures TrackAll(t, s)
         == match Step(t, s[0]) { case Continue(u) => Later(TrackAll(u, s[1..]), 1) case Complete => Finished(1) case Reject(e) => Broken(e) }
  {
    hide ParseSize;
  }

  lemma TrackOne(t: Tracker, b: byte)
    requires t.Valid()
    ensures TrackAll(t, [b]) == match Step(t, b) { case Continue(u) => Pending(u) case Complete => Finished(1) case Reject(e) => Broken(e) }
  {
    hide Step;
    assert [b][1..] == [];
  }

  /** One more byte of a run that is still inside the body. */
  lemma TrackNext(t: Tracker, data: bytes, i: nat, u: Tracker)
    requires t.Valid() && i < |data| && TrackAll(t, data[..i]) == Pending(u)
    ensures match Step(u, data[i])
            case Continue(v) => TrackAll(t, data[..i + 1]) == Pending(v)
            case Complete => TrackAll(t, data) == Finished(i + 1)
            case Reject(e) => TrackAll(t, data) == Broken(e)
  {
    hide TrackAll, Step;
    assert data == data[..i] + data[i..];
    assert data[..i + 1] == data[..i] + [data[i]];
    TrackFirst(u, data[i..]);
    TrackConcat(t, data[..i], data[i..]);
    TrackConcat(t, data[..i], [data[i]]);
    TrackOne(u, data[i]);
  }

  /** A stretch of chunk data of such a run. */
  lemma TrackMoreData(t: Tracker, data: bytes, i: nat, n: nat, m: nat)
    requires t.Valid() && i + m <= |data| && m <= n && 0 < n <= MAX_INT64 && TrackAll(t, data[..i]) == Pending(ReadingData(n))
    ensures TrackAll(t, data[..i + m]) == Pending(if m == n then ReadingDataCRLF(0) else ReadingData(n - m))
  {
    hide TrackAll;
    assert data[..i + m] == data[..i] + data[i..i + m];
    TrackData(n, data[i..i + m]);
    TrackConcat(t, data[..i], data[i..i + m]);
  }

  // ---- Exactness on well-formed bodies ----

  /** A chunk as sent: the digits of its size, its extensions, its data. */
  datatype Chunk = Chunk(size: bytes, extension: bytes, data: bytes)

  datatype Body = Body(chunks: seq<Chunk>, lastSize: bytes, lastExtension: bytes, trailers: seq<bytes>)

  ghost predicate BlankOnly(s: bytes) {
    forall i :: 0 <= i < |s| ==> s[i] == 32 || s[i] == 9
  }

  /** Extensions are empty or start, after optional blanks, with a semicolon; they hold no line break. */
  ghost predicate IsExtension(e: bytes) {
    && CR !in e && LF !in e
    && (e == [] || exists k :: 0 <= k < |e| && e[k] == 59 && BlankOnly(e[..k]))
  }

  ghost predicate IsSizeLine(size: bytes, extension: bytes, n: nat) {
    && IsNumeral(size, 16, n) && n <= MAX_INT64
    && IsExtension(extension)
    && |size| + |extension| + 2 <= MAX_BUFFERED
  }

  ghost predicate IsField(line: bytes) {
    line != [] && CR !in line && LF !in line
  }

  ghost predicate WellFormed(body: Body) {
    && (forall c :: c in body.chunks ==> c.data != [] && IsSizeLine(c.size, c.extension, |c.data|))
    && IsSizeLine(body.lastSize, body.lastExtension, 0)
    && (forall line :: line in body.trailers ==> IsField(line))
    && |Unlines(body.trailers)| + 2 <= MAX_BUFFERED
  }

  function EncodeChunks(chunks: seq<Chunk>): bytes {
    if chunks == [] then []
    else chunks[0].size + chunks[0].extension + CRLF + chunks[0].data + CRLF + EncodeChunks(chunks[1..])
  }

  /** chunked-body = *chunk last-chunk trailer-section CRLF */
  function Encode(body: Body): bytes {
    EncodeChunks(body.chunks) + (body.lastSize + body.lastExtension + CRLF + (Unlines(body.trailers) + CRLF))
  }

  /** What the tracker reads as a size: a hexadecimal integer that is not negative, between white space, and whatever
      follows a semicolon. */
  ghost predicate SizeText(line: bytes, n: nat) {
    exists left, number, right, extension :: line == left + number + right + extension && SizeParts(left, number, right, extension, n)
  }

  ghost predicate SizeParts(left: bytes, number: bytes, right: bytes, extension: bytes, n: nat) {
    Blank(left) && IsInteger(number, 16, n) && Blank(right) && (extension == [] || extension[0] == 59)
  }

  lemma SizeBeforeSemicolon(left: bytes, number: bytes, right: bytes, extension: bytes, n: nat)
    requires SizeParts(left, number, right, extension, n) && extension != []
    ensures ParseSize(left + number + right + extension) == Some(n)
  {
    hide Blank, IsInteger, TrimLeft, TrimRight, ParseInt, Trimmed;
    var head := number + right;
    var tail := head + extension;
    IntegerEnds(number, 16, n);
    IntegerIsTrimmed(number, 16, n);
    VisibleNotBlank(right, 59);
    assert left + number + right + extension == left + tail;
    VisibleStart(tail);
    TrimLeftOf(left, tail);
    TrimRightKeeps(tail, |head|);
    var text := TrimRight(tail);
    assert text[..|head|] == head && text[|head|] == 59;
    IndexByteIs(text, 59, |head|);
    NothingBlank();
    TrimSpaceOf([], number, right);
    assert [] + number + right == head;
    ParseIntIs(number, 16, n);
  }

  lemma NothingBlank()
    ensures Blank([])
  {}

  lemma SizeAlone(left: bytes, number: bytes, right: bytes, n: nat)
    requires SizeParts(left, number, right, [], n)
    ensures ParseSize(left + number + right) == Some(n)
  {
    hide Blank, IsInteger, TrimSpace, ParseInt, Trimmed;
    IntegerEnds(number, 16, n);
    IntegerIsTrimmed(number, 16, n);
    TrimSpaceOf(left, number, right);
    ParseIntIs(number, 16, n);
  }

  lemma SizeSplits(line: bytes, n: nat)
    requires ParseSize(line) == Some(n)
    ensures SizeText(line, n)
  {
    hide Blank, IsInteger, TrimSpace, ParseInt, Trimmed;
    var text := TrimSpace(line);
    var left, right := TrimSpaceSplits(line);
    match IndexByte(text, 59)
    case None =>
      ParseIntIs(text, 16, n);
      assert line == left + text + right + [] && SizeParts(left, text, right, [], n);
    case Some(i) =>
      var number := TrimSpace(text[..i]);
      var left2, right2 := TrimSpaceSplits(text[..i]);
      ParseIntIs(number, 16, n);
      BlankConcat(left, left2);
      assert text == left2 + number + right2 + text[i..];
      assert line == left + left2 + number + right2 + (text[i..] + right);
      assert SizeParts(left + left2, number, right2, text[i..] + right, n);
  }

  /** The size is read off its line whatever follows a semicolon, and nothing else is read as a size. */
  lemma ParseSizeIs(line: bytes, n: nat)
    ensures ParseSize(line) == Some(n) <==> SizeText(line, n)
  {
    hide SizeParts, ParseSize;
    if ParseSize(line) == Some(n) {
      SizeSplits(line, n);
    }
    if SizeText(line, n) {
      var left, number, right, extension :| line == left + number + right + extension && SizeParts(left, number, right, extension, n);
      if extension == [] {
        assert left + number + right + [] == left + number + right;
        SizeAlone(left, number, right, n);
      } else {
        SizeBeforeSemicolon(left, number, right, extension, n);
      }
    }
  }

  lemma {:induction false} BlanksAreBlank(s: bytes)
    requires BlankOnly(s)
    ensures Blank(s)
  {
    if s != [] {
      SpaceIs(s[..1]);
      BlanksAreBlank(s[1..]);
      BlankAfter(s[..1], s[1..]);
      assert s == s[..1] + s[1..];
    }
  }

  lemma SizeLineText(size: bytes, extension: bytes, n: nat)
    requires IsSizeLine(size, extension, n)
    ensures SizeText(size + extension, n)
  {
    hide Blank, IsNumeral, BlankOnly;
    var k := 0;
    if extension != [] {
      k :| 0 <= k < |extension| && extension[k] == 59 && BlankOnly(extension[..k]);
    } else {
      assert extension[..k] == [];
    }
    BlanksAreBlank(extension[..k]);
    NothingBlank();
    assert size == [] + size && IsSigned([], size, 16, n);
    assert IsInteger(size, 16, n);
    assert SizeParts([], size, extension[..k], extension[k..], n);
    assert size + extension == [] + size + extension[..k] + extension[k..];
  }

  /** A line without a line break is only kept. */
  lemma {:induction false} TrackUnbroken(line: bytes)
    requires NoBreak(line) && |line| <= MAX_BUFFERED
    ensures TrackAll(START, line) == Pending(ReadingSize(line))
  {
    hide TrackAll, ParseSize, NoBreak;
    if line == [] {
      TrackNone(START);
    } else {
      var k := |line| - 1;
      UnbrokenPrefix(line, k);
      TrackUnbroken(line[..k]);
      assert line == line[..k] + [line[k]];
      UnbrokenEnd(line);
      TrackOne(ReadingSize(line[..k]), line[k]);
      TrackConcat(START, line[..k], [line[k]]);
    }
  }

  lemma UnbrokenPrefix(line: bytes, k: nat)
    requires NoBreak(line) && k <= |line|
    ensures NoBreak(line[..k])
  {
    forall i ensures !OccursAt(line[..k], CRLF, i) {
      assert !OccursAt(line, CRLF, i);
      assert 0 <= i && i + 2 <= k ==> line[..k][i..i + 2] == line[i..i + 2];
    }
  }

  lemma UnbrokenEnd(line: bytes)
    requires NoBreak(line)
    ensures !EndsLine(line)
  {
    assert !OccursAt(line, CRLF, |line| - 2);
    assert |line| >= 2 ==> line[|line| - 2..] == line[|line| - 2..|line| - 2 + 2];
  }

  /** A line with its line break is read as a size. */
  lemma TrackWholeLine(line: bytes, n: nat)
    requires NoBreak(line) && |line| + 2 <= MAX_BUFFERED && SizeText(line, n)
    ensures n <= MAX_INT64
    ensures TrackAll(START, line + CRLF) == Pending(if n == 0 then ReadingTrailers([]) else ReadingData(n))
  {
    hide TrackAll, ParseSize, NoBreak, SizeText;
    ParseSizeIs(line, n);
    TrackUnbroken(line);
    UnbrokenWithCr(line);
    TrackUnbroken(line + [CR]);
    assert line + CRLF == line + [CR] + [LF];
    assert (line + CRLF)[..|line|] == line;
    TrackOne(ReadingSize(line + [CR]), LF);
    TrackConcat(START, line + [CR], [LF]);
  }

  lemma UnbrokenWithCr(line: bytes)
    requires NoBreak(line)
    ensures NoBreak(line + [CR])
  {
    var longer := line + [CR];
    forall i ensures !OccursAt(longer, CRLF, i) {
      assert !OccursAt(line, CRLF, i);
      if 0 <= i && i + 2 <= |line| {
        assert longer[i..i + 2] == line[i..i + 2];
      } else if 0 <= i && i + 2 == |longer| {
        assert longer[i..i + 2][1] == CR;
      }
    }
  }

  lemma TrackTwo(t: Tracker, a: byte, b: byte)
    requires t.Valid()
    requires Step(t, a).Continue?
    ensures TrackAll(t, [a, b])
         == match Step(Step(t, a).next, b) { case Continue(u) => Pending(u) case Complete => Finished(2) case Reject(e) => Broken(e) }
  {
    var u := Step(t, a).next;
    hide TrackAll, Step;
    TrackFirst(t, [a, b]);
    TrackOne(u, b);
    assert [a, b][1..] == [b];
  }

  /** A size line as the grammar has it. */
  lemma TrackSizeLine(size: bytes, extension: bytes, n: nat)
    requires IsSizeLine(size, extension, n)
    ensures TrackAll(START, size + extension + CRLF) == Pending(if n == 0 then ReadingTrailers([]) else ReadingData(n))
  {
    hide TrackAll, SizeText, IsNumeral;
    SizeLineText(size, extension, n);
    NumeralBytes(size, 16, n);
    var line := size + extension;
    assert LF !in line;
    forall i ensures !OccursAt(line, CRLF, i) {
      assert 0 <= i && i + 2 <= |line| ==> line[i..i + 2][1] == line[i + 1] && line[i + 1] in line;
    }
    TrackWholeLine(line, n);
  }

  /** A whole chunk brings the tracker back to its start, whatever bytes the chunk holds. */
  lemma TrackChunk(c: Chunk)
    requires c.data != [] && IsSizeLine(c.size, c.extension, |c.data|)
    ensures TrackAll(START, c.size + c.extension + CRLF + c.data + CRLF) == Pending(START)
  {
    hide TrackAll, ParseSize;
    var line := c.size + c.extension + CRLF;
    TrackSizeLine(c.size, c.extension, |c.data|);
    TrackData(|c.data|, c.data);
    TrackConcat(START, line, c.data);
    TrackTwo(ReadingDataCRLF(0), CR, LF);
    TrackConcat(START, line + c.data, CRLF);
  }

  lemma {:induction false} TrackChunks(chunks: seq<Chunk>)
    requires forall c :: c in chunks ==> c.data != [] && IsSizeLine(c.size, c.extension, |c.data|)
    ensures TrackAll(START, EncodeChunks(chunks)) == Pending(START)
  {
    hide Step;
    if chunks != [] {
      var c := chunks[0];
      TrackChunk(c);
      TrackChunks(chunks[1..]);
      TrackConcat(START, c.size + c.extension + CRLF + c.data + CRLF, EncodeChunks(chunks[1..]));
    }
  }

  /** Bytes of a trailer field only lengthen the trailers. */
  lemma {:induction false} TrackField(kept: bytes, text: bytes)
    requires LF !in text && |kept| + |text| <= MAX_BUFFERED
    ensures TrackAll(ReadingTrailers(kept), text) == Pending(ReadingTrailers(kept + text))
    decreases |text|
  {
    hide TrackAll, ParseSize;
    if text == [] {
      TrackNone(ReadingTrailers(kept));
      assert kept + text == kept;
    } else {
      var longer := kept + [text[0]];
      TrackFirst(ReadingTrailers(kept), text);
      assert text[0] in text && longer[|longer| - 1] == text[0];
      assert |longer| >= 4 ==> longer[|longer| - 4..][3] == text[0];
      TrackField(longer, text[1..]);
      assert kept + text == longer + text[1..];
    }
  }

  /** The line feed that ends a trailer field does not complete the body. */
  lemma TrackFieldEnd(kept: bytes, line: bytes)
    requires IsField(line) && |kept| + |line| + 2 <= MAX_BUFFERED
    ensures EndsLine(kept + line + CRLF)
    ensures TrackAll(ReadingTrailers(kept + line + [CR]), [LF]) == Pending(ReadingTrailers(kept + line + CRLF))
  {
    hide TrackAll, ParseSize;
    var before, after := kept + line + [CR], kept + line + CRLF;
    assert after == before + [LF];
    assert after[|after| - 3] == line[|line| - 1] && line[|line| - 1] in line;
    assert |after| >= 4 ==> after[|after| - 4..][1] == after[|after| - 3];
    TrackOne(ReadingTrailers(before), LF);
  }

  /** A whole trailer field. */
  lemma TrackWholeField(kept: bytes, line: bytes)
    requires IsField(line) && |kept| + |line| + 2 <= MAX_BUFFERED
    ensures TrackAll(ReadingTrailers(kept), line + CRLF) == Pending(ReadingTrailers(kept + line + CRLF))
  {
    hide TrackAll, Step;
    TrackField(kept, line + [CR]);
    TrackFieldEnd(kept, line);
    assert kept + (line + [CR]) == kept + line + [CR];
    TrackConcat(ReadingTrailers(kept), line + [CR], [LF]);
    assert line + [CR] + [LF] == line + CRLF;
  }

  /** The empty line after the trailers. */
  lemma TrackLastLine(kept: bytes)
    requires kept == [] || EndsLine(kept)
    requires |kept| + 2 <= MAX_BUFFERED
    ensures TrackAll(ReadingTrailers(kept), CRLF) == Finished(2)
  {
    hide TrackAll, ParseSize;
    var cr, crlf := kept + [CR], kept + [CR] + [LF];
    assert |cr| >= 4 ==> cr[|cr| - 4..][3] == CR;
    assert kept != [] ==> crlf[|crlf| - 4..] == kept[|kept| - 2..] + CRLF;
    TrackTwo(ReadingTrailers(kept), CR, LF);
  }

  lemma {:induction false} TrackTrailers(kept: bytes, lines: seq<bytes>)
    requires forall line :: line in lines ==> IsField(line)
    requires kept == [] || EndsLine(kept)
    requires |kept| + |Unlines(lines)| + 2 <= MAX_BUFFERED
    ensures TrackAll(ReadingTrailers(kept), Unlines(lines) + CRLF) == Finished(|Unlines(lines)| + 2)
    decreases |lines|
  {
    hide TrackAll, Step;
    if lines == [] {
      TrackLastLine(kept);
      assert Unlines(lines) + CRLF == CRLF;
    } else {
      var line, rest := lines[0], Unlines(lines[1..]);
      assert line in lines;
      assert Unlines(lines) == line + CRLF + rest;
      assert forall l :: l in lines[1..] ==> l in lines;
      hide Unlines, IsField;
      TrackWholeField(kept, line);
      TrackFieldEnd(kept, line);
      TrackTrailers(kept + line + CRLF, lines[1..]);
      assert Unlines(lines) + CRLF == (line + CRLF) + (rest + CRLF);
      TrackConcat(ReadingTrailers(kept), line + CRLF, rest + CRLF);
    }
  }

  /** The tracker completes a well-formed chunked body exactly at its last byte, whatever bytes the chunks hold
      and whatever follows the body. */
  lemma EncodedBodyCompletes(body: Body, rest: bytes)
    requires WellFormed(body)
    ensures TrackAll(START, Encode(body) + rest) == Finished(|Encode(body)|)
    ensures forall j :: 0 <= j < |Encode(body)| ==> TrackAll(START, Encode(body)[..j]).Pending?
  {
    hide TrackAll, Step, ParseSize;
    var chunks, last := EncodeChunks(body.chunks), body.lastSize + body.lastExtension + CRLF;
    var trailers := Unlines(body.trailers) + CRLF;
    TrackChunks(body.chunks);
    TrackSizeLine(body.lastSize, body.lastExtension, 0);
    TrackTrailers([], body.trailers);
    TrackConcat(START, last, trailers);
    TrackConcat(START, chunks, last + trailers);
    TrackConcat(START, Encode(body), rest);
    forall j | 0 <= j < |Encode(body)| ensures TrackAll(START, Encode(body)[..j]).Pending? {
      TrackBefore(START, Encode(body), j);
    }
  }

  // ---- Exactly the bodies that the tracker completes ----

  /** A chunk as the tracker takes it: a size line of any form that it reads, and the data. */
  datatype LooseChunk = LooseChunk(line: bytes, data: bytes)

  /** Everything after the last size line is in `ending`. */
  datatype LooseBody = LooseBody(chunks: seq<LooseChunk>, lastLine: bytes, ending: bytes)

  ghost predicate IsLooseLine(line: bytes, n: nat) {
    NoBreak(line) && |line| + 2 <= MAX_BUFFERED && SizeText(line, n)
  }

  ghost predicate Ends(s: bytes) {
    s == CRLF || EndsHeader(s)
  }

  /** The trailers end with the first empty line, which may be their only one. */
  ghost predicate IsEnding(s: bytes) {
    Ends(s) && |s| <= MAX_BUFFERED && forall j :: 0 <= j < |s| ==> !Ends(s[..j])
  }

  ghost predicate IsLoose(b: LooseBody) {
    && (forall c :: c in b.chunks ==> c.data != [] && IsLooseLine(c.line, |c.data|))
    && IsLooseLine(b.lastLine, 0) && IsEnding(b.ending)
  }

  function LooseChunks(chunks: seq<LooseChunk>): bytes {
    if chunks == [] then [] else chunks[0].line + CRLF + chunks[0].data + CRLF + LooseChunks(chunks[1..])
  }

  function LooseEncode(b: LooseBody): bytes {
    LooseChunks(b.chunks) + (b.lastLine + CRLF + b.ending)
  }

  /** A run that is still inside the body completes later. */
  lemma TrackAfter(t: Tracker, s: bytes, k: nat, j: nat, u: Tracker)
    requires t.Valid() && TrackAll(t, s) == Finished(k) && j <= |s| && TrackAll(t, s[..j]) == Pending(u)
    ensures j < k && TrackAll(u, s[j..]) == Finished(k - j)
  {
    hide TrackAll, Step;
    var a, b := s[..j], s[j..];
    assert s == a + b;
    TrackConcat(t, a, b);
  }

  /** What a run that completes has done after each of its bytes. */
  lemma OneMore(t: Tracker, s: bytes, k: nat, j: nat, u: Tracker)
    requires t.Valid() && TrackAll(t, s) == Finished(k) && j < k && TrackAll(t, s[..j]) == Pending(u)
    ensures j + 1 < k ==> Step(u, s[j]).Continue? && TrackAll(t, s[..j + 1]) == Pending(Step(u, s[j]).next)
    ensures j + 1 == k ==> Step(u, s[j]).Complete?
  {
    hide *;
    TrackNext(t, s, j, u);
    var p := Step(u, s[j]);
    if p.Continue? {
      TrackAfter(t, s, k, j + 1, p.next);
    }
  }

  /** Before the first line break of a completed body only the size line is kept. */
  lemma {:induction false} LineSoFar(s: bytes, k: nat, j: nat)
    requires TrackAll(START, s) == Finished(k) && j < k && NoBreak(s[..j])
    ensures TrackAll(START, s[..j]) == Pending(ReadingSize(s[..j])) && j <= MAX_BUFFERED
  {
    hide TrackAll, ParseSize, NoBreak;
    if j == 0 {
      TrackNone(START);
      assert s[..0] == [];
    } else {
      assert s[..j][..j - 1] == s[..j - 1];
      UnbrokenPrefix(s[..j], j - 1);
      LineSoFar(s, k, j - 1);
      OneMore(START, s, k, j - 1, ReadingSize(s[..j - 1]));
      UnbrokenEnd(s[..j]);
      assert s[..j - 1] + [s[j - 1]] == s[..j];
    }
  }

  /** A completed body starts with a size line. */
  lemma FirstLine(s: bytes, k: nat) returns (i: nat, n: nat)
    requires TrackAll(START, s) == Finished(k)
    ensures i + 2 < k && s[..i + 2] == s[..i] + CRLF && IsLooseLine(s[..i], n) && n <= MAX_INT64
    ensures TrackAll(if n == 0 then ReadingTrailers([]) else ReadingData(n), s[i + 2..]) == Finished(k - (i + 2))
  {
    hide TrackAll, ParseSize, SizeText, NoBreak;
    i := LineBreakIn(s, k);
    assert s[i] == s[i..i + 2][0] && s[i + 1] == s[i..i + 2][1];
    assert s[..i + 1] == s[..i] + [CR] && s[..i + 2] == s[..i] + CRLF;
    UnbrokenWithCr(s[..i]);
    LineSoFar(s, k, i + 1);
    OneMore(START, s, k, i + 1, ReadingSize(s[..i + 1]));
    assert s[..i + 1] + [LF] == s[..i + 2] && s[..i + 2][|s[..i + 2]| - 2..] == CRLF && s[..i + 2][..i] == s[..i];
    n := ParseSize(s[..i]).value;
    ParseSizeIs(s[..i], n);
    TrackAfter(START, s, k, i + 2, if n == 0 then ReadingTrailers([]) else ReadingData(n));
  }

  lemma LineBreakIn(s: bytes, k: nat) returns (i: nat)
    requires TrackAll(START, s) == Finished(k)
    ensures i + 2 <= k && s[i..i + 2] == CRLF && NoBreak(s[..i])
  {
    hide TrackAll, ParseSize;
    var found := Index(s[..k], CRLF);
    if found == None {
      assert NoBreak(s[..k]);
      assert s[..k][..k - 1] == s[..k - 1];
      UnbrokenPrefix(s[..k], k - 1);
      LineSoFar(s, k, k - 1);
      OneMore(START, s, k, k - 1, ReadingSize(s[..k - 1]));
      assert false;
    }
    i := found.value;
    BreakAt(s, k, i);
  }

  lemma BreakAt(s: bytes, k: nat, i: nat)
    requires k <= |s| && Index(s[..k], CRLF) == Some(i)
    ensures i + 2 <= k && s[i..i + 2] == CRLF && NoBreak(s[..i])
  {
    assert s[..k][i..i + 2] == s[i..i + 2];
    forall j ensures !OccursAt(s[..i], CRLF, j) {
      if 0 <= j && j + 2 <= i {
        assert !OccursAt(s[..k], CRLF, j);
        assert s[..i][j..j + 2] == s[..k][j..j + 2];
      }
    }
  }

  /** Chunk data is followed by a line break. */
  lemma DataEnds(n: nat, s: bytes, k: nat)
    requires 0 < n <= MAX_INT64 && TrackAll(ReadingData(n), s) == Finished(k)
    ensures n + 2 < k && s[n..n + 2] == CRLF && TrackAll(START, s[n + 2..]) == Finished(k - (n + 2))
  {
    hide TrackAll;
    if |s| < n {
      TrackData(n, s);
      assert false;
    } else {
      TrackData(n, s[..n]);
      TrackAfter(ReadingData(n), s, k, n, ReadingDataCRLF(0));
      var rest := s[n..];
      TrackFirst(ReadingDataCRLF(0), rest);
      TrackFirst(ReadingDataCRLF(1), rest[1..]);
      assert s[n..n + 2] == [rest[0], rest[1..][0]] && rest[1..][1..] == s[n + 2..];
    }
  }

  lemma {:induction false} EndingSoFar(s: bytes, k: nat, j: nat)
    requires TrackAll(ReadingTrailers([]), s) == Finished(k) && j < k
    ensures TrackAll(ReadingTrailers([]), s[..j]) == Pending(ReadingTrailers(s[..j])) && !Ends(s[..j])
  {
    hide TrackAll, Step, Ends;
    if j == 0 {
      TrackNone(ReadingTrailers([]));
      NothingEnds();
      assert s[..0] == [];
    } else {
      EndingSoFar(s, k, j - 1);
      OneMore(ReadingTrailers([]), s, k, j - 1, ReadingTrailers(s[..j - 1]));
      EndsNow(s[..j - 1], s[j - 1]);
      assert s[..j - 1] + [s[j - 1]] == s[..j];
    }
  }

  lemma NothingEnds()
    ensures !Ends([])
  {}

  lemma EndingOf(s: bytes, k: nat)
    requires TrackAll(ReadingTrailers([]), s) == Finished(k)
    ensures IsEnding(s[..k])
  {
    hide TrackAll, Step, Ends;
    EndingSoFar(s, k, k - 1);
    OneMore(ReadingTrailers([]), s, k, k - 1, ReadingTrailers(s[..k - 1]));
    assert s[..k - 1] + [s[k - 1]] == s[..k];
    EndsNow(s[..k - 1], s[k - 1]);
    forall j | 0 <= j < k ensures !Ends(s[..k][..j]) {
      EndingSoFar(s, k, j);
      assert s[..k][..j] == s[..j];
    }
  }

  lemma EndsNow(kept: bytes, b: byte)
    ensures Step(ReadingTrailers(kept), b).Complete? <==> |kept| + 1 <= MAX_BUFFERED && Ends(kept + [b])
    ensures |kept| + 1 <= MAX_BUFFERED && !Ends(kept + [b]) ==> Step(ReadingTrailers(kept), b) == Continue(ReadingTrailers(kept + [b]))
    ensures Step(ReadingTrailers(kept), b).Continue? ==>
      !Ends(kept + [b]) && Step(ReadingTrailers(kept), b) == Continue(ReadingTrailers(kept + [b]))
  {}

  /** Every body that the tracker completes is of the loose form. */
  lemma {:induction false} CompletedIsLoose(s: bytes, k: nat) returns (b: LooseBody)
    requires TrackAll(START, s) == Finished(k)
    ensures IsLoose(b) && LooseEncode(b) == s[..k]
    decreases |s|
  {
    hide TrackAll, IsLooseLine, IsEnding, LooseEncode;
    var i, n := FirstLine(s, k);
    var rest := s[i + 2..];
    if n == 0 {
      EndingOf(rest, k - (i + 2));
      b := LooseBody([], s[..i], rest[..k - (i + 2)]);
      LooseLast(b);
      assert s[..k] == s[..i] + CRLF + b.ending;
    } else {
      DataEnds(n, rest, k - (i + 2));
      var c := LooseChunk(s[..i], rest[..n]);
      var later := CompletedIsLoose(rest[n + 2..], k - (i + 2) - (n + 2));
      b := LooseBody([c] + later.chunks, later.lastLine, later.ending);
      var head := s[..i] + CRLF + rest[..n] + CRLF;
      assert s[..i + 2 + n + 2] == head;
      assert s[..k] == head + LooseEncode(later);
      LooseFirst(c, later);
    }
  }

  lemma LooseLast(b: LooseBody)
    requires b.chunks == []
    ensures LooseEncode(b) == b.lastLine + CRLF + b.ending
  {}

  lemma LooseFirst(c: LooseChunk, b: LooseBody)
    ensures LooseEncode(LooseBody([c] + b.chunks, b.lastLine, b.ending))
         == c.line + CRLF + c.data + CRLF + LooseEncode(b)
  {
    assert ([c] + b.chunks)[1..] == b.chunks;
    var head, tail := c.line + CRLF + c.data + CRLF, b.lastLine + CRLF + b.ending;
    assert head + (LooseChunks(b.chunks) + tail) == head + LooseChunks(b.chunks) + tail;
  }

  lemma TrackLooseChunk(c: LooseChunk)
    requires c.data != [] && IsLooseLine(c.line, |c.data|)
    ensures TrackAll(START, c.line + CRLF + c.data + CRLF) == Pending(START)
  {
    hide TrackAll, SizeText, NoBreak;
    var line := c.line + CRLF;
    TrackWholeLine(c.line, |c.data|);
    TrackData(|c.data|, c.data);
    TrackConcat(START, line, c.data);
    TrackTwo(ReadingDataCRLF(0), CR, LF);
    TrackConcat(START, line + c.data, CRLF);
  }

  lemma {:induction false} TrackLooseChunks(chunks: seq<LooseChunk>)
    requires forall c :: c in chunks ==> c.data != [] && IsLooseLine(c.line, |c.data|)
    ensures TrackAll(START, LooseChunks(chunks)) == Pending(START)
  {
    hide Step, IsLooseLine;
    if chunks != [] {
      var c := chunks[0];
      TrackLooseChunk(c);
      TrackLooseChunks(chunks[1..]);
      TrackConcat(START, c.line + CRLF + c.data + CRLF, LooseChunks(chunks[1..]));
    }
  }

  lemma {:induction false} TrackEndingSoFar(s: bytes, j: nat)
    requires IsEnding(s) && j < |s|
    ensures TrackAll(ReadingTrailers([]), s[..j]) == Pending(ReadingTrailers(s[..j]))
  {
    hide TrackAll, Ends;
    if j == 0 {
      TrackNone(ReadingTrailers([]));
      assert s[..0] == [];
    } else {
      TrackEndingSoFar(s, j - 1);
      assert s[..j] == s[..j - 1] + [s[j - 1]];
      EndsNow(s[..j - 1], s[j - 1]);
      TrackOne(ReadingTrailers(s[..j - 1]), s[j - 1]);
      TrackConcat(ReadingTrailers([]), s[..j - 1], [s[j - 1]]);
    }
  }

  lemma TrackEnding(s: bytes)
    requires IsEnding(s)
    ensures TrackAll(ReadingTrailers([]), s) == Finished(|s|)
  {
    hide TrackAll;
    var k := |s| - 1;
    TrackEndingSoFar(s, k);
    assert s == s[..k] + [s[k]];
    EndsNow(s[..k], s[k]);
    TrackOne(ReadingTrailers(s[..k]), s[k]);
    TrackConcat(ReadingTrailers([]), s[..k], [s[k]]);
  }

  lemma LooseCompletes(b: LooseBody, rest: bytes)
    requires IsLoose(b)
    ensures TrackAll(START, LooseEncode(b) + rest) == Finished(|LooseEncode(b)|)
  {
    hide TrackAll, SizeText, NoBreak, IsEnding, LooseChunks;
    TrackLooseChunks(b.chunks);
    TrackWholeLine(b.lastLine, 0);
    TrackEnding(b.ending);
    TrackConcat(START, b.lastLine + CRLF, b.ending);
    TrackConcat(START, LooseChunks(b.chunks), b.lastLine + CRLF + b.ending);
    TrackConcat(START, LooseEncode(b), rest);
  }

  ghost predicate IsLooseBytes(s: bytes) {
    exists b :: IsLoose(b) && LooseEncode(b) == s
  }

  /** The tracker completes after k bytes exactly when they are a body of the loose form. */
  lemma CompletesIff(s: bytes, k: nat)
    requires k <= |s|
    ensures TrackAll(START, s) == Finished(k) <==> IsLooseBytes(s[..k])
  {
    hide TrackAll, IsLoose, LooseEncode;
    if TrackAll(START, s) == Finished(k) {
      var b := CompletedIsLoose(s, k);
    }
    if b :| IsLoose(b) && LooseEncode(b) == s[..k] {
      LooseCompletes(b, s[k..]);
      assert s == s[..k] + s[k..];
    }
  }

  lemma WellFormedIsLoose(body: Body)
    requires WellFormed(body)
    ensures IsLooseBytes(Encode(body))
  {
    hide WellFormed, Encode, TrackAll, IsLooseBytes;
    EncodedBodyCompletes(body, []);
    assert Encode(body) + [] == Encode(body);
    CompletesIff(Encode(body), |Encode(body)|);
    assert Encode(body)[..|Encode(body)|] == Encode(body);
  }

  // ---- The tracker object ----

  datatype State = StateSize | StateData | StateDataCRLF | StateTrailers

  class ChunkedRequestTracker {
    var state: State
    var line: bytes
    var dataRemaining: int
    var crlfPosition: int
    var trailers: bytes

    ghost predicate Valid()
      reads this
    {
      && (state.StateSize? || line == [])
      && (state.StateTrailers? || trailers == [])
      && (state.StateData? ==> 0 < dataRemaining <= MAX_INT64)
      && (state.StateDataCRLF? ==> 0 <= crlfPosition < 2)
    }

    ghost function Value(): (t: Tracker)
      requires Valid()
      reads this
      ensures t.Valid()
    {
      match state
      case StateSize => ReadingSize(line)
      case StateData => ReadingData(dataRemaining)
      case StateDataCRLF => ReadingDataCRLF(crlfPosition)
      case StateTrailers => ReadingTrailers(trailers)
    }

    constructor ()
      ensures Valid() && Value() == START
    {
      state, line, dataRemaining, crlfPosition, trailers := StateSize, [], 0, 0, [];
    }

    /** The preview copy. */
    method Clone() returns (cloned: ChunkedRequestTracker)
      requires Valid()
      ensures fresh(cloned) && cloned.Valid() && cloned.Value() == Value()
    {
      cloned := new ChunkedRequestTracker();
      cloned.state, cloned.line, cloned.dataRemaining := state, line, dataRemaining;
      cloned.crlfPosition, cloned.trailers := crlfPosition, trailers;
    }

    /** The states that take one byte at a time. */
    method TakeByte(b: byte) returns (completed: bool, error: Option<ChunkError>)
      requires Valid() && !state.StateData?
      modifies this
      ensures match Step(old(Value()), b)
              case Continue(next) => !completed && error == None && Valid() && Value() == next
              case Complete => completed && error == None && Valid() && state == StateTrailers
              case Reject(e) => !completed && error == Some(e)
    {
      hide ParseSize;
      completed, error := false, None;
      match state {
        case StateSize =>
          line := line + [b];
          if |line| > MAX_BUFFERED {
            return false, Some(SizeLineTooLong);
          }
          if !EndsLine(line) {
            return;
          }
          var size := ParseSize(line[..|line| - 2]);
          if size == None {
            return false, Some(InvalidSize);
          }
          line := [];
          if size.value == 0 {
            state := StateTrailers;
            return;
          }
          dataRemaining := size.value;
          state := StateData;
        case StateDataCRLF =>
          if b != CRLF[crlfPosition] {
            return false, Some(MissingCRLF);
          }
          crlfPosition := crlfPosition + 1;
          if crlfPosition == 2 {
            state := StateSize;
          }
        case StateTrailers =>
          trailers := trailers + [b];
          if |trailers| > MAX_BUFFERED {
            return false, Some(TrailersTooLong);
          }
          completed := trailers == CRLF || (|trailers| >= 4 && trailers[|trailers| - 4..] == TERMINATOR);
      }
    }

    lemma InData()
      requires Valid() && state == StateData
      ensures Value() == ReadingData(dataRemaining) && 0 < dataRemaining <= MAX_INT64
    {}

    /** The data state takes a stretch of bytes at once. */
    method TakeData(n: nat)
      requires Valid() && state == StateData && n <= dataRemaining
      modifies this
      ensures Valid()
      ensures Value() == if n == old(dataRemaining) then ReadingDataCRLF(0) else ReadingData(old(dataRemaining) - n)
    {
      dataRemaining := dataRemaining - n;
      if dataRemaining == 0 {
        crlfPosition := 0;
        state := StateDataCRLF;
      }
    }

    /** Reads `data` up to the end of the body, of the data, or to the first byte that breaks the encoding. */
    method Consume(data: bytes) returns (consumed: nat, completed: bool, error: Option<ChunkError>)
      requires Valid()
      modifies this
      ensures match TrackAll(old(Value()), data)
              case Pending(t) => consumed == |data| && !completed && error == None && Valid() && Value() == t
              case Finished(k) => consumed == k && completed && error == None && Valid() && state == StateTrailers
              case Broken(e) =>
                // The byte that breaks the encoding counts as consumed, except one in place of a line break after data.
                var breaking := consumed - if e == MissingCRLF then 0 else 1;
                !completed && error == Some(e)
                && 0 <= breaking < |data| && TrackAll(old(Value()), data[..breaking]).Pending?
    {
      hide *;
      consumed, completed, error := 0, false, None;
      ghost var start := Value();
      assert data[..0] == [];
      TrackNone(start);
      while consumed < |data|
        invariant consumed <= |data| && Valid() && !completed && error == None
        invariant TrackAll(start, data[..consumed]) == Pending(Value())
        decreases |data| - consumed
      {
        if state == StateData {
          InData();
          var chunkBytes := if |data| - consumed < dataRemaining then |data| - consumed else dataRemaining;
          TrackMoreData(start, data, consumed, dataRemaining, chunkBytes);
          consumed := consumed + chunkBytes;
          TakeData(chunkBytes);
        } else {
          TrackNext(start, data, consumed, Value());
          completed, error := TakeByte(data[consumed]);
          if error == Some(MissingCRLF) {
            return;
          }
          consumed := consumed + 1;
          if completed || error.Some? {
            return;
          }
        }
      }
      assert data[..consumed] == data;
    }
  }
}
