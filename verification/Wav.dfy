/** The WAV reader and writer of the realtime example: RIFF chunks around 16-bit mono PCM. */
module Wav {
  import opened Wrappers
  import opened Bytes

  const MAX_INPUT: nat := 15 * 0x10_0000
  const MAX_OUTPUT: nat := 64 * 0x10_0000
  const MAX_FILE: nat := MAX_INPUT + 0x10_0000
  const SAMPLE_RATE: nat := 24000
  const BYTES_PER_SAMPLE: nat := 2

  const RIFF: bytes := [82, 73, 70, 70]
  const WAVE: bytes := [87, 65, 86, 69]
  const FMT: bytes := [102, 109, 116, 32]
  const DATA: bytes := [100, 97, 116, 97]

  datatype Result<+T> = Ok(value: T) | Err(error: WavError)

  datatype WavError =
    | FileTooLarge | NotWave | BadChunkSize | ShortFormat | TooMuchData
    | NoFormat | NotPCM | NotMono | WrongRate | WrongDepth | NoData | IncompleteSample
    | EmptyResponse | ResponseTooLarge

  // ---- Little-endian numbers ----

  function Little16(n: nat): (s: bytes)
    requires n < 0x1_0000
    ensures |s| == 2
  {
    [n % 256, n / 256]
  }

  function Little32(n: nat): (s: bytes)
    requires n < 0x1_0000_0000
    ensures |s| == 4
  {
    Little16(n % 0x1_0000) + Little16(n / 0x1_0000)
  }

  function Value16(s: bytes): (n: nat)
    requires |s| == 2
    ensures n < 0x1_0000
  {
    var low: int, high: int := s[0], s[1];
    low + 256 * high
  }

  function Value32(s: bytes): (n: nat)
    requires |s| == 4
    ensures n < 0x1_0000_0000
  {
    Value16(s[..2]) + 0x1_0000 * Value16(s[2..])
  }

  lemma Little16Back(n: nat)
    requires n < 0x1_0000
    ensures Value16(Little16(n)) == n
  {}

  lemma Little32Back(n: nat)
    requires n < 0x1_0000_0000
    ensures Value32(Little32(n)) == n
  {
    Little16Back(n % 0x1_0000);
    Little16Back(n / 0x1_0000);
    assert Little32(n)[..2] == Little16(n % 0x1_0000) && Little32(n)[2..] == Little16(n / 0x1_0000);
  }

  // ---- Reading ----

  datatype Format = Format(audioFormat: nat, channels: nat, sampleRate: nat, bitsPerSample: nat)

  /** What the reader has gathered: the last format chunk, and the data chunks one after the other. */
  datatype Gathered = Gathered(format: Option<Format>, pcm: bytes)

  const NOTHING: Gathered := Gathered(None, [])

  function FormatOf(body: bytes): Format
    requires |body| >= 16
  {
    Format(Value16(body[0..2]), Value16(body[2..4]), Value32(body[4..8]), Value16(body[14..16]))
  }

  /** The effect of one chunk. */
  function TakeChunk(g: Gathered, id: bytes, body: bytes): Result<Gathered> {
    if id == FMT then
      if |body| < 16 then Err(ShortFormat)
      else Ok(g.(format := Some(FormatOf(body))))
    else if id == DATA then
      if |g.pcm| + |body| > MAX_INPUT then Err(TooMuchData) else Ok(g.(pcm := g.pcm + body))
    else Ok(g)
  }

  /** The chunk loop: it stops when fewer than eight bytes are left. */
  function TakeChunks(payload: bytes, offset: nat, g: Gathered): Result<Gathered>
    decreases |payload| - offset
  {
    if offset + 8 > |payload| then Ok(g)
    else
      var size := Value32(payload[offset + 4..offset + 8]);
      var start := offset + 8;
      if start + size > |payload| then Err(BadChunkSize)
      else match TakeChunk(g, payload[offset..offset + 4], payload[start..start + size])
        case Err(e) => Err(e)
        case Ok(more) => TakeChunks(payload, start + size + size % 2, more)
  }

  function Check(g: Gathered): Result<bytes> {
    match g.format
    case None => Err(NoFormat)
    case Some(f) =>
      if f.audioFormat != 1 then Err(NotPCM)
      else if f.channels != 1 then Err(NotMono)
      else if f.sampleRate != SAMPLE_RATE then Err(WrongRate)
      else if f.bitsPerSample != 16 then Err(WrongDepth)
      else if g.pcm == [] then Err(NoData)
      else if |g.pcm| % BYTES_PER_SAMPLE != 0 then Err(IncompleteSample)
      else Ok(g.pcm)
  }

  /** readPCM16WAV, on the content of the file. */
  function Read(payload: bytes): Result<bytes> {
    if |payload| > MAX_FILE then Err(FileTooLarge)
    else if |payload| < 12 || payload[..4] != RIFF || payload[8..12] != WAVE then Err(NotWave)
    else match TakeChunks(payload, 12, NOTHING)
      case Err(e) => Err(e)
      case Ok(g) => Check(g)
  }

  // ---- Writing ----

  function FormatBody(): (s: bytes)
    ensures |s| == 16
  {
    Little16(1) + Little16(1) + Little32(SAMPLE_RATE) + Little32(SAMPLE_RATE * BYTES_PER_SAMPLE)
    + Little16(BYTES_PER_SAMPLE) + Little16(16)
  }

  /** writePCM16WAV, as the content of the file. */
  function Print(pcm: bytes): Result<bytes> {
    if pcm == [] then Err(EmptyResponse)
    else if |pcm| > MAX_OUTPUT then Err(ResponseTooLarge)
    else if |pcm| % BYTES_PER_SAMPLE != 0 then Err(IncompleteSample)
    else Ok(RIFF + Little32(36 + |pcm|) + WAVE + (FMT + Little32(16) + FormatBody()) + (DATA + Little32(|pcm|) + pcm))
  }

  // ---- Files as chunk lists ----

  /** A chunk, with the byte that pads an odd body. */
  datatype Chunk = Chunk(id: bytes, body: bytes, padding: bytes)

  ghost predicate WellFormed(c: Chunk) {
    |c.id| == 4 && |c.body| < 0x1_0000_0000 && |c.padding| == |c.body| % 2
  }

  ghost predicate AllWellFormed(chunks: seq<Chunk>) {
    forall i :: 0 <= i < |chunks| ==> WellFormed(chunks[i])
  }

  function Encode(c: Chunk): bytes {
    c.id + Little32(|c.body| % 0x1_0000_0000) + c.body + c.padding
  }

  function EncodeAll(chunks: seq<Chunk>): bytes {
    if chunks == [] then [] else Encode(chunks[0]) + EncodeAll(chunks[1..])
  }

  /** A file with these chunks; the reader does not look at the size that it announces. */
  function File(announced: bytes, chunks: seq<Chunk>): bytes {
    RIFF + announced + WAVE + EncodeAll(chunks)
  }

  function TakeAll(g: Gathered, chunks: seq<Chunk>): Result<Gathered>
    decreases |chunks|
  {
    if chunks == [] then Ok(g)
    else match TakeChunk(g, chunks[0].id, chunks[0].body)
      case Err(e) => Err(e)
      case Ok(more) => TakeAll(more, chunks[1..])
  }

  lemma ChunkAt(prefix: bytes, c: Chunk, rest: bytes)
    requires WellFormed(c)
    ensures var s, o := prefix + Encode(c) + rest, |prefix|;
            var n := |c.body|;
            && o + 8 + n <= |s| && s[o..o + 4] == c.id && Value32(s[o + 4..o + 8]) == n && s[o + 8..o + 8 + n] == c.body
            && |prefix + Encode(c)| == o + 8 + n + n % 2
  {
    hide Little32, Value32;
    var size := Little32(|c.body|);
    Little32Back(|c.body|);
    Slice(prefix, c.id, size + c.body + c.padding, rest);
    Slice(prefix + c.id, size, c.body + c.padding, rest);
    Slice(prefix + c.id + size, c.body, c.padding, rest);
    Regroup(prefix, c.id, size, c.body, c.padding);
    assert |prefix + c.id| == |prefix| + 4 && |prefix + c.id + size| == |prefix| + 8;
  }

  lemma Slice(p: bytes, a: bytes, b: bytes, rest: bytes)
    ensures (p + (a + b) + rest)[|p|..|p| + |a|] == a
  {}

  lemma Regroup(p: bytes, a: bytes, b: bytes, c: bytes, d: bytes)
    ensures p + (a + b + c + d) == p + (a + (b + c + d)) == p + a + (b + (c + d)) == p + a + b + (c + d)
  {
    assert a + b + c + d == a + (b + c + d);
  }

  lemma LoopEnds(s: bytes, g: Gathered)
    ensures TakeChunks(s, |s|, g) == Ok(g)
  {}

  lemma LoopStep(s: bytes, o: nat, id: bytes, body: bytes, g: Gathered)
    requires o + 8 + |body| <= |s| && s[o..o + 4] == id
    requires Value32(s[o + 4..o + 8]) == |body| && s[o + 8..o + 8 + |body|] == body
    ensures TakeChunks(s, o, g) == match TakeChunk(g, id, body)
                                   case Err(e) => Err(e)
                                   case Ok(more) => TakeChunks(s, o + 8 + |body| + |body| % 2, more)
  {
    hide Value32, TakeChunk;
  }

  /** The chunk loop takes the chunks of a well-formed file one after the other. */
  lemma {:induction false} LoopTakesAll(prefix: bytes, chunks: seq<Chunk>, g: Gathered)
    requires AllWellFormed(chunks)
    ensures TakeChunks(prefix + EncodeAll(chunks), |prefix|, g) == TakeAll(g, chunks)
    decreases |chunks|
  {
    hide TakeChunk, TakeChunks, Encode, Value32;
    if chunks == [] {
      assert prefix + EncodeAll(chunks) == prefix;
      LoopEnds(prefix, g);
    } else {
      var c, rest := chunks[0], EncodeAll(chunks[1..]);
      assert WellFormed(c);
      assert prefix + EncodeAll(chunks) == prefix + Encode(c) + rest;
      ChunkAt(prefix, c, rest);
      LoopStep(prefix + Encode(c) + rest, |prefix|, c.id, c.body, g);
      var next := TakeChunk(g, c.id, c.body);
      if next.Ok? {
        assert forall i :: 0 <= i < |chunks[1..]| ==> chunks[1..][i] == chunks[i + 1];
        LoopTakesAll(prefix + Encode(c), chunks[1..], next.value);
      }
    }
  }

  lemma ReadFile(announced: bytes, chunks: seq<Chunk>)
    requires |announced| == 4 && AllWellFormed(chunks) && |File(announced, chunks)| <= MAX_FILE
    ensures Read(File(announced, chunks)) == match TakeAll(NOTHING, chunks) case Err(e) => Err(e) case Ok(g) => Check(g)
  {
    hide TakeChunks, TakeAll, Check, EncodeAll;
    var head := RIFF + announced + WAVE;
    var file := File(announced, chunks);
    assert file[..4] == RIFF && file[8..12] == WAVE;
    LoopTakesAll(head, chunks, NOTHING);
  }

  lemma {:induction false} TakeAllConcat(g: Gathered, a: seq<Chunk>, b: seq<Chunk>)
    ensures TakeAll(g, a + b) == match TakeAll(g, a) case Err(e) => Err(e) case Ok(more) => TakeAll(more, b)
    decreases |a|
  {
    hide TakeChunk;
    if a == [] {
      assert a + b == b;
    } else {
      assert (a + b)[0] == a[0] && (a + b)[1..] == a[1..] + b;
      var next := TakeChunk(g, a[0].id, a[0].body);
      if next.Ok? {
        TakeAllConcat(next.value, a[1..], b);
      }
    }
  }

  /** Chunks other than format and data change nothing, wherever they are inserted: a file with an extra one is read, or
      rejected, as the file without it. */
  lemma ForeignChunkIgnored(announced: bytes, before: seq<Chunk>, extra: Chunk, after: seq<Chunk>)
    requires |announced| == 4 && AllWellFormed(before) && WellFormed(extra) && AllWellFormed(after)
    requires extra.id != FMT && extra.id != DATA
    requires |File(announced, before + [extra] + after)| <= MAX_FILE
    requires |File(announced, before + after)| <= MAX_FILE
    ensures Read(File(announced, before + [extra] + after)) == Read(File(announced, before + after))
  {
    hide Read, Check, Encode;
    ReadFile(announced, before + [extra] + after);
    ReadFile(announced, before + after);
    assert before + [extra] + after == before + ([extra] + after);
    TakeAllConcat(NOTHING, before, [extra] + after);
    TakeAllConcat(NOTHING, before, after);
    assert ([extra] + after)[1..] == after;
  }

  lemma FormatBack()
    ensures |FormatBody()| == 16
    ensures TakeChunk(NOTHING, FMT, FormatBody()) == Ok(Gathered(Some(Format(1, 1, SAMPLE_RATE, 16)), []))
  {
    Little16Back(1);
    Little16Back(16);
    Little32Back(SAMPLE_RATE);
    var s := FormatBody();
    assert s[0..2] == Little16(1) && s[2..4] == Little16(1) && s[4..8] == Little32(SAMPLE_RATE) && s[14..16] == Little16(16);
  }

  lemma PrintIsFile(pcm: bytes)
    requires pcm != [] && |pcm| <= MAX_OUTPUT && |pcm| % BYTES_PER_SAMPLE == 0
    ensures Print(pcm) == Ok(File(Little32(36 + |pcm|), [Chunk(FMT, FormatBody(), []), Chunk(DATA, pcm, [])]))
    ensures |Print(pcm).value| == 44 + |pcm|
  {
    hide FormatBody, Little32;
    var format, data := Chunk(FMT, FormatBody(), []), Chunk(DATA, pcm, []);
    assert Encode(format) == FMT + Little32(16) + FormatBody();
    assert Encode(data) == DATA + Little32(|pcm|) + pcm;
    assert [format, data][1..] == [data] && [data][1..] == [];
    assert EncodeAll([data]) == Encode(data) + [];
    assert EncodeAll([format, data]) == Encode(format) + Encode(data);
    var start := RIFF + Little32(36 + |pcm|) + WAVE;
    assert start + Encode(format) + Encode(data) == start + (Encode(format) + Encode(data));
  }

  /** Reading what the writer wrote gives the samples back, exactly up to the reader's limit. */
  lemma RoundTrip(pcm: bytes)
    requires Print(pcm).Ok?
    ensures Read(Print(pcm).value) == Ok(pcm) <==> |pcm| <= MAX_INPUT
  {
    hide EncodeAll, File, FormatBody;
    PrintIsFile(pcm);
    FormatBack();
    var format, data := Chunk(FMT, FormatBody(), []), Chunk(DATA, pcm, []);
    if |Print(pcm).value| <= MAX_FILE {
      ReadFile(Little32(36 + |pcm|), [format, data]);
      assert [format, data][1..] == [data] && [data][1..] == [];
      assert [] + pcm == pcm;
      var gathered := Gathered(Some(Format(1, 1, SAMPLE_RATE, 16)), []);
      assert TakeAll(NOTHING, [format, data]) == TakeAll(gathered, [data]);
      if |pcm| <= MAX_INPUT {
        var all := gathered.(pcm := pcm);
        assert TakeChunk(gathered, DATA, pcm) == Ok(all);
        assert TakeAll(all, []) == Ok(all);
        assert TakeAll(gathered, [data]) == Ok(all);
        assert Check(all) == Ok(pcm);
      } else {
        assert TakeChunk(gathered, DATA, pcm) == Err(TooMuchData);
        assert TakeAll(gathered, [data]) == Err(TooMuchData);
      }
    }
  }

  // ---- The operations ----

  lemma AppendFormat(p: bytes)
    ensures p + Little16(1) + Little16(1) + Little32(SAMPLE_RATE) + Little32(SAMPLE_RATE * BYTES_PER_SAMPLE)
              + Little16(BYTES_PER_SAMPLE) + Little16(16) == p + FormatBody()
  {
    hide Little16, Little32;
  }

  lemma Grouped(a: bytes, b: bytes, c: bytes, d: bytes, e: bytes, f: bytes, g: bytes, h: bytes)
    ensures a + (b + c) + d + e + f + g + h == a + b + (c + d + e) + (f + g + h)
  {
    assert a + (b + c) + d + e == a + b + (c + d + e);
  }

  method ReadPCM16WAV(payload: bytes) returns (r: Result<bytes>)
    ensures r == Read(payload)
  {
    hide Value16, Value32, Check;
    if |payload| > MAX_FILE {
      return Err(FileTooLarge);
    }
    if |payload| < 12 || payload[..4] != RIFF || payload[8..12] != WAVE {
      return Err(NotWave);
    }
    var format: Option<Format> := None;
    var pcm: bytes := [];
    var offset := 12;
    while offset + 8 <= |payload|
      invariant offset >= 12
      invariant TakeChunks(payload, 12, NOTHING) == TakeChunks(payload, offset, Gathered(format, pcm))
      decreases |payload| - offset
    {
      var chunkID := payload[offset..offset + 4];
      var chunkSize := Value32(payload[offset + 4..offset + 8]);
      var chunkStart := offset + 8;
      var chunkEnd := chunkStart + chunkSize;
      if chunkEnd > |payload| {
        return Err(BadChunkSize);
      }
      var body := payload[chunkStart..chunkEnd];
      if chunkID == FMT {
        if chunkSize < 16 {
          return Err(ShortFormat);
        }
        format := Some(Format(Value16(body[0..2]), Value16(body[2..4]), Value32(body[4..8]), Value16(body[14..16])));
      } else if chunkID == DATA {
        if |pcm| + chunkSize > MAX_INPUT {
          return Err(TooMuchData);
        }
        pcm := pcm + body;
      }
      offset := chunkEnd;
      if chunkSize % 2 != 0 {
        offset := offset + 1;
      }
    }
    r := Check(Gathered(format, pcm));
  }

  method WritePCM16WAV(pcm: bytes) returns (r: Result<bytes>)
    ensures r == Print(pcm)
  {
    hide Little16, Little32, FormatBody;
    if pcm == [] {
      return Err(EmptyResponse);
    }
    if |pcm| > MAX_OUTPUT {
      return Err(ResponseTooLarge);
    }
    if |pcm| % BYTES_PER_SAMPLE != 0 {
      return Err(IncompleteSample);
    }
    var payload := RIFF;
    payload := payload + Little32(36 + |pcm|);
    payload := payload + (WAVE + FMT);
    payload := payload + Little32(16);
    payload := payload + Little16(1);
    payload := payload + Little16(1);
    payload := payload + Little32(SAMPLE_RATE);
    payload := payload + Little32(SAMPLE_RATE * BYTES_PER_SAMPLE);
    payload := payload + Little16(BYTES_PER_SAMPLE);
    payload := payload + Little16(16);
    payload := payload + DATA;
    payload := payload + Little32(|pcm|);
    payload := payload + pcm;
    AppendFormat(RIFF + Little32(36 + |pcm|) + (WAVE + FMT) + Little32(16));
    Grouped(RIFF + Little32(36 + |pcm|), WAVE, FMT, Little32(16), FormatBody(), DATA, Little32(|pcm|), pcm);
    r := Ok(payload);
  }
}
