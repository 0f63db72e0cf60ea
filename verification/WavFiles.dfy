/** Exactly the WAV files that are read, in terms of their bytes alone. */
module WavFiles {
  import opened Wrappers
  import opened Bytes
  import opened Wav

  /** An odd body at the very end of the file may lack its padding. */
  ghost predicate Bare(c: Chunk) {
    |c.id| == 4 && |c.body| < 0x1_0000_0000 && |c.body| % 2 == 1 && c.padding == []
  }

  /** Chunks up to the end of the file, where up to seven bytes too many are ignored. */
  ghost predicate Whole(chunks: seq<Chunk>, tail: bytes) {
    || (AllWellFormed(chunks) && |tail| < 8)
    || (chunks != [] && AllWellFormed(chunks[..|chunks| - 1]) && Bare(chunks[|chunks| - 1]) && tail == [])
  }

  /** The bodies of the data chunks, one after the other. */
  function Samples(chunks: seq<Chunk>): bytes {
    if chunks == [] then []
    else Samples(chunks[..|chunks| - 1]) + if chunks[|chunks| - 1].id == Ascii("data") then chunks[|chunks| - 1].body else []
  }

  /** PCM, one channel, 24000 samples a second of 16 bits each. */
  ghost predicate IsSpeech(body: bytes) {
    |body| >= 16 && body[0..2] == [1, 0] && body[2..4] == [1, 0] && body[4..8] == [0xC0, 0x5D, 0, 0] && body[14..16] == [16, 0]
  }

  ghost predicate LastFormat(chunks: seq<Chunk>, k: int) {
    && 0 <= k < |chunks| && chunks[k].id == Ascii("fmt ")
    && forall j :: k < j < |chunks| ==> chunks[j].id != Ascii("fmt ")
  }

  ghost predicate LongFormats(chunks: seq<Chunk>) {
    forall i :: 0 <= i < |chunks| && chunks[i].id == Ascii("fmt ") ==> |chunks[i].body| >= 16
  }

  /** All format chunks are long enough, the last one is the format of the samples, and there are whole samples, of at most
      15 MiB. */
  ghost predicate IsRecording(chunks: seq<Chunk>) {
    && LongFormats(chunks)
    && (exists k :: LastFormat(chunks, k) && IsSpeech(chunks[k].body))
    && Samples(chunks) != [] && |Samples(chunks)| <= 15728640 && |Samples(chunks)| % 2 == 0
  }

  /** A file of at most 16 MiB with these chunks. */
  ghost predicate Holds(payload: bytes, chunks: seq<Chunk>) {
    |payload| <= 16777216
    && exists announced, tail :: |announced| == 4 && Whole(chunks, tail)
         && payload == Ascii("RIFF") + announced + Ascii("WAVE") + EncodeAll(chunks) + tail
  }

  // ---- What is gathered from chunks ----

  lemma Names()
    ensures RIFF == Ascii("RIFF") && WAVE == Ascii("WAVE") && FMT == Ascii("fmt ") && DATA == Ascii("data")
  {}

  lemma TakeOne(g: Gathered, c: Chunk)
    ensures TakeAll(g, [c]) == TakeChunk(g, c.id, c.body)
  {
    hide TakeChunk;
    assert [c][1..] == [];
  }

  /** What the reader gathers from chunks, when it does not stop at one. */
  ghost predicate Gathers(r: Result<Gathered>, chunks: seq<Chunk>) {
    if LongFormats(chunks) && |Samples(chunks)| <= 15728640 then
      && r.Ok? && r.value.pcm == Samples(chunks)
      && (r.value.format == None ==> forall j :: 0 <= j < |chunks| ==> chunks[j].id != Ascii("fmt "))
      && (r.value.format != None ==> exists k :: LastFormat(chunks, k) && r.value.format == Some(FormatOf(chunks[k].body)))
    else r.Err?
  }

  lemma GathersNext(chunks: seq<Chunk>, r: Result<Gathered>, c: Chunk)
    requires Gathers(r, chunks)
    ensures Gathers(if r.Err? then r else TakeChunk(r.value, c.id, c.body), chunks + [c])
  {
    hide FormatOf;
    var all := chunks + [c];
    Names();
    assert all[..|chunks|] == chunks && all[|chunks|] == c;
    assert forall i :: 0 <= i < |chunks| ==> all[i] == chunks[i];
    if r.Ok? && r.value.format != None && c.id != FMT {
      var k :| LastFormat(chunks, k) && r.value.format == Some(FormatOf(chunks[k].body));
      assert LastFormat(all, k);
    }
    assert c.id == FMT ==> LastFormat(all, |chunks|);
  }

  lemma {:induction false} Taken(chunks: seq<Chunk>)
    ensures Gathers(TakeAll(NOTHING, chunks), chunks)
  {
    hide TakeAll, TakeChunk;
    if chunks == [] {
      TakeNone(NOTHING);
    } else {
      var n := |chunks| - 1;
      var front, c := chunks[..n], chunks[n];
      assert chunks == front + [c];
      Taken(front);
      hide Gathers;
      TakeAllConcat(NOTHING, front, [c]);
      var r := TakeAll(NOTHING, front);
      if r.Ok? {
        TakeOne(r.value, c);
      }
      GathersNext(front, r, c);
    }
  }

  lemma SpeechIs(body: bytes)
    requires |body| >= 16
    ensures IsSpeech(body) <==> FormatOf(body) == Format(1, 1, 24000, 16)
  {
    Value16Is(body[0..2], 1);
    Value16Is(body[2..4], 1);
    Value32Is(body[4..8]);
    Value16Is(body[14..16], 16);
  }

  lemma Value16Is(s: bytes, low: byte)
    requires |s| == 2
    ensures Value16(s) == low <==> s == [low, 0]
  {}

  lemma Value32Is(s: bytes)
    requires |s| == 4
    ensures Value32(s) == 24000 <==> s == [0xC0, 0x5D, 0, 0]
  {
    var a: int, b: int, c: int, d: int := s[0], s[1], s[2], s[3];
    assert Value32(s) == a + 0x100 * b + 0x1_0000 * (c + 0x100 * d);
    assert s == [s[0], s[1], s[2], s[3]];
  }

  /** The chunks are accepted exactly when they are those of a recording. */
  lemma CheckedIs(chunks: seq<Chunk>, r: Result<Gathered>, pcm: bytes)
    requires Gathers(r, chunks)
    ensures r.Ok? && Check(r.value) == Ok(pcm) <==> IsRecording(chunks) && pcm == Samples(chunks)
  {
    hide FormatOf, IsSpeech;
    if LongFormats(chunks) && |Samples(chunks)| <= 15728640 {
      if r.value.format != None {
        var k :| LastFormat(chunks, k) && r.value.format == Some(FormatOf(chunks[k].body));
        SpeechIs(chunks[k].body);
        assert forall j :: LastFormat(chunks, j) ==> j == k;
      }
    }
  }

  // ---- The chunks of a file ----

  lemma LoopOver(s: bytes, o: nat, g: Gathered)
    requires o + 8 > |s|
    ensures TakeChunks(s, o, g) == Ok(g)
  {}

  lemma PaddedTaken(prefix: bytes, c: Chunk, rest: bytes, g: Gathered)
    requires WellFormed(c)
    ensures TakeChunks(prefix + Encode(c) + rest, |prefix|, g)
         == match TakeChunk(g, c.id, c.body)
            case Err(e) => Err(e)
            case Ok(more) => TakeChunks(prefix + Encode(c) + rest, |prefix + Encode(c)|, more)
  {
    hide TakeChunk, TakeChunks, Encode, Value32;
    ChunkAt(prefix, c, rest);
    LoopStep(prefix + Encode(c) + rest, |prefix|, c.id, c.body, g);
  }

  lemma BareTaken(prefix: bytes, c: Chunk, g: Gathered)
    requires Bare(c)
    ensures TakeChunks(prefix + Encode(c), |prefix|, g) == TakeChunk(g, c.id, c.body)
  {
    hide TakeChunk, TakeChunks, Encode, Value32;
    var s := prefix + Encode(c);
    LastChunkAt(prefix, c);
    LoopStep(s, |prefix|, c.id, c.body, g);
    var next := TakeChunk(g, c.id, c.body);
    if next.Ok? {
      LoopOver(s, |s| + 1, next.value);
    }
  }

  lemma TakeFirst(g: Gathered, chunks: seq<Chunk>)
    requires chunks != []
    ensures TakeAll(g, chunks)
         == match TakeChunk(g, chunks[0].id, chunks[0].body) case Err(e) => Err(e) case Ok(more) => TakeAll(more, chunks[1..])
  {
    hide TakeChunk;
  }

  lemma {:induction false} LoopTakesWhole(prefix: bytes, chunks: seq<Chunk>, tail: bytes, g: Gathered)
    requires Whole(chunks, tail)
    ensures TakeChunks(prefix + EncodeAll(chunks) + tail, |prefix|, g) == TakeAll(g, chunks)
    decreases |chunks|
  {
    hide TakeChunk, TakeChunks, Encode, Whole, WellFormed, Bare, TakeAll;
    if chunks == [] {
      ShortTail(tail);
      assert prefix + EncodeAll(chunks) + tail == prefix + tail;
      LoopOver(prefix + tail, |prefix|, g);
      TakeNone(g);
    } else {
      var c, rest := chunks[0], EncodeAll(chunks[1..]);
      var next := TakeChunk(g, c.id, c.body);
      WholeRest(chunks, tail);
      TakeFirst(g, chunks);
      if WellFormed(c) {
        assert prefix + EncodeAll(chunks) + tail == prefix + Encode(c) + (rest + tail);
        PaddedTaken(prefix, c, rest + tail, g);
        if next.Ok? {
          LoopTakesWhole(prefix + Encode(c), chunks[1..], tail, next.value);
          assert prefix + Encode(c) + (rest + tail) == prefix + Encode(c) + rest + tail;
        }
      } else {
        assert prefix + EncodeAll(chunks) + tail == prefix + Encode(c);
        BareTaken(prefix, c, g);
        if next.Ok? {
          TakeNone(next.value);
        }
      }
    }
  }

  lemma TakeNone(g: Gathered)
    ensures TakeAll(g, []) == Ok(g)
  {}

  lemma ShortTail(tail: bytes)
    requires Whole([], tail)
    ensures |tail| < 8
  {}

  lemma WholeRest(chunks: seq<Chunk>, tail: bytes)
    requires Whole(chunks, tail) && chunks != []
    ensures WellFormed(chunks[0]) ==> Whole(chunks[1..], tail)
    ensures !WellFormed(chunks[0]) ==> chunks[1..] == [] && tail == [] && Bare(chunks[0])
  {
    var n := |chunks| - 1;
    if !AllWellFormed(chunks) && n > 0 {
      assert chunks[..n][0] == chunks[0];
      assert chunks[1..][..n - 1] == chunks[..n][1..];
    }
  }

  /** A bare last chunk is found like a padded one. */
  lemma LastChunkAt(prefix: bytes, c: Chunk)
    requires Bare(c)
    ensures var s, o := prefix + Encode(c), |prefix|;
            var n := |c.body|;
            && o + 8 + n == |s| && s[o..o + 4] == c.id && Value32(s[o + 4..o + 8]) == n && s[o + 8..o + 8 + n] == c.body
  {
    hide Little32, Value32;
    var padded := c.(padding := [0]);
    var s, t := prefix + Encode(c), prefix + Encode(padded) + [];
    ChunkAt(prefix, padded, []);
    assert t == s + [0];
    assert s[|prefix|..|prefix| + 4] == t[|prefix|..|prefix| + 4];
    assert s[|prefix| + 4..|prefix| + 8] == t[|prefix| + 4..|prefix| + 8];
    assert s[|prefix| + 8..|prefix| + 8 + |c.body|] == t[|prefix| + 8..|prefix| + 8 + |c.body|];
  }

  lemma SizeBack(s: bytes)
    requires |s| == 4
    ensures Little32(Value32(s)) == s
  {
    var a: int, b: int, c: int, d: int := s[0], s[1], s[2], s[3];
    var n := Value32(s);
    assert n == (a + 0x100 * b) + 0x1_0000 * (c + 0x100 * d);
    assert n % 0x1_0000 == a + 0x100 * b && n / 0x1_0000 == c + 0x100 * d;
    assert Little32(n) == [s[0], s[1], s[2], s[3]];
  }

  lemma Cut(s: bytes, a: nat, b: nat, c: nat, d: nat, e: nat)
    requires a <= b <= c <= d <= e <= |s|
    ensures s[a..e] == s[a..b] + s[b..c] + s[c..d] + s[d..e]
    ensures s[a..|s|] == s[a..]
  {
    assert s[a..e] == s[a..d] + s[d..e];
    assert s[a..d] == s[a..c] + s[c..d];
    assert s[a..c] == s[a..b] + s[b..c];
  }

  /** The bytes of a size, the lowest first. */
  lemma Little32Is(n: nat, s: bytes)
    requires n < 0x1_0000_0000 && |s| == 4
    ensures s == Little32(n) <==> s[0] + 0x100 * (s[1] as int) + 0x1_0000 * (s[2] as int) + 0x100_0000 * (s[3] as int) == n
  {
    Little32Back(n);
    SizeBack(s);
  }

  /** The chunk at a place of a file that the loop does not reject. */
  lemma ChunkFrom(s: bytes, o: nat) returns (c: Chunk, next: nat)
    requires o + 8 <= |s| && o + 8 + Value32(s[o + 4..o + 8]) <= |s|
    ensures c.id == s[o..o + 4] && c.body == s[o + 8..o + 8 + Value32(s[o + 4..o + 8])]
    ensures next == o + 8 + |c.body| + |c.body| % 2
    ensures if next <= |s| then WellFormed(c) && s[o..next] == Encode(c) else Bare(c) && s[o..] == Encode(c)
  {
    hide Value32, Little32;
    var size := s[o + 4..o + 8];
    var start := o + 8;
    var n := Value32(size);
    SizeBack(size);
    next := start + n + n % 2;
    var end := if next <= |s| then next else |s|;
    c := Chunk(s[o..o + 4], s[start..start + n], s[start + n..end]);
    Cut(s, o, o + 4, start, start + n, end);
  }

  /** Where the loop ends well, the file is made of chunks. */
  lemma {:induction false} ChunksFrom(s: bytes, o: nat, g: Gathered) returns (chunks: seq<Chunk>, tail: bytes)
    requires o <= |s| && TakeChunks(s, o, g).Ok?
    ensures Whole(chunks, tail) && s[o..] == EncodeAll(chunks) + tail
    decreases |s| - o
  {
    hide TakeChunk, Encode, Value32;
    if o + 8 > |s| {
      chunks, tail := [], s[o..];
    } else {
      var c, next := ChunkFrom(s, o);
      if next <= |s| {
        chunks, tail := ChunksFrom(s, next, TakeChunk(g, c.id, c.body).value);
        WholeCons(c, chunks, tail);
        assert s[o..] == s[o..next] + s[next..];
        assert ([c] + chunks)[1..] == chunks;
        chunks := [c] + chunks;
      } else {
        chunks, tail := [c], [];
        assert [c][1..] == [] && [c][..0] == [];
      }
    }
  }

  lemma WholeCons(c: Chunk, chunks: seq<Chunk>, tail: bytes)
    requires WellFormed(c) && Whole(chunks, tail)
    ensures Whole([c] + chunks, tail)
  {
    var all := [c] + chunks;
    if !AllWellFormed(chunks) {
      assert all[..|all| - 1] == [c] + chunks[..|chunks| - 1];
    }
  }

  /** A file is read exactly when it holds the chunks of a recording; what is read are their samples. */
  lemma ReadIff(payload: bytes, pcm: bytes)
    ensures Read(payload) == Ok(pcm) <==> exists chunks :: Holds(payload, chunks) && IsRecording(chunks) && pcm == Samples(chunks)
  {
    hide TakeChunks, TakeAll, IsRecording, Gathers, Check, Whole, EncodeAll, Samples;
    if Read(payload) == Ok(pcm) {
      var chunks := ReadHolds(payload);
      Taken(chunks);
      CheckedIs(chunks, TakeAll(NOTHING, chunks), pcm);
    }
    if chunks :| Holds(payload, chunks) && IsRecording(chunks) && pcm == Samples(chunks) {
      HoldsTaken(payload, chunks);
      Taken(chunks);
      CheckedIs(chunks, TakeAll(NOTHING, chunks), pcm);
    }
  }

  lemma ReadHolds(payload: bytes) returns (chunks: seq<Chunk>)
    requires Read(payload).Ok?
    ensures Holds(payload, chunks) && Read(payload) == match TakeAll(NOTHING, chunks) case Err(e) => Err(e) case Ok(g) => Check(g)
  {
    hide TakeChunks, TakeAll, Check, Whole, EncodeAll;
    Names();
    var tail;
    chunks, tail := ChunksFrom(payload, 12, NOTHING);
    var head := RIFF + payload[4..8] + WAVE;
    assert payload == head + payload[12..];
    assert payload == head + EncodeAll(chunks) + tail;
    LoopTakesWhole(head, chunks, tail, NOTHING);
  }

  lemma HoldsTaken(payload: bytes, chunks: seq<Chunk>)
    requires Holds(payload, chunks)
    ensures Read(payload) == match TakeAll(NOTHING, chunks) case Err(e) => Err(e) case Ok(g) => Check(g)
  {
    hide TakeChunks, TakeAll, Check, Whole, EncodeAll;
    Names();
    var announced, tail :| |announced| == 4 && Whole(chunks, tail)
      && payload == Ascii("RIFF") + announced + Ascii("WAVE") + EncodeAll(chunks) + tail;
    var head := RIFF + announced + WAVE;
    LoopTakesWhole(head, chunks, tail, NOTHING);
    assert payload == head + (EncodeAll(chunks) + tail);
    assert payload[..4] == RIFF && payload[8..12] == WAVE;
  }
}
