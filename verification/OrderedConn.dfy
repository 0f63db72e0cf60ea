/** The connection wrapper that reorders the header lines of every request written through it. */
module OrderedConn {
  import opened Wrappers
  import opened Bytes
  import opened HeaderOrder
  import opened ChunkTracker

  // ---- The stream, one byte at a time ----

  /** Where in the request stream the wrapper is. */
  datatype Mode = InHeader(buffer: bytes) | InBody(remaining: nat) | InChunks(tracker: Tracker)
  {
    ghost predicate Valid() {
      match this
      case InHeader(buffer) => NoTerminator(buffer)
      case InBody(n) => 0 < n <= MAX_INT64
      case InChunks(t) => t.Valid()
    }

    /** Bytes accepted but not yet sent. */
    function Held(): nat {
      if InHeader? then |buffer| else 0
    }
  }

  const IDLE: Mode := InHeader([])

  ghost predicate NoTerminator(s: bytes) {
    forall i :: !OccursAt(s, TERMINATOR, i)
  }

  /** What follows a header block: a chunked body, a body of known length, or the next request. */
  function AfterHeader(policy: Policy, header: bytes): (m: Mode)
    requires |header| >= 4
    ensures m.Valid() && m.Held() == 0
  {
    var lines := Lines(header)[1..];
    if UsesChunked(policy.fold, lines) then InChunks(START)
    else if ContentLength(policy.fold, lines) == 0 then IDLE
    else InBody(ContentLength(policy.fold, lines))
  }

  datatype Feed = Fed(mode: Mode, sent: bytes) | Refused(error: ChunkError)

  function FeedByte(policy: Policy, m: Mode, b: byte): (r: Feed)
    requires m.Valid()
    ensures r.Fed? ==> r.mode.Valid()
  {
    match m
    case InHeader(buffer) =>
      var longer := buffer + [b];
      if |longer| >= 4 && longer[|longer| - 4..] == TERMINATOR then Fed(AfterHeader(policy, longer), Reordered(policy, longer))
      else StillNoTerminator(buffer, b); Fed(InHeader(longer), [])
    case InBody(n) => Fed(if n == 1 then IDLE else InBody(n - 1), [b])
    case InChunks(t) =>
      match Step(t, b)
      case Continue(u) => Fed(InChunks(u), [b])
      case Complete => Fed(IDLE, [b])
      case Reject(e) => Refused(e)
  }

  lemma StillNoTerminator(buffer: bytes, b: byte)
    requires NoTerminator(buffer) && !EndsHeader(buffer + [b])
    ensures NoTerminator(buffer + [b])
  {
    var longer := buffer + [b];
    forall i ensures !OccursAt(longer, TERMINATOR, i) {
      if 0 <= i && i + 4 < |longer| {
        assert longer[i..i + 4] == buffer[i..i + 4];
        assert !OccursAt(buffer, TERMINATOR, i);
      } else if 0 <= i && i + 4 == |longer| {
        assert longer[i..i + 4] == longer[|longer| - 4..];
      }
    }
  }

  /** What a run of bytes does to the wrapper, and what it sends. */
  function FeedAll(policy: Policy, m: Mode, s: bytes): (r: Feed)
    requires m.Valid()
    ensures r.Fed? ==> r.mode.Valid()
    decreases |s|
  {
    if s == [] then Fed(m, [])
    else
      var first := FeedByte(policy, m, s[0]);
      if first.Refused? then first else After(first.sent, FeedAll(policy, first.mode, s[1..]))
  }

  function After(sent: bytes, r: Feed): Feed {
    if r.Fed? then Fed(r.mode, sent + r.sent) else r
  }

  lemma FeedNone(policy: Policy, m: Mode)
    requires m.Valid()
    ensures FeedAll(policy, m, []) == Fed(m, [])
  {}

  lemma FeedFirst(policy: Policy, m: Mode, s: bytes)
    requires m.Valid() && s != []
    ensures FeedAll(policy, m, s)
         == var first := FeedByte(policy, m, s[0]);
            if first.Refused? then first else After(first.sent, FeedAll(policy, first.mode, s[1..]))
  {
    hide FeedByte;
  }

  /** The stream may be cut anywhere. */
  lemma {:induction false} FeedConcat(policy: Policy, m: Mode, a: bytes, b: bytes)
    requires m.Valid()
    ensures FeedAll(policy, m, a + b)
         == var first := FeedAll(policy, m, a);
            if first.Refused? then first else After(first.sent, FeedAll(policy, first.mode, b))
    decreases |a|
  {
    hide FeedAll, FeedByte;
    if a == [] {
      FeedNone(policy, m);
      assert a + b == b;
    } else {
      assert (a + b)[0] == a[0] && (a + b)[1..] == a[1..] + b;
      FeedFirst(policy, m, a);
      FeedFirst(policy, m, a + b);
      var first := FeedByte(policy, m, a[0]);
      if first.Fed? {
        FeedConcat(policy, first.mode, a[1..], b);
        var second := FeedAll(policy, first.mode, a[1..]);
        if second.Fed? {
          var third := FeedAll(policy, second.mode, b);
          if third.Fed? {
            assert first.sent + (second.sent + third.sent) == (first.sent + second.sent) + third.sent;
          }
        }
      }
    }
  }

  // ---- Whole header blocks and bodies ----

  /** An unfinished header block is only kept. */
  lemma {:induction false} FeedPartialHeader(policy: Policy, buffer: bytes, s: bytes)
    requires NoTerminator(buffer) && NoTerminator(buffer + s)
    ensures FeedAll(policy, InHeader(buffer), s) == Fed(InHeader(buffer + s), [])
    decreases |s|
  {
    hide FeedAll, AfterHeader, Reordered;
    if s == [] {
      FeedNone(policy, InHeader(buffer));
      assert buffer + s == buffer;
    } else {
      var longer := buffer + [s[0]];
      assert buffer + s == longer + s[1..];
      forall i ensures !OccursAt(longer, TERMINATOR, i) {
        assert !OccursAt(buffer + s, TERMINATOR, i);
        if 0 <= i && i + 4 <= |longer| {
          assert longer[i..i + 4] == (buffer + s)[i..i + 4];
        }
      }
      assert |longer| >= 4 ==> longer[|longer| - 4..] == longer[|longer| - 4..|longer| - 4 + 4];
      assert !OccursAt(longer, TERMINATOR, |longer| - 4);
      FeedFirst(policy, InHeader(buffer), s);
      FeedPartialHeader(policy, longer, s[1..]);
    }
  }

  lemma HeaderWithoutLastByte(header: bytes)
    requires IsHeaderBlock(header)
    ensures NoTerminator(header[..|header| - 1])
  {
    var short := header[..|header| - 1];
    forall i ensures !OccursAt(short, TERMINATOR, i) {
      if 0 <= i && i + 4 <= |short| {
        assert short[i..i + 4] == header[i..i + 4];
        assert !OccursAt(header, TERMINATOR, i);
      }
    }
  }

  /** The bytes that complete a header block send it reordered. */
  lemma FeedHeader(policy: Policy, buffer: bytes, s: bytes)
    requires s != [] && NoTerminator(buffer) && IsHeaderBlock(buffer + s)
    ensures FeedAll(policy, InHeader(buffer), s) == Fed(AfterHeader(policy, buffer + s), Reordered(policy, buffer + s))
  {
    hide FeedAll, AfterHeader, Reordered;
    var header, most, last := buffer + s, s[..|s| - 1], s[|s| - 1];
    HeaderWithoutLastByte(header);
    assert header[..|header| - 1] == buffer + most;
    FeedPartialHeader(policy, buffer, most);
    assert buffer + most + [last] == header;
    FeedFirst(policy, InHeader(buffer + most), [last]);
    FeedNone(policy, AfterHeader(policy, header));
    assert [last][1..] == [] && [] + (Reordered(policy, header) + []) == Reordered(policy, header);
    assert header[|header| - 4..] == TERMINATOR;
    FeedConcat(policy, InHeader(buffer), most, [last]);
    assert most + [last] == s;
  }

  /** Body bytes of known length pass through and are counted down. */
  lemma {:induction false} FeedBody(policy: Policy, n: nat, s: bytes)
    requires 0 < n <= MAX_INT64 && |s| <= n
    ensures FeedAll(policy, InBody(n), s) == Fed(if |s| == n then IDLE else InBody(n - |s|), s)
    decreases |s|
  {
    hide FeedAll;
    if s == [] {
      FeedNone(policy, InBody(n));
    } else {
      FeedFirst(policy, InBody(n), s);
      assert s == [s[0]] + s[1..];
      if n == 1 {
        assert s[1..] == [];
        FeedNone(policy, IDLE);
      } else {
        FeedBody(policy, n - 1, s[1..]);
      }
    }
  }

  /** Chunked body bytes pass through and move the tracker. */
  lemma {:induction false} FeedChunks(policy: Policy, t: Tracker, s: bytes)
    requires t.Valid()
    ensures match TrackAll(t, s)
            case Pending(u) => FeedAll(policy, InChunks(t), s) == Fed(InChunks(u), s)
            case Finished(k) => FeedAll(policy, InChunks(t), s[..k]) == Fed(IDLE, s[..k])
            case Broken(e) => FeedAll(policy, InChunks(t), s) == Refused(e)
    decreases |s|
  {
    hide FeedAll, TrackAll, Step;
    if s == [] {
      FeedNone(policy, InChunks(t));
      TrackNone(t);
    } else {
      TrackFirst(t, s);
      FeedFirst(policy, InChunks(t), s);
      assert s == [s[0]] + s[1..];
      match Step(t, s[0]) {
        case Reject(_) =>
        case Complete =>
          assert s[..1] == [s[0]] && s[..1][1..] == [];
          FeedFirst(policy, InChunks(t), s[..1]);
          FeedNone(policy, IDLE);
        case Continue(u) =>
          FeedChunks(policy, u, s[1..]);
          var rest := TrackAll(u, s[1..]);
          if rest.Finished? {
            FeedFirst(policy, InChunks(t), s[..rest.used + 1]);
            assert s[..rest.used + 1] == [s[0]] + s[1..][..rest.used];
            assert s[..rest.used + 1][1..] == s[1..][..rest.used];
          }
      }
    }
  }

  /** Bytes are conserved: what was held and fed is what was sent and is held. */
  lemma {:induction false} FeedBalance(policy: Policy, m: Mode, s: bytes)
    requires m.Valid()
    ensures FeedAll(policy, m, s).Fed? ==>
      m.Held() + |s| == |FeedAll(policy, m, s).sent| + FeedAll(policy, m, s).mode.Held()
    decreases |s|
  {
    hide FeedAll, AfterHeader, Reordered;
    if s == [] {
      FeedNone(policy, m);
    } else {
      FeedFirst(policy, m, s);
      var first := FeedByte(policy, m, s[0]);
      if first.Fed? {
        FeedBalance(policy, first.mode, s[1..]);
        if m.InHeader? && EndsHeader(m.buffer + [s[0]]) {
          ReorderedLines(policy, m.buffer + [s[0]]);
        }
      }
    }
  }

  // ---- The whole stream at once ----

  /** Splits the stream into requests, reorders each header block and copies each body. */
  function OneShot(policy: Policy, stream: bytes): Feed
    decreases |stream|, 0
  {
    match Index(stream, TERMINATOR)
    case None => Fed(InHeader(stream), [])
    case Some(i) =>
      var header := stream[..i + 4];
      After(Reordered(policy, header), OneShotBody(policy, AfterHeader(policy, header), stream[i + 4..]))
  }

  /** The body that a header block announced, and the requests after it. */
  function OneShotBody(policy: Policy, m: Mode, rest: bytes): Feed
    requires m.Valid()
    decreases |rest|, 1
  {
    match m
    case InHeader(_) => OneShot(policy, rest)
    case InBody(n) =>
      if |rest| < n then Fed(InBody(n - |rest|), rest) else After(rest[..n], OneShot(policy, rest[n..]))
    case InChunks(t) =>
      match TrackAll(t, rest)
      case Pending(u) => Fed(InChunks(u), rest)
      case Finished(k) => After(rest[..k], OneShot(policy, rest[k..]))
      case Broken(e) => Refused(e)
  }

  lemma FirstHeader(stream: bytes, i: nat)
    requires Index(stream, TERMINATOR) == Some(i)
    ensures i + 4 <= |stream| && IsHeaderBlock(stream[..i + 4])
  {
    var header := stream[..i + 4];
    assert header[|header| - 4..] == stream[i..i + 4];
    forall j | 0 <= j < i ensures !OccursAt(header, TERMINATOR, j) {
      assert header[j..j + 4] == stream[j..j + 4];
      assert !OccursAt(stream, TERMINATOR, j);
    }
  }

  /** Feeding a body and what follows it: the part of the one-shot function after a header block. */
  lemma FeedRest(policy: Policy, m: Mode, rest: bytes, k: nat)
    requires m.Valid() && k <= |rest|
    requires FeedAll(policy, m, rest[..k]) == Fed(IDLE, rest[..k])
    ensures FeedAll(policy, m, rest) == After(rest[..k], FeedAll(policy, IDLE, rest[k..]))
  {
    assert rest == rest[..k] + rest[k..];
    FeedConcat(policy, m, rest[..k], rest[k..]);
  }

  /** The byte-at-a-time wrapper computes the one-shot function. */
  lemma {:induction false} OneShotIsFeed(policy: Policy, stream: bytes)
    ensures OneShot(policy, stream) == FeedAll(policy, IDLE, stream)
    decreases |stream|, 0
  {
    hide FeedAll, FeedByte, AfterHeader, Reordered, OneShotBody;
    assert [] + stream == stream;
    match Index(stream, TERMINATOR)
    case None =>
      FeedPartialHeader(policy, [], stream);
    case Some(i) =>
      var header, rest := stream[..i + 4], stream[i + 4..];
      FirstHeader(stream, i);
      assert [] + header == header && header + rest == stream;
      FeedHeader(policy, [], header);
      FeedConcat(policy, IDLE, header, rest);
      OneShotBodyIsFeed(policy, AfterHeader(policy, header), rest);
  }

  lemma {:induction false} OneShotBodyIsFeed(policy: Policy, m: Mode, rest: bytes)
    requires m.Valid() && m.Held() == 0
    ensures OneShotBody(policy, m, rest) == FeedAll(policy, m, rest)
    decreases |rest|, 1
  {
    hide FeedAll, FeedByte, TrackAll, OneShot;
    match m
    case InHeader(_) =>
      OneShotIsFeed(policy, rest);
    case InBody(n) =>
      if |rest| < n {
        FeedBody(policy, n, rest);
      } else {
        FeedBody(policy, n, rest[..n]);
        FeedRest(policy, m, rest, n);
        OneShotIsFeed(policy, rest[n..]);
      }
    case InChunks(t) =>
      FeedChunks(policy, t, rest);
      var scan := TrackAll(t, rest);
      if scan.Finished? {
        FeedRest(policy, m, rest, scan.used);
        OneShotIsFeed(policy, rest[scan.used..]);
      }
  }

  // ---- Writes on a connection that does not fail ----

  datatype Outcome = Accepted(mode: Mode, sent: bytes) | Failed

  /** The wrapper gives up on a header block that is still unfinished and longer than the buffer limit. */
  predicate Short(m: Mode) {
    m.Held() <= MAX_BUFFERED
  }

  /** One Write of `p`. */
  function WriteOnce(policy: Policy, m: Mode, p: bytes): (r: Outcome)
    requires m.Valid()
    ensures r.Accepted? ==> r.mode.Valid() && Short(r.mode)
  {
    var fed := FeedAll(policy, m, p);
    if fed.Fed? && Short(fed.mode) then Accepted(fed.mode, fed.sent) else Failed
  }

  /** One Write after the other, up to the first that fails. */
  function WriteEach(policy: Policy, m: Mode, pieces: seq<bytes>): (r: Outcome)
    requires m.Valid()
    decreases |pieces|
  {
    if pieces == [] then Accepted(m, [])
    else
      var first := WriteOnce(policy, m, pieces[0]);
      if first.Failed? then Failed
      else
        var rest := WriteEach(policy, first.mode, pieces[1..]);
        if rest.Failed? then Failed else Accepted(rest.mode, first.sent + rest.sent)
  }

  function Concat(pieces: seq<bytes>): bytes {
    if pieces == [] then [] else pieces[0] + Concat(pieces[1..])
  }

  /** Whatever the cuts, accepted Writes send what the one-shot function sends and leave the state it leaves. */
  lemma {:induction false} CutsDoNotMatter(policy: Policy, m: Mode, pieces: seq<bytes>)
    requires m.Valid()
    requires WriteEach(policy, m, pieces).Accepted?
    ensures FeedAll(policy, m, Concat(pieces))
         == Fed(WriteEach(policy, m, pieces).mode, WriteEach(policy, m, pieces).sent)
    decreases |pieces|
  {
    hide FeedAll;
    if pieces == [] {
      FeedNone(policy, m);
    } else {
      var first := WriteOnce(policy, m, pieces[0]);
      CutsDoNotMatter(policy, first.mode, pieces[1..]);
      FeedConcat(policy, m, pieces[0], Concat(pieces[1..]));
    }
  }

  /** Every byte is accepted, one Write for each: the finest cut. */
  ghost predicate Fits(policy: Policy, m: Mode, s: bytes)
    requires m.Valid()
    decreases |s|
  {
    s == [] ||
    var first := FeedByte(policy, m, s[0]);
    first.Fed? && Short(first.mode) && Fits(policy, first.mode, s[1..])
  }

  lemma {:induction false} FitsConcat(policy: Policy, m: Mode, a: bytes, b: bytes)
    requires m.Valid()
    ensures Fits(policy, m, a) ==> FeedAll(policy, m, a).Fed? && (a == [] || Short(FeedAll(policy, m, a).mode))
    ensures Fits(policy, m, a + b) == (Fits(policy, m, a) && Fits(policy, FeedAll(policy, m, a).mode, b))
    decreases |a|
  {
    hide FeedByte;
    if a == [] {
      assert a + b == b;
    } else {
      assert (a + b)[0] == a[0] && (a + b)[1..] == a[1..] + b;
      var first := FeedByte(policy, m, a[0]);
      if first.Fed? {
        FitsConcat(policy, first.mode, a[1..], b);
      }
    }
  }

  /** What the finest cut accepts, every cut accepts. */
  lemma {:induction false} FinestCutIsStrictest(policy: Policy, m: Mode, pieces: seq<bytes>)
    requires m.Valid() && Short(m)
    requires Fits(policy, m, Concat(pieces))
    ensures WriteEach(policy, m, pieces).Accepted?
    decreases |pieces|
  {
    hide Fits, FeedAll;
    if pieces != [] {
      FitsConcat(policy, m, pieces[0], Concat(pieces[1..]));
      if pieces[0] == [] {
        FeedNone(policy, m);
      }
      FinestCutIsStrictest(policy, FeedAll(policy, m, pieces[0]).mode, pieces[1..]);
    }
  }

  function Singles(s: bytes): (pieces: seq<bytes>)
    ensures Concat(pieces) == s
  {
    if s == [] then [] else [s[..1]] + Singles(s[1..])
  }

  lemma {:induction false} SinglesFit(policy: Policy, m: Mode, s: bytes)
    requires m.Valid()
    ensures WriteEach(policy, m, Singles(s)).Accepted? == Fits(policy, m, s)
    decreases |s|
  {
    hide FeedByte;
    if s != [] {
      assert s[..1][0] == s[0] && s[..1][1..] == [];
      FeedNone(policy, m);
      FeedFirst(policy, m, s[..1]);
      var first := FeedByte(policy, m, s[0]);
      if first.Fed? {
        FeedNone(policy, first.mode);
        assert first.sent + [] == first.sent;
        SinglesFit(policy, first.mode, s[1..]);
      }
    }
  }

  /** Streams that the limits admit: every complete header block has at most one byte more than the buffer limit,
      an unfinished one at most the limit, and chunked bodies are well formed as far as they go. */
  predicate WithinLimits(policy: Policy, stream: bytes)
    decreases |stream|, 0
  {
    match Index(stream, TERMINATOR)
    case None => |stream| <= MAX_BUFFERED
    case Some(i) =>
      i + 4 <= MAX_BUFFERED + 1 && BodyWithinLimits(policy, AfterHeader(policy, stream[..i + 4]), stream[i + 4..])
  }

  predicate BodyWithinLimits(policy: Policy, m: Mode, rest: bytes)
    requires m.Valid()
    decreases |rest|, 1
  {
    match m
    case InHeader(_) => WithinLimits(policy, rest)
    case InBody(n) => |rest| < n || WithinLimits(policy, rest[n..])
    case InChunks(t) =>
      match TrackAll(t, rest)
      case Pending(_) => true
      case Finished(k) => WithinLimits(policy, rest[k..])
      case Broken(_) => false
  }

  lemma {:induction false} FitsPartialHeader(policy: Policy, buffer: bytes, s: bytes)
    requires NoTerminator(buffer) && NoTerminator(buffer + s)
    ensures Fits(policy, InHeader(buffer), s) == (s == [] || |buffer + s| <= MAX_BUFFERED)
    decreases |s|
  {
    hide FeedAll, AfterHeader, Reordered;
    if s != [] {
      var longer := buffer + [s[0]];
      assert buffer + s == longer + s[1..];
      FeedPartialHeader(policy, buffer, s);
      forall i ensures !OccursAt(longer, TERMINATOR, i) {
        assert !OccursAt(buffer + s, TERMINATOR, i);
        if 0 <= i && i + 4 <= |longer| {
          assert longer[i..i + 4] == (buffer + s)[i..i + 4];
        }
      }
      assert |longer| >= 4 ==> longer[|longer| - 4..] == longer[|longer| - 4..|longer| - 4 + 4];
      assert !OccursAt(longer, TERMINATOR, |longer| - 4);
      FitsPartialHeader(policy, longer, s[1..]);
    }
  }

  lemma FitsLastByte(policy: Policy, buffer: bytes, last: byte)
    requires NoTerminator(buffer) && EndsHeader(buffer + [last])
    ensures Fits(policy, InHeader(buffer), [last])
  {
    hide AfterHeader, Reordered;
    assert [last][1..] == [];
  }

  lemma FitsHeader(policy: Policy, header: bytes)
    requires IsHeaderBlock(header)
    ensures Fits(policy, IDLE, header) == (|header| <= MAX_BUFFERED + 1)
  {
    hide FeedAll, Fits;
    var most, last := header[..|header| - 1], header[|header| - 1];
    HeaderWithoutLastByte(header);
    assert [] + most == most && most + [last] == header;
    FeedPartialHeader(policy, [], most);
    FitsPartialHeader(policy, [], most);
    FitsConcat(policy, IDLE, most, [last]);
    FitsLastByte(policy, most, last);
  }

  lemma {:induction false} FitsBody(policy: Policy, n: nat, s: bytes)
    requires 0 < n <= MAX_INT64 && |s| <= n
    ensures Fits(policy, InBody(n), s)
    decreases |s|
  {
    if s != [] && n > 1 {
      FitsBody(policy, n - 1, s[1..]);
    }
  }

  lemma {:induction false} FitsChunks(policy: Policy, t: Tracker, s: bytes)
    requires t.Valid()
    ensures match TrackAll(t, s)
            case Pending(_) => Fits(policy, InChunks(t), s)
            case Finished(k) => Fits(policy, InChunks(t), s[..k])
            case Broken(_) => !Fits(policy, InChunks(t), s)
    decreases |s|
  {
    hide TrackAll, Step;
    if s == [] {
      TrackNone(t);
    } else {
      TrackFirst(t, s);
      match Step(t, s[0]) {
        case Reject(_) =>
        case Complete =>
          assert s[..1][0] == s[0] && s[..1][1..] == [];
        case Continue(u) =>
          FitsChunks(policy, u, s[1..]);
          var rest := TrackAll(u, s[1..]);
          if rest.Finished? {
            assert s[..rest.used + 1][1..] == s[1..][..rest.used];
          }
      }
    }
  }

  lemma FitsRest(policy: Policy, m: Mode, rest: bytes, k: nat)
    requires m.Valid() && k <= |rest|
    requires FeedAll(policy, m, rest[..k]) == Fed(IDLE, rest[..k])
    requires Fits(policy, m, rest[..k])
    ensures Fits(policy, m, rest) == Fits(policy, IDLE, rest[k..])
  {
    hide *;
    assert rest == rest[..k] + rest[k..];
    FitsConcat(policy, m, rest[..k], rest[k..]);
  }

  lemma {:induction false} LimitsAreFits(policy: Policy, stream: bytes)
    ensures WithinLimits(policy, stream) == Fits(policy, IDLE, stream)
    decreases |stream|, 0
  {
    hide FeedAll, FeedByte, AfterHeader, Reordered, Fits, BodyWithinLimits;
    assert [] + stream == stream;
    match Index(stream, TERMINATOR)
    case None =>
      FitsPartialHeader(policy, [], stream);
      FitsNone(policy, IDLE);
    case Some(i) =>
      var header, rest := stream[..i + 4], stream[i + 4..];
      FirstHeader(stream, i);
      assert [] + header == header && header + rest == stream;
      FeedHeader(policy, [], header);
      FitsHeader(policy, header);
      FitsConcat(policy, IDLE, header, rest);
      BodyLimitsAreFits(policy, AfterHeader(policy, header), rest);
  }

  lemma {:induction false} BodyLimitsAreFits(policy: Policy, m: Mode, rest: bytes)
    requires m.Valid() && m.Held() == 0
    ensures BodyWithinLimits(policy, m, rest) == Fits(policy, m, rest)
    decreases |rest|, 1
  {
    hide FeedAll, FeedByte, TrackAll, Fits, WithinLimits;
    match m
    case InHeader(_) =>
      LimitsAreFits(policy, rest);
    case InBody(n) =>
      if |rest| < n {
        FitsBody(policy, n, rest);
      } else {
        FitsBody(policy, n, rest[..n]);
        FeedBody(policy, n, rest[..n]);
        FitsRest(policy, m, rest, n);
        LimitsAreFits(policy, rest[n..]);
      }
    case InChunks(t) =>
      FitsChunks(policy, t, rest);
      FeedChunks(policy, t, rest);
      var scan := TrackAll(t, rest);
      if scan.Finished? {
        FitsRest(policy, m, rest, scan.used);
        LimitsAreFits(policy, rest[scan.used..]);
      }
  }

  lemma FitsNone(policy: Policy, m: Mode)
    requires m.Valid()
    ensures Fits(policy, m, [])
  {}

  /** Main result: a stream is accepted under every way of cutting it into Writes exactly when it is within the
      limits, and then every cut sends, and leaves, what the one-shot function does. */
  lemma CutIndependence(policy: Policy, stream: bytes)
    ensures WithinLimits(policy, stream) <==>
      forall pieces :: Concat(pieces) == stream ==> WriteEach(policy, IDLE, pieces).Accepted?
    ensures WithinLimits(policy, stream) ==>
      forall pieces :: Concat(pieces) == stream ==>
        var r := WriteEach(policy, IDLE, pieces);
        r.Accepted? && OneShot(policy, stream) == Fed(r.mode, r.sent)
  {
    hide FeedAll, WriteEach, OneShot, WithinLimits, Fits;
    LimitsAreFits(policy, stream);
    OneShotIsFeed(policy, stream);
    if WithinLimits(policy, stream) {
      forall pieces | Concat(pieces) == stream
        ensures var r := WriteEach(policy, IDLE, pieces);
                r.Accepted? && OneShot(policy, stream) == Fed(r.mode, r.sent)
      {
        FinestCutIsStrictest(policy, IDLE, pieces);
        CutsDoNotMatter(policy, IDLE, pieces);
      }
    } else {
      SinglesFit(policy, IDLE, stream);
      assert Concat(Singles(stream)) == stream;
      assert !WriteEach(policy, IDLE, Singles(stream)).Accepted?;
    }
  }

  /** Every header block longer than that is accepted by one Write and refused byte by byte. */
  lemma LongBlockDependsOnCut(policy: Policy, block: bytes)
    requires IsHeaderBlock(block) && |block| > MAX_BUFFERED + 1
    ensures WriteEach(policy, IDLE, [block]).Accepted? && !WriteEach(policy, IDLE, Singles(block)).Accepted?
  {
    hide FeedAll, Fits, AfterHeader, Reordered, Singles, IsHeaderBlock;
    assert [] + block == block && block != [];
    FeedHeader(policy, [], block);
    assert [block][1..] == [];
    FitsHeader(policy, block);
    SinglesFit(policy, IDLE, block);
  }

  /** There are such blocks. */
  lemma LongBlocksExist(policy: Policy) returns (block: bytes)
    ensures IsHeaderBlock(block) && |block| == MAX_BUFFERED + 4
    ensures WriteEach(policy, IDLE, [block]).Accepted? && !WriteEach(policy, IDLE, Singles(block)).Accepted?
  {
    block := seq(MAX_BUFFERED, _ => 65) + TERMINATOR;
    forall i | 0 <= i < |block| - 4 ensures !OccursAt(block, TERMINATOR, i) {
      assert block[i] == 65 && block[i..i + 4][0] == block[i];
    }
    assert block[|block| - 4..] == TERMINATOR;
    LongBlockDependsOnCut(policy, block);
  }

  // ---- The connection objects ----

  /** What the connection does with one of its next writes: bytes taken, and whether it reports an error. */
  datatype Reply = Reply(taken: nat, failed: bool)

  /** The wrapped connection. `plan` holds the environment's replies to the next writes; once it is used up the
      connection takes everything. */
  class Conn {
    var sent: bytes
    var plan: seq<Reply>

    method Write(data: bytes) returns (written: nat, failed: bool)
      modifies this
      ensures written <= |data| && sent == old(sent) + data[..written]
      ensures old(plan) == [] ==> plan == [] && written == |data| && !failed
    {
      if plan == [] {
        written, failed := |data|, false;
      } else {
        written, failed := if plan[0].taken < |data| then plan[0].taken else |data|, plan[0].failed;
        plan := plan[1..];
      }
      sent := sent + data[..written];
    }
  }

  /** writeAll: a write that takes nothing and reports no error counts as a failure too. */
  method WriteAll(conn: Conn, data: bytes) returns (total: nat, failed: bool)
    modifies conn
    ensures total <= |data| && conn.sent == old(conn.sent) + data[..total]
    ensures !failed ==> total == |data|
    ensures old(conn.plan) == [] ==> conn.plan == [] && !failed
  {
    total, failed := 0, false;
    var rest := data;
    while rest != []
      invariant total <= |data| && rest == data[total..] && !failed
      invariant conn.sent == old(conn.sent) + data[..total]
      invariant old(conn.plan) == [] ==> conn.plan == []
      decreases |rest|
    {
      var written, failedNow := conn.Write(rest);
      assert data[..total] + rest[..written] == data[..total + written];
      total := total + written;
      if failedNow || written == 0 {
        return total, true;
      }
      rest := rest[written..];
    }
  }

  /** The error returned by Write; the two connection failures carry the connection's own error in the source. */
  datatype WriteError = NoError | HeaderTooLong | BadChunk(error: ChunkError) | BodyWriteFailed | HeaderWriteFailed

  /** The tracker over a part of what the preview saw. */
  lemma TrackPrefix(t: Tracker, s: bytes, n: nat)
    requires t.Valid() && n <= |s|
    requires match TrackAll(t, s) { case Pending(_) => true case Finished(k) => n <= k case Broken(_) => false }
    ensures match TrackAll(t, s[..n]) { case Pending(_) => true case Finished(k) => k == n case Broken(_) => false }
  {
    assert s == s[..n] + s[n..];
    TrackConcat(t, s[..n], s[n..]);
  }

  /** The block completed by new bytes ends among them. */
  lemma BlockEndsLater(buffer: bytes, rest: bytes, i: nat)
    requires NoTerminator(buffer) && OccursAt(buffer + rest, TERMINATOR, i)
    ensures i + 4 > |buffer|
  {
    if i + 4 <= |buffer| {
      assert (buffer + rest)[i..i + 4] == buffer[i..i + 4];
      assert OccursAt(buffer, TERMINATOR, i);
    }
  }

  /** A run of the wrapper continued by the next bytes. */
  lemma FeedMore(policy: Policy, start: Mode, p: bytes, i: nat, k: nat, m: Mode)
    requires start.Valid() && i + k <= |p|
    requires FeedAll(policy, start, p[..i]).Fed? && FeedAll(policy, start, p[..i]).mode == m
    ensures FeedAll(policy, start, p[..i + k]) == After(FeedAll(policy, start, p[..i]).sent, FeedAll(policy, m, p[i..][..k]))
  {
    hide FeedAll;
    assert p[..i + k] == p[..i] + p[i..][..k];
    FeedConcat(policy, start, p[..i], p[i..][..k]);
  }

  class OrderedRequestConn {
    const policy: Policy
    const conn: Conn
    var header: bytes
    var bodyRemaining: int
    var chunked: ChunkedRequestTracker?

    ghost predicate Valid()
      reads this, chunked
    {
      && 0 <= bodyRemaining <= MAX_INT64
      && (bodyRemaining > 0 ==> chunked == null)
      && (bodyRemaining > 0 || chunked != null ==> header == [])
      && (chunked != null ==> chunked.Valid())
      && NoTerminator(header)
    }

    ghost function Mode(): (m: Mode)
      requires Valid()
      reads this, chunked
      ensures m.Valid()
    {
      if bodyRemaining > 0 then InBody(bodyRemaining)
      else if chunked != null then InChunks(chunked.Value())
      else InHeader(header)
    }

    constructor (conn: Conn, policy: Policy)
      ensures Valid() && Mode() == IDLE && this.conn == conn && this.policy == policy
    {
      this.policy, this.conn := policy, conn;
      header, bodyRemaining, chunked := [], 0, null;
    }

    /** The bytes of a body of known length. */
    method ForwardBody(rest: bytes) returns (written: nat, failed: bool)
      requires Valid() && bodyRemaining > 0 && rest != []
      modifies this`bodyRemaining, conn
      ensures Valid() && written <= |rest|
      ensures FeedAll(policy, old(Mode()), rest[..written]) == Fed(Mode(), rest[..written])
      ensures conn.sent == old(conn.sent) + rest[..written]
      ensures !failed ==> written > 0
      ensures old(conn.plan) == [] ==> conn.plan == [] && !failed
    {
      var bodyBytes := if |rest| < bodyRemaining then |rest| else bodyRemaining;
      written, failed := WriteAll(conn, rest[..bodyBytes]);
      FeedBody(policy, bodyRemaining, rest[..written]);
      assert rest[..bodyBytes][..written] == rest[..written];
      bodyRemaining := bodyRemaining - written;
    }

    /** The bytes of a chunked body: a preview finds how many belong to it, the tracker then follows what was sent. */
    method ForwardChunks(rest: bytes) returns (written: nat, error: WriteError)
      requires Valid() && chunked != null && rest != []
      modifies this`chunked, chunked, conn
      ensures Valid() && written <= |rest|
      ensures chunked == old(chunked) || chunked == null
      ensures FeedAll(policy, old(Mode()), rest[..written]) == Fed(Mode(), rest[..written])
      ensures conn.sent == old(conn.sent) + rest[..written]
      ensures error == NoError || error == BodyWriteFailed || error.BadChunk?
      ensures error == NoError ==> written > 0
      ensures error.BadChunk? ==> FeedAll(policy, old(Mode()), rest) == Refused(error.error)
      ensures old(conn.plan) == [] ==> conn.plan == [] && error != BodyWriteFailed
    {
      hide FeedAll, TrackAll;
      ghost var start := chunked.Value();
      FeedChunks(policy, start, rest);
      var preview := chunked.Clone();
      var chunkBytes, _, broken := preview.Consume(rest);
      if broken.Some? {
        FeedNone(policy, Mode());
        assert rest[..0] == [];
        return 0, BadChunk(broken.value);
      }
      var failed;
      written, failed := WriteAll(conn, rest[..chunkBytes]);
      assert rest[..chunkBytes][..written] == rest[..written];
      TrackPrefix(start, rest, written);
      FeedChunks(policy, start, rest[..written]);
      assert rest[..written][..written] == rest[..written];
      var _, completed, again := chunked.Consume(rest[..written]);
      if completed {
        chunked := null;
      }
      error := if failed then BodyWriteFailed else NoError;
    }

    /** Sends a complete header block, reordered, and prepares for the body it announces. */
    method SendHeader(block: bytes) returns (failed: bool)
      requires Valid() && Mode() == IDLE && EndsHeader(block)
      modifies this`bodyRemaining, this`chunked, conn
      ensures Valid() && (chunked == null || fresh(chunked))
      ensures !failed ==> Mode() == AfterHeader(policy, block) && conn.sent == old(conn.sent) + Reordered(policy, block)
      ensures failed ==> Mode() == IDLE && old(conn.sent) <= conn.sent <= old(conn.sent) + Reordered(policy, block)
      ensures old(conn.plan) == [] ==> conn.plan == [] && !failed
    {
      hide Reordered, UsesChunked, ContentLength, Lines;
      var output, contentLength, isChunked := OrderRequestHeader(policy, block);
      var total;
      total, failed := WriteAll(conn, output);
      assert output[..|output|] == output;
      if failed {
        return;
      }
      if isChunked {
        chunked := new ChunkedRequestTracker();
      } else {
        bodyRemaining := contentLength;
      }
    }

    /** Header bytes: kept until the block is complete, then sent reordered. `taken` counts the bytes of `rest` that
        belong to the block. */
    method ForwardHeader(rest: bytes) returns (taken: nat, error: WriteError)
      requires Valid() && bodyRemaining == 0 && chunked == null && rest != []
      modifies this, conn
      ensures Valid() && 0 < taken <= |rest| && (chunked == null || fresh(chunked))
      ensures error == NoError || error == HeaderTooLong || error == HeaderWriteFailed
      ensures FeedAll(policy, old(Mode()), rest[..taken]).Fed?
      ensures error != HeaderWriteFailed ==>
        var fed := FeedAll(policy, old(Mode()), rest[..taken]);
        fed.mode == Mode() && conn.sent == old(conn.sent) + fed.sent
      ensures error == HeaderWriteFailed ==>
        var fed := FeedAll(policy, old(Mode()), rest[..taken]);
        Mode() == IDLE && old(conn.sent) <= conn.sent <= old(conn.sent) + fed.sent
      ensures error == HeaderTooLong <==> |header| > MAX_BUFFERED
      ensures header != [] ==> taken == |rest| && header == old(header) + rest
      ensures old(conn.plan) == [] ==> conn.plan == [] && error != HeaderWriteFailed
    {
      hide FeedAll, Reordered, AfterHeader;
      ghost var before := header;
      var previousHeaderLength := |header|;
      header := header + rest;
      match Index(header, TERMINATOR) {
        case None =>
          FeedPartialHeader(policy, before, rest);
          assert rest[..|rest|] == rest;
          return |rest|, if |header| > MAX_BUFFERED then HeaderTooLong else NoError;
        case Some(i) =>
          var headerEnd := i + 4;
          FirstHeader(header, i);
          BlockEndsLater(before, rest, i);
          taken := headerEnd - previousHeaderLength;
          var block := header[..headerEnd];
          assert block == before + rest[..taken];
          FeedHeader(policy, before, rest[..taken]);
          header := [];
          var failed := SendHeader(block);
          return taken, if failed then HeaderWriteFailed else NoError;
      }
    }

    /** One round of the loop of Write: some bytes of the body, or of the header block. */
    method ForwardSome(rest: bytes) returns (taken: nat, error: WriteError)
      requires Valid() && rest != []
      modifies this, chunked, conn
      ensures Valid() && taken <= |rest| && (chunked == null || chunked == old(chunked) || fresh(chunked))
      ensures FeedAll(policy, old(Mode()), rest[..taken]).Fed?
      ensures error != HeaderWriteFailed ==>
        var fed := FeedAll(policy, old(Mode()), rest[..taken]);
        fed.mode == Mode() && conn.sent == old(conn.sent) + fed.sent
      ensures error == HeaderWriteFailed ==>
        var fed := FeedAll(policy, old(Mode()), rest[..taken]);
        Mode() == IDLE && old(conn.sent) <= conn.sent <= old(conn.sent) + fed.sent
      ensures error.BadChunk? ==> FeedAll(policy, old(Mode()), rest) == Refused(error.error)
      ensures error == NoError ==> taken > 0
      ensures error == HeaderTooLong <==> |header| > MAX_BUFFERED
      ensures header != [] ==> taken == |rest| && header == old(header) + rest
      ensures old(conn.plan) == [] ==> conn.plan == [] && error != BodyWriteFailed && error != HeaderWriteFailed
    {
      hide FeedAll;
      if bodyRemaining > 0 {
        var failed;
        taken, failed := ForwardBody(rest);
        error := if failed then BodyWriteFailed else NoError;
      } else if chunked != null {
        taken, error := ForwardChunks(rest);
      } else {
        taken, error := ForwardHeader(rest);
      }
    }

    /** Sends the bytes of `p`, with header lines reordered. Unless a header block could not be sent, the wrapper has
        done exactly what the byte-at-a-time specification does on the first `n` bytes (all of `p` when the
        block is too long, whose bytes stay in the buffer). */
    method Write(p: bytes) returns (n: nat, error: WriteError)
      requires Valid()
      modifies this, chunked, conn
      ensures Valid() && n <= |p|
      ensures error == NoError ==> n == |p| && (p == [] || Short(Mode()))
      ensures error == NoError || error == BodyWriteFailed || error.BadChunk? ==>
        var fed := FeedAll(policy, old(Mode()), p[..n]);
        fed.Fed? && fed.mode == Mode() && conn.sent == old(conn.sent) + fed.sent
      ensures error.BadChunk? ==> FeedAll(policy, old(Mode()), p) == Refused(error.error)
      ensures error == HeaderTooLong ==>
        var fed := FeedAll(policy, old(Mode()), p);
        fed.Fed? && fed.mode == Mode() && conn.sent == old(conn.sent) + fed.sent
        && !Short(Mode()) && n == if Mode().Held() < |p| then |p| - Mode().Held() else 0
      ensures error == HeaderWriteFailed ==>
        && n == |p| && Mode() == IDLE && old(conn.sent) <= conn.sent
        && exists j :: 0 <= j <= |p| && FeedAll(policy, old(Mode()), p[..j]).Fed?
                    && conn.sent <= old(conn.sent) + FeedAll(policy, old(Mode()), p[..j]).sent
      ensures error == NoError || error == BodyWriteFailed || error.BadChunk? ==>
        old(Mode().Held()) + n == |conn.sent| - |old(conn.sent)| + Mode().Held()
      ensures old(conn.plan) == [] ==> conn.plan == [] && error != BodyWriteFailed && error != HeaderWriteFailed
      ensures old(conn.plan == [] && Short(Mode())) ==>
        (error == NoError <==> WriteOnce(policy, old(Mode()), p).Accepted?)
    {
      hide FeedAll, NoTerminator, ChunkedRequestTracker.Valid, ChunkedRequestTracker.Value;
      ghost var start := Mode();
      n, error := WriteLoop(p);
      FeedBalance(policy, start, p[..n]);
      FeedBalance(policy, start, p);
      assert p[..|p|] == p;
    }

    /** The loop of Write. */
    method WriteLoop(p: bytes) returns (n: nat, error: WriteError)
      requires Valid()
      modifies this, chunked, conn
      ensures Valid() && n <= |p|
      ensures error == NoError ==> n == |p| && (p == [] || Short(Mode()))
      ensures error == NoError || error == BodyWriteFailed || error.BadChunk? ==>
        var fed := FeedAll(policy, old(Mode()), p[..n]);
        fed.Fed? && fed.mode == Mode() && conn.sent == old(conn.sent) + fed.sent
      ensures error.BadChunk? ==> FeedAll(policy, old(Mode()), p) == Refused(error.error)
      ensures error == HeaderTooLong ==>
        var fed := FeedAll(policy, old(Mode()), p);
        fed.Fed? && fed.mode == Mode() && conn.sent == old(conn.sent) + fed.sent
        && !Short(Mode()) && n == if Mode().Held() < |p| then |p| - Mode().Held() else 0
      ensures error == HeaderWriteFailed ==>
        && n == |p| && Mode() == IDLE && old(conn.sent) <= conn.sent
        && exists j :: 0 <= j <= |p| && FeedAll(policy, old(Mode()), p[..j]).Fed?
                    && conn.sent <= old(conn.sent) + FeedAll(policy, old(Mode()), p[..j]).sent
      ensures old(conn.plan) == [] ==> conn.plan == [] && error != BodyWriteFailed && error != HeaderWriteFailed
    {
      hide FeedAll, NoTerminator, ChunkedRequestTracker.Valid, ChunkedRequestTracker.Value, AfterHeader;
      ghost var start, before := Mode(), conn.sent;
      var consumed: nat, rest := 0, p;
      FeedNone(policy, start);
      assert p[..0] == [];
      while rest != []
        invariant Valid() && (chunked == null || chunked == old(chunked) || fresh(chunked))
        invariant consumed <= |p| && rest == p[consumed..]
        invariant FeedAll(policy, start, p[..consumed]).Fed?
        invariant FeedAll(policy, start, p[..consumed]).mode == Mode()
        invariant conn.sent == before + FeedAll(policy, start, p[..consumed]).sent
        invariant if consumed == 0 then header == old(header) else header == []
        invariant old(conn.plan) == [] ==> conn.plan == []
        decreases |rest|
      {
        ghost var m := Mode();
        var taken;
        taken, error := ForwardSome(rest);
        FeedMore(policy, start, p, consumed, taken, m);
        if error == HeaderTooLong {
          assert p[..consumed + taken] == p;
          return consumed, error;
        }
        if error == HeaderWriteFailed {
          return |p|, error;
        }
        if error.BadChunk? {
          FeedMore(policy, start, p, consumed, |rest|, m);
          assert p[..|p|] == p && rest[..|rest|] == rest;
        }
        consumed := consumed + taken;
        if error != NoError {
          return consumed, error;
        }
        if header != [] {
          assert p[..consumed] == p;
          return |p|, NoError;
        }
        rest := rest[taken..];
      }
      assert p[..consumed] == p;
      return |p|, NoError;
    }
  }
}
