/** Whole requests on one connection: what the wrapper makes of header blocks followed by the bodies they announce. */
module RequestStream {
  import opened Wrappers
  import opened Bytes
  import opened HeaderOrder
  import opened HeaderFraming
  import opened ChunkTracker
  import opened OrderedConn

  /** A request line, the header lines, and the bytes of the body. */
  datatype Request = Request(line: bytes, fields: seq<bytes>, body: bytes)

  function Block(r: Request): (b: bytes)
    ensures |b| >= 4
  {
    Unlines([r.line] + r.fields) + CRLF
  }

  /** The body is framed as the header lines say; a Transfer-Encoding with chunked overrides a Content-Length
      (section 6.3 of RFC 9112). */
  ghost predicate Framed(fold: bytes -> bytes, fields: seq<bytes>, body: bytes) {
    if AnnouncesChunked(fold, fields) then IsLooseBytes(body)
    else if body == [] then forall n: nat :: n > 0 ==> !AnnouncesLength(fold, fields, n)
    else AnnouncesLength(fold, fields, |body|)
  }

  ghost predicate Proper(fold: bytes -> bytes, r: Request) {
    && NoBreak(r.line) && (forall line :: line in r.fields ==> NoBreak(line)) && IsHeaderBlock(Block(r))
    && Framed(fold, r.fields, r.body)
  }

  function Wire(requests: seq<Request>): bytes {
    if requests == [] then [] else Block(requests[0]) + requests[0].body + Wire(requests[1..])
  }

  function Rewritten(policy: Policy, requests: seq<Request>): bytes
  {
    if requests == [] then []
    else Reordered(policy, Block(requests[0])) + requests[0].body + Rewritten(policy, requests[1..])
  }

  lemma BodyMode(policy: Policy, r: Request)
    requires Proper(policy.fold, r)
    ensures AfterHeader(policy, Block(r))
         == if AnnouncesChunked(policy.fold, r.fields) then InChunks(START)
            else if r.body == [] then IDLE
            else InBody(|r.body|)
    ensures !AnnouncesChunked(policy.fold, r.fields) ==> |r.body| <= MAX_INT64
  {
    hide AnnouncesChunked, AnnouncesLength, UsesChunked, ContentLength, Lines, IsHeaderBlock;
    var fields := r.fields;
    BlockSplits([r.line] + fields);
    assert ([r.line] + fields)[1..] == fields;
    UsesChunkedIs(policy.fold, fields);
    var n := ContentLength(policy.fold, fields);
    if n > 0 {
      ContentLengthIs(policy.fold, fields, n);
    }
    if r.body != [] {
      ContentLengthIs(policy.fold, fields, |r.body|);
    }
  }

  /** The body that a header block announces passes unchanged, and the next request may begin. */
  lemma BodyPasses(policy: Policy, r: Request)
    requires Proper(policy.fold, r)
    ensures FeedAll(policy, AfterHeader(policy, Block(r)), r.body) == Fed(IDLE, r.body)
  {
    hide FeedAll, AfterHeader, AnnouncesChunked, AnnouncesLength, IsHeaderBlock, IsLooseBytes, TrackAll, Block;
    BodyMode(policy, r);
    if AnnouncesChunked(policy.fold, r.fields) {
      assert r.body[..|r.body|] == r.body;
      CompletesIff(r.body, |r.body|);
      FeedChunks(policy, START, r.body);
    } else if r.body == [] {
      FeedNone(policy, IDLE);
    } else {
      FeedBody(policy, |r.body|, r.body);
    }
  }

  lemma RequestPasses(policy: Policy, r: Request)
    requires Proper(policy.fold, r)
    ensures FeedAll(policy, IDLE, Block(r) + r.body) == Fed(IDLE, Reordered(policy, Block(r)) + r.body)
  {
    hide FeedAll, AfterHeader, Reordered, Block, Framed;
    var block := Block(r);
    assert [] + block == block;
    assert IsHeaderBlock(block);
    FeedHeader(policy, [], block);
    FeedConcat(policy, IDLE, block, r.body);
    BodyPasses(policy, r);
  }

  lemma AfterTwice(a: bytes, b: bytes, r: Feed)
    ensures After(a, After(b, r)) == After(a + b, r)
  {
    assert r.Fed? ==> a + (b + r.sent) == a + b + r.sent;
  }

  /** Requests one after the other on a connection are sent with their header blocks reordered and their bodies unchanged,
      and what follows them is treated like the start of a stream. */
  lemma {:induction false} RequestsPass(policy: Policy, requests: seq<Request>, rest: bytes)
    requires forall r :: r in requests ==> Proper(policy.fold, r)
    ensures FeedAll(policy, IDLE, Wire(requests) + rest) == After(Rewritten(policy, requests), FeedAll(policy, IDLE, rest))
  {
    hide FeedAll, Reordered, Block, Framed, IsHeaderBlock, NoBreak;
    if requests == [] {
      assert Wire(requests) + rest == rest;
    } else {
      var r, more := requests[0], Wire(requests[1..]) + rest;
      var one, later := Block(r) + r.body, Rewritten(policy, requests[1..]);
      assert r in requests;
      RequestPasses(policy, r);
      RequestsPass(policy, requests[1..], rest);
      assert Wire(requests) + rest == one + more;
      FeedConcat(policy, IDLE, one, more);
      AfterTwice(Reordered(policy, Block(r)) + r.body, later, FeedAll(policy, IDLE, rest));
    }
  }

  /** However the requests are cut into Writes, accepted Writes send exactly them, rewritten, and keep nothing back. */
  lemma RequestsWritten(policy: Policy, requests: seq<Request>, pieces: seq<bytes>)
    requires forall r :: r in requests ==> Proper(policy.fold, r)
    requires Concat(pieces) == Wire(requests)
    requires WriteEach(policy, IDLE, pieces).Accepted?
    ensures WriteEach(policy, IDLE, pieces) == Accepted(IDLE, Rewritten(policy, requests))
  {
    hide FeedAll, Reordered, Block, Proper;
    CutsDoNotMatter(policy, IDLE, pieces);
    RequestsPass(policy, requests, []);
    FeedNone(policy, IDLE);
    assert Wire(requests) + [] == Wire(requests);
    assert Rewritten(policy, requests) + [] == Rewritten(policy, requests);
  }
}
