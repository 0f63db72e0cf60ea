# Verified models of the proxy's stateful cores

Dafny models of the parts of the proxy where state, concurrency or structure makes the code hard to trust by reading it,
and proofs of what they are for. `dafny verify dfyconfig.toml` checks everything.

| file | what it models |
|---|---|
| `Wrappers.dfy`, `Bytes.dfy`, `StableOrder.dfy` | options; byte strings with the Go library functions used (index, trim, number parsing and printing); the pass-by-wanted-name ordering of lines |
| `TextForms.dfy` | what trimming and number parsing mean, in code points and place values |
| `HeaderOrder.dfy` | rewriting one HTTP/1.1 request header block |
| `HeaderFraming.dfy` | what header lines say, in terms of their bytes: names, places, announced bodies |
| `ChunkTracker.dfy` | the tracker that follows a chunked request body |
| `OrderedConn.dfy` | the connection wrapper: header buffer, body counter, tracker with its preview copy, short and failing writes |
| `RequestStream.dfy` | whole requests on one connection |
| `Eviction.dfy` | sums over a map, batch eviction of the oldest entries, expiry passes |
| `ThinkingReplay.dfy` | the Claude and Kimi replay caches: generations, tombstones, exact byte count, limits (one generic class, instantiated twice) |
| `AntigravityLocal.dfy`, `ReplayItems.dfy` | the Antigravity cache in process memory: snapshots, revisions, branches, eviction epochs |
| `HomeRegister.dfy`, `AntigravityHome.dfy` | the same protocol over a shared register with compare-and-swap, any number of processes |
| `CodexReplay.dfy` | turn-wise trimming and the compare-and-swap append loop |
| `ReleaseFlusher.dfy` | cumulative acknowledgements: marks, sends, acknowledgements, closing of waiters |
| `BoundedLru.dfy` | the bounded LRU on its map and its doubly linked list |
| `Resp.dfy`, `RespForms.dfy` | RESP arrays: readers, the two printers; exactly what is read |
| `Wav.dfy`, `WavFiles.dfy` | the WAV reader and writer of the realtime example; exactly what is read |
| `YamlTree.dfy`, `YamlMerge.dfy` | the comment-preserving YAML merge on values |
| `YamlLosses.dfy`, `YamlIdentity.dfy` | what a merge may leave out, and when list elements are the same, in literals |
| `YamlNode.dfy` | YAML node graphs in memory and their deep copy, shared and cyclic graphs included |
| `YamlShape.dfy`, `YamlInPlace.dfy` | the merge as it is done on the nodes, in place, proved to compute the merge on values |

Where the source changes state, the model is a class or a method on arrays of nodes with the same fields and the same order
of branches; each such method is proved against a function or predicate on values, and the theorems are about these.

## How the environment is modelled

- The order callback of the header rewriter is a pure function; case folding of header names is a function that is only
  assumed to be one. The connection follows an arbitrary plan of short and failing writes.
- Time is a parameter of each cache operation. Random generations and branches are numbers not used before. Counters of
  64 bits (revision, epoch, sequence) do not wrap.
- The remote register is a class whose `Await` lets any number of writes by other processes happen before each atomic get
  and compare-and-swap (contract at internal/home/client.go:1059-1100); failed calls are replies of their own.
- JSON rewriting of replay items, canonical JSON, the turn ids in Codex items and the JSON form of stored values are function
  parameters; unmarshalling inverts marshalling.
- In the flusher, other goroutines' marks are an arbitrary list that is handled during each send.

## Where the code does less than its documentation or names say

For each the exact condition is proved; where the code writes such states itself, an input is given too.

- The header buffer limit is not a limit on blocks: a block one byte longer than the limit passes however it is cut, and a
  longer one passes only if some Write completes it. So independence of the cuts holds exactly for streams whose complete
  blocks have at most limit + 1 bytes (`OrderedConn.CutIndependence`; `OrderedConn.LongBlocksExist` has an input).
- A publish into the Claude or Kimi cache may evict the entry that it writes, and then it evicts everything. Of n entries the
  newest (n - 1) % 128 + 1 decide: the new one survives if and only if they fit in the byte limit
  (`ThinkingReplay.NewestSurvivesIff`; `ThinkingReplay.PublishLosesItself` has 128 tombstones and 32 sessions of the largest
  size, which fit exactly, and one more).
- A conditional delete in these caches can leave one entry more than the limit, exactly when the snapshot claims that the
  key was absent, it is, and the map is full (`ThinkingReplay.ThinkingReplayCache.DeleteIfUnchanged`). No get hands out such
  a snapshot.
- Appending a Codex turn twice is appending it once over every value that the code itself writes, since these fit the limits
  (`CodexReplay.StoredAppendTwice`, `CodexReplay.AppendFits`). Only over a foreign value that does not fit, whose oldest turns
  hold the turn's id, does the second append add the turn (`CodexReplay.AppendTwice` has the condition,
  `CodexReplay.OverfullValueAppendsTwice` an input). A turn without a leading marker, stored first, is dropped by the next
  append (`CodexReplay.UnmarkedTurnIsLost`).
- In Home mode items along a branch grow over a value found at first if and only if no chain that extends what its snapshot
  shows contradicts what it holds (`AntigravityHome.GrowthIff`); that is, unless the value is marked, has a branch, is within
  the size limit, and its snapshot does not show exactly what it holds (`AntigravityHome.UncontradictedIff`;
  `AntigravityHome.LossyValueBreaksGrowth` has an input).
- A YAML entry with a blank key inside a list element is lost when that element is matched with an old one
  (`YamlMerge.BlankKeyIsLost`, condition in `YamlMerge.MergeReadsBack`).
- Names and values of identities are joined by an equals sign, so a key that has one can make two list elements match that
  have no entry in common (`YamlIdentity.IdentitiesCollide`, condition in `YamlIdentity.SameIdentityIff`).
- The comment at internal/config/config_yaml.go:386 says that an explicit zero weight must be preserved. Where the destination
  has the entries that lead to it, and in any list element that takes no old one, it is; so it always is directly in an
  element of a list (`YamlMerge.WeightOfElementKept`). Below an entry that the destination lacks it is written if and only if
  the entry is not zero once it is pruned and no mapping value in between is zero before; and not below a blank key of an
  element that takes an old one (`YamlMerge.NewWeightKept`, over paths through mappings and lists;
  `YamlMerge.DeepWeightIsLost` has an input).

## Model

| member | source | states |
|---|---|---|
| HeaderOrder.SameNameOrderKept | internal/httpwire/ordered_conn.go:128-150 | Lines with the same field name keep their relative order (RFC 9110 section 5.3), whatever order is wanted. |
| HeaderOrder.ReorderedPermutes | internal/httpwire/ordered_conn.go:115-156 | The rewritten block consists of exactly the lines of the block. |
| HeaderOrder.ReorderedLines | internal/httpwire/ordered_conn.go:115-156 | The rewritten block has the same length, ends like a block, and splits into the request line followed by the arranged lines. |
| HeaderOrder.ReorderedTwice | internal/httpwire/ordered_conn.go:115-156 | Reordering twice is reordering once. |
| HeaderOrder.ReorderedKeepsFraming | internal/httpwire/ordered_conn.go:163-192 | Content-Length and chunked framing read from the rewritten block are those of the block. |
| HeaderOrder.ArrangeKeepsFraming | internal/httpwire/ordered_conn.go:163-192 | The same on arbitrary lists of lines and wanted orders. |
| HeaderOrder.OrderRequestHeader | internal/httpwire/ordered_conn.go:115-156 | The loops with the used marks compute the specified block, length and chunked flag. |
| HeaderFraming.NamedIs | internal/httpwire/ordered_conn.go:158-161 | A line carries a name exactly when it is a nonempty text without colon that folds like the name, a colon, and a value. |
| HeaderFraming.DesiredIs | internal/httpwire/ordered_conn.go:120-125 | The wanted order is asked for with the first two parts between single spaces; a request line with fewer parts gets none. |
| HeaderFraming.WantedPlace | internal/httpwire/ordered_conn.go:128-150 | In the rewritten block every line above one with a wanted name has a name that is wanted no later. |
| HeaderFraming.ContentLengthIs | internal/httpwire/ordered_conn.go:163-177 | For every positive n: the length read is n if and only if the first Content-Length field is white space around an integer of that value within 64 bits. So it is 0 for anything else and without such a field. |
| HeaderFraming.PrintedLength | internal/httpwire/ordered_conn.go:163-177 | In particular for n printed in decimal, with leading zeros or not, between white space. |
| HeaderFraming.UsesChunkedIs | internal/httpwire/ordered_conn.go:179-192 | The body is chunked if and only if some Transfer-Encoding field has chunked, in any letter case, between white space and commas. |
| StableOrder.PickInOrder | internal/httpwire/ordered_conn.go:129-150 | The passes over the used marks yield the lines sorted by first wanted position, unlisted ones last, stably. |
| StableOrder.ArrangeSorted | internal/httpwire/ordered_conn.go:129-150 | The arranged lines are sorted by the first wanted name that they carry. |
| StableOrder.ArrangeTwice | internal/httpwire/ordered_conn.go:129-150 | Arranging is idempotent. |
| Bytes.ParseOfItoa | internal/api/redis_queue_protocol.go:413-475 | Parsing a printed length or count gives it back. |
| TextForms.TrimSpaceOf | internal/httpwire/ordered_conn.go:169-183 | Trimming takes off the UTF-8 encodings of Unicode white space at both ends. |
| TextForms.TrimSpaceSplits | internal/httpwire/ordered_conn.go:169-183 | It takes off nothing else and leaves none. |
| TextForms.DigitsAre | internal/httpwire/ordered_conn.go:234-238 | A digit string is read as the number that the places of its digits give, in either letter case. |
| TextForms.ParseIntIs | internal/httpwire/ordered_conn.go:170-238 | An integer is read exactly from an optional sign and digits whose value is within 64 bits. |
| ChunkTracker.TrackConcat | internal/httpwire/ordered_conn.go:220-280 | Consuming a then b is consuming a + b whenever a ends inside the body. |
| ChunkTracker.TrackBefore | internal/httpwire/ordered_conn.go:220-280 | Nothing completes or fails before the byte that completes. |
| ChunkTracker.EncodedBodyCompletes | internal/httpwire/ordered_conn.go:194-280 | On every body by RFC 9112 section 7.1, extensions and trailers included, the tracker completes exactly at the last byte, whatever the chunk data and whatever follows. |
| ChunkTracker.ParseSizeIs | internal/httpwire/ordered_conn.go:234-241 | A size line is read as n if and only if it is white space around a hexadecimal integer n that is not negative, with anything after a semicolon. |
| ChunkTracker.CompletesIff | internal/httpwire/ordered_conn.go:194-280 | The tracker completes after k bytes if and only if they are chunks with such size lines and their line breaks, a last size line of zero, and an ending whose first empty line is its end, within the limits. |
| ChunkTracker.ChunkedRequestTracker.Consume | internal/httpwire/ordered_conn.go:220-280 | The in-place loop leaves the state, consumed count, completion and error of the byte-at-a-time tracker; on an error the count points at the byte that broke the encoding. |
| ChunkTracker.ChunkedRequestTracker.Clone | internal/httpwire/ordered_conn.go:213-218 | The preview copy is a new object with the same value; the original is untouched. |
| OrderedConn.FeedConcat | internal/httpwire/ordered_conn.go:40-113 | Header buffer, body counter and tracker together are incremental: a stream may be cut anywhere. |
| OrderedConn.FeedBalance | internal/httpwire/ordered_conn.go:40-113 | Bytes held before plus bytes fed are bytes sent plus bytes held after. |
| OrderedConn.FeedChunks | internal/httpwire/ordered_conn.go:61-84 | A stretch of a chunked body passes unchanged and moves the tracker by exactly its bytes. |
| OrderedConn.FeedHeader | internal/httpwire/ordered_conn.go:85-109 | The bytes that complete a header block send it reordered and start the body it announces. |
| OrderedConn.OneShotIsFeed | internal/httpwire/ordered_conn.go:40-113 | The incremental machine equals the one-shot function that splits the stream into requests, reorders each header and copies each body. |
| OrderedConn.CutsDoNotMatter | internal/httpwire/ordered_conn.go:40-113 | Any accepted sequence of Writes sends and leaves what the one-shot function does on their concatenation. |
| OrderedConn.FinestCutIsStrictest | internal/httpwire/ordered_conn.go:86-97 | What is accepted byte by byte is accepted under every cut. |
| OrderedConn.CutIndependence | internal/httpwire/ordered_conn.go:40-113 | All cuts are accepted if and only if the stream is within the limits, and then all send and leave what the one-shot function does. |
| OrderedConn.LongBlockDependsOnCut | internal/httpwire/ordered_conn.go:82-89 | Every block longer than limit + 1 bytes is accepted in one Write and refused byte by byte. |
| OrderedConn.LongBlocksExist | internal/httpwire/ordered_conn.go:82-89 | Such a block. |
| OrderedConn.WriteAll | internal/httpwire/ordered_conn.go:282-296 | What the connection got is exactly the reported prefix; without error it is everything. |
| OrderedConn.OrderedRequestConn.ForwardBody | internal/httpwire/ordered_conn.go:46-60 | The counter falls by exactly the body bytes sent, short writes included. |
| OrderedConn.OrderedRequestConn.ForwardChunks | internal/httpwire/ordered_conn.go:61-84 | The tracker advances by exactly the bytes sent although the preview ran ahead. |
| OrderedConn.OrderedRequestConn.SendHeader | internal/httpwire/ordered_conn.go:98-109 | A complete block is sent reordered and the framing is set up, or the connection failed within it. |
| OrderedConn.OrderedRequestConn.ForwardHeader | internal/httpwire/ordered_conn.go:85-109 | Header bytes are held until the block is complete; too long a block is rejected with its bytes kept. |
| OrderedConn.OrderedRequestConn.Write | internal/httpwire/ordered_conn.go:40-113 | Unless a header write failed, the wrapper has done what the machine does on the reported bytes; accepted bytes equal sent plus held ones; on a healthy connection an error occurs exactly when the specification refuses. |
| RequestStream.RequestsPass | internal/httpwire/ordered_conn.go:40-113 | Any requests whose bodies are framed as their header lines say, chunked or of the printed length or empty, are sent with the blocks reordered and the bodies unchanged, and what follows is treated like the start of a stream. |
| RequestStream.RequestsWritten | internal/httpwire/ordered_conn.go:40-113 | However they are cut into Writes, accepted Writes send exactly that and keep nothing back. |
| Eviction.EvictOldest | internal/cache/claude_thinking_replay_cache.go:448-471 | Removes min(count, size) entries, none younger than a kept one, and reports exactly the freed weight. |
| Eviction.TotalRemove | internal/cache/claude_thinking_replay_cache.go:448-471 | Removing an entry lowers the total by its weight. |
| ThinkingReplay.DropToFitIsLongest | internal/cache/claude_thinking_replay_cache.go:367-382 | Front trimming keeps the longest suffix within both session limits. |
| ThinkingReplay.AppendTurnKeepsNewest | internal/cache/claude_thinking_replay_cache.go:367-382 | A valid append changes nothing because an equal turn is there, or gives a suffix of old + [new] that ends with the new turn. |
| ThinkingReplay.Append | internal/cache/claude_thinking_replay_cache.go:367-382 | The loops compute that append. |
| ThinkingReplay.ClaudeConsistent | internal/cache/claude_thinking_replay_cache.go:367-436 | A published session has at most 64 turns and 8 MiB, no two turns equal under canonical JSON. |
| ThinkingReplay.ClaudeKindIs | internal/cache/claude_thinking_replay_cache.go:367-436 | A turn is valid if it is well formed and has 1 to 8388608 bytes; the bytes counted are the sum of the turns; publishing keeps turns that hold an equal one and otherwise gives the longest suffix of old + [turn] within 64 turns and 8388608 bytes, which ends with the turn. |
| ThinkingReplay.KimiConsistent | internal/cache/kimi_thinking_replay_cache.go:174-211 | The same scheme with one content per key keeps its size limit. |
| ThinkingReplay.KimiKindIs | internal/cache/kimi_thinking_replay_cache.go:349-380 | Publishing holds exactly the new turn, of 1 to 8388608 bytes, and counts its bytes. |
| ThinkingReplay.ThinkingReplayCache.Enforce | internal/cache/claude_thinking_replay_cache.go:438-446 | Whole batches of the oldest go while a limit is exceeded, and no batch more; the byte count stays the exact sum and never has to be reset. |
| ThinkingReplay.NewestBatchDecides | internal/cache/claude_thinking_replay_cache.go:438-471 | Whatever ties in age there are, some choice of the newest (n - 1) % 128 + 1 of n entries decides: the strictly newest one survives if and only if they fit. |
| ThinkingReplay.NewestSurvivesIff | internal/cache/claude_thinking_replay_cache.go:438-471 | Without a tie at the cut that choice is unique; when the newest entry goes, everything goes. |
| ThinkingReplay.PublishLosesItself | internal/cache/claude_thinking_replay_cache.go:354-365 | A map exactly within the limits, and a publish into it after which the map can only be empty. |
| ThinkingReplay.ThinkingReplayCache.Store | internal/cache/claude_thinking_replay_cache.go:71-101 | An unconditional publish leaves what enforcing the limits leaves of the map with the content under a new generation, and is a step. |
| ThinkingReplay.ThinkingReplayCache.Reserve | internal/cache/claude_thinking_replay_cache.go:347-352 | A miss is fenced by a tombstone of a new generation that is in the map afterwards, with what enforcing the limits left of the rest. |
| ThinkingReplay.ThinkingReplayCache.Get | internal/cache/claude_thinking_replay_cache.go:110-162 | Every snapshot shows a write that the map holds; a hit changes only the access time, a miss or an expired entry is fenced. |
| ThinkingReplay.ThinkingReplayCache.ReplaceIfUnchanged | internal/cache/claude_thinking_replay_cache.go:165-213 | Succeeds exactly if the turn is valid and the key still holds the very write of the snapshot, and then publishes the turn appended to it. |
| ThinkingReplay.ReplaceClaude | internal/cache/claude_thinking_replay_cache.go:165-213 | Instantiated for Claude: what the limits are enforced on holds the turns published as above under the key, all other entries as before. |
| ThinkingReplay.ReplaceKimi | internal/cache/kimi_thinking_replay_cache.go:174-211 | Instantiated for Kimi: it holds exactly the new turn. |
| ThinkingReplay.ThinkingReplayCache.DeleteIfUnchanged | internal/cache/claude_thinking_replay_cache.go:216-249 | Deletes only over the write of the snapshot; the entry limit holds afterwards except in the stated case. |
| ThinkingReplay.ThinkingReplayCache.Delete | internal/cache/claude_thinking_replay_cache.go:252-275 | Removes the entry and its bytes, and nothing else. |
| ThinkingReplay.ThinkingReplayCache.Clear | internal/cache/claude_thinking_replay_cache.go:278-283 | An empty map with byte count zero, and a step. |
| ThinkingReplay.ThinkingReplayCache.Purge | internal/cache/claude_thinking_replay_cache.go:473-482 | Keeps exactly the entries that have not expired, with the exact byte count, and is a step. |
| ThinkingReplay.LostForGood | internal/cache/claude_thinking_replay_cache.go:165-249 | Over every run of steps, which all operations are: once a key has lost the write that a get's snapshot saw, the snapshot never matches again, so no replace or delete with it succeeds. |
| ThinkingReplay.HeldUnchanged | internal/cache/claude_thinking_replay_cache.go:165-249 | Over every run of steps: what a snapshot still matches is the very write that it saw, with the same content. |
| ReplayItems.NormalizeTwice | internal/cache/antigravity_reasoning_replay_cache.go:500-517 | What was normalized is found unchanged when it is normalized again. |
| ReplayItems.NormalizeIs | internal/cache/antigravity_reasoning_replay_cache.go:500-517 | Items normalize if and only if at most 4096 come in, some are accepted, and the accepted ones have at most 16777216 bytes; the result is the normal forms of exactly the accepted ones in their order. |
| ReplayItems.NormalChainStays | internal/cache/antigravity_reasoning_replay_cache.go:500-517 | A chain of normal items within these limits normalizes to itself. |
| AntigravityLocal.AntigravityReplayCache.Evict | internal/cache/antigravity_reasoning_replay_cache.go:623-645 | Only the oldest entries go, and the eviction epoch moves when any do. |
| AntigravityLocal.AntigravityReplayCache.Cache | internal/cache/antigravity_reasoning_replay_cache.go:100-142 | The map holds the normalized chain under a new revision and branch, everything else as before, unless it was full: then the oldest batch is gone. |
| AntigravityLocal.AntigravityReplayCache.Reserve | internal/cache/antigravity_reasoning_replay_cache.go:256-275 | A miss is fenced by a tombstone on a new branch; every other key keeps its entry, unless the map was full: then the oldest batch is gone. |
| AntigravityLocal.AntigravityReplayCache.Get | internal/cache/antigravity_reasoning_replay_cache.go:170-251 | The snapshot always shows a recorded write that the map holds; a hit changes only the access time, a miss or an expired entry is fenced as above. |
| AntigravityLocal.AntigravityReplayCache.ReplaceIfUnchanged | internal/cache/antigravity_reasoning_replay_cache.go:279-353 | Succeeds exactly over the very write of the snapshot or over a live entry of its branch that the new chain extends; the map then holds the chain, on that branch or a new one. |
| AntigravityLocal.AntigravityReplayCache.DeleteIfUnchanged | internal/cache/antigravity_reasoning_replay_cache.go:357-385 | Succeeds exactly over the very write of the snapshot; the map then holds a tombstone on a new branch. |
| AntigravityLocal.AntigravityReplayCache.Delete | internal/cache/antigravity_reasoning_replay_cache.go:396-418 | The map holds a tombstone on a new branch; the key is out of reach of every snapshot taken before. |
| AntigravityLocal.AntigravityReplayCache.Clear | internal/cache/antigravity_reasoning_replay_cache.go:478-483 | Every key is out of reach of every snapshot taken before. |
| AntigravityLocal.AntigravityReplayCache.Purge | internal/cache/antigravity_reasoning_replay_cache.go:647-656 | Exactly the expired entries go. |
| AntigravityLocal.StoredChainIsServed | internal/cache/antigravity_reasoning_replay_cache.go:100-251 | A get within the time to live after storing a chain of normal items returns it. |
| AntigravityLocal.PublishOnce | internal/cache/antigravity_reasoning_replay_cache.go:230-353 | A publish with the snapshot of a get just before succeeds, and the key holds the chain. |
| AntigravityLocal.PublishTwice | internal/cache/antigravity_reasoning_replay_cache.go:230-353 | A second publish with the same snapshot succeeds, where the first extended what was shown, exactly if it extends the first; otherwise the first stays. |
| AntigravityLocal.NewBranchCutsOff | internal/cache/antigravity_reasoning_replay_cache.go:333-385 | A write on a new branch is out of reach of all earlier snapshots. |
| AntigravityLocal.ReachableGrewFromSnapshot | internal/cache/antigravity_reasoning_replay_cache.go:333-385 | What a snapshot can still reach is its own write or a live one whose items extend those it showed. |
| AntigravityLocal.UnreachableForGood | internal/cache/antigravity_reasoning_replay_cache.go:230-385 | Over every run of steps, which all operations are: once a key is out of reach of a get's snapshot, no later replace with any chain, and no delete, finds it as that snapshot requires. |
| HomeRegister.Register.CompareAndSwap | internal/home/client.go:1069-1100 | Atomic: without an error it swaps if and only if the value found, after whatever others wrote, is the expected one; every swap is of the value found, and without one the register holds that value. |
| HomeRegister.Register.Get | internal/home/client.go:1014-1027 | Returns the value found at that step, and changes nothing. |
| HomeRegister.Register.Expire | internal/home/client.go:1113-1119 | Changes nothing; may fail. |
| AntigravityHome.FetchOrReserve | internal/cache/antigravity_reasoning_replay_cache.go:183-210 | In at most four attempts; returns the value that the register holds, its own tombstone where there was none; undisturbed it succeeds. |
| AntigravityHome.GetWithSnapshot | internal/cache/antigravity_reasoning_replay_cache.go:170-229 | The snapshot is of a value that the last get saw or the one swap put; items are returned exactly if it shows any and the refresh of the time to live does not fail; if that fails the snapshot is full. |
| AntigravityHome.ReplaceIfUnchanged | internal/cache/antigravity_reasoning_replay_cache.go:279-332 | Whatever happens between its steps, each swap replaces the exact raw value of the snapshot or a live value of its branch that the chain extends; with a current snapshot it succeeds if others at most three times leave such a value and no step fails. |
| AntigravityHome.ChainIsShown | internal/cache/antigravity_reasoning_replay_cache.go:211-229 | A get shows a chain of normal items within the limits whole, marked or not. |
| AntigravityHome.GrownValuePrecedes | internal/cache/antigravity_reasoning_replay_cache.go:305-331 | A chain of normal items left on the snapshot's branch may be replaced by exactly the chains that extend it. |
| AntigravityHome.PublishedChainIsServed | internal/cache/antigravity_reasoning_replay_cache.go:170-332 | Undisturbed, a chain of normal items published with a current snapshot is what the next get returns, on the same branch if it extends what the snapshot showed. |
| AntigravityHome.SwapIsPublish | internal/cache/antigravity_reasoning_replay_cache.go:305-331 | Each such swap is a publish step of the system of all processes. |
| AntigravityHome.GetIsStep | internal/cache/antigravity_reasoning_replay_cache.go:183-210 | Each successful get is a step that takes its snapshot, or reserves and takes it. |
| AntigravityHome.NextKeepsInv | internal/cache/antigravity_reasoning_replay_cache.go:291-475 | Every atomic step of every process keeps the invariant of the register's history. |
| AntigravityHome.HomeBranchesGrow | internal/cache/antigravity_reasoning_replay_cache.go:291-475 | In every interleaving, over any first value that no chain contradicts, items along one branch only grow by appending and a tombstone is only ever a branch's first value. |
| AntigravityHome.GrowthIff | internal/cache/antigravity_reasoning_replay_cache.go:291-475 | It holds in every interleaving over a first value if and only if no chain contradicts that value. |
| AntigravityHome.UncontradictedIff | internal/cache/antigravity_reasoning_replay_cache.go:211-229 | That is: a marked value with a branch exceeds the size limit, or its snapshot shows exactly what it holds. |
| AntigravityHome.ContradictionBreaksGrowth | internal/cache/antigravity_reasoning_replay_cache.go:291-331 | Over any other value a run of two steps breaks it. |
| AntigravityHome.LossyValueBreaksGrowth | internal/cache/antigravity_reasoning_replay_cache.go:211-229 | A marked value with one item that is lost in normalizing. |
| CodexReplay.TrimIsLongest | internal/cache/codex_reasoning_replay_cache.go:212-230 | The result is the longest suffix starting at the input's start or at a marker that fits both limits; nothing only if the last turn alone does not fit. |
| CodexReplay.TrimTwice | internal/cache/codex_reasoning_replay_cache.go:212-230 | Trimming is idempotent. |
| CodexReplay.TrimItems | internal/cache/codex_reasoning_replay_cache.go:212-230 | The re-slicing loop terminates with that result. |
| CodexReplay.AppendAnchors | internal/cache/codex_reasoning_replay_cache.go:190-210 | What an append leaves starts with a marker or is empty. |
| CodexReplay.AppendedTurnSurvives | internal/cache/codex_reasoning_replay_cache.go:190-210 | A fitting new turn survives whole. |
| CodexReplay.AppendFits | internal/cache/codex_reasoning_replay_cache.go:190-230 | What an append leaves fits both limits. |
| CodexReplay.FitsIs | internal/cache/codex_reasoning_replay_cache.go:212-230 | Within the limits means at most 256 turns, the first item and every later marker starting one, and at most 16777216 bytes. |
| CodexReplay.PresentTurnIgnored | internal/cache/codex_reasoning_replay_cache.go:194-205 | A turn of any length whose first item has the turn id of some item of stored items that fit and start with a marker changes nothing. |
| CodexReplay.NewTurnFollows | internal/cache/codex_reasoning_replay_cache.go:194-210 | Otherwise it follows the stored items, if both fit together. |
| CodexReplay.StoredAppendTwice | internal/cache/codex_reasoning_replay_cache.go:190-230 | Over stored items that fit, appending a turn of any length, led by a marker with an id, a second time changes nothing. |
| CodexReplay.AppendTwice | internal/cache/codex_reasoning_replay_cache.go:190-210 | Over any stored items it changes nothing if and only if trimming them did not drop the turn. |
| CodexReplay.OverfullValueAppendsTwice | internal/cache/codex_reasoning_replay_cache.go:190-230 | Items over the limit, of any two markers with different ids, where it does change something. |
| CodexReplay.TrimOfTrim | internal/cache/codex_reasoning_replay_cache.go:212-230 | Trimming before another turn is appended makes no difference in the end. |
| CodexReplay.RunStoresLongestSuffix | internal/cache/codex_reasoning_replay_cache.go:190-230 | A run of appends of different turns stores the longest fitting turn-aligned suffix of everything appended. |
| CodexReplay.AppendTrimsFront | internal/cache/codex_reasoning_replay_cache.go:190-210 | Anchored items lose turns only at the front. |
| CodexReplay.UnmarkedTurnIsLost | internal/cache/codex_reasoning_replay_cache.go:190-210 | A turn without a leading marker is lost to the next append. |
| CodexReplay.AppendHome | internal/cache/codex_reasoning_replay_cache.go:131-171 | Makes one swap at most, and exactly one when it returns true; it replaces the stored items by the append of the turn to them, whatever others do between its steps; it succeeds if they change the register less often than it can try. |
| CodexReplay.GetIsRead | internal/cache/codex_reasoning_replay_cache.go:133-147 | Its get is a step of the system of all processes. |
| CodexReplay.SwapIsTrySwap | internal/cache/codex_reasoning_replay_cache.go:148-168 | So is its swap, and it appends the turn. |
| CodexReplay.AppendsAreSequential | internal/cache/codex_reasoning_replay_cache.go:119-210 | In every run of appends by any processes the stored items are the fold of the successful appends in the order of their swaps. Only the items' bytes are stored; turn ids are read off them. |
| ReleaseFlusher.AckKeepsConsistent | internal/home/concurrency_release.go:205-230 | An acknowledgement keeps waiters in (acked, latest] and channels closed exactly up to acked. |
| ReleaseFlusher.MarkKeepsConsistent | internal/home/concurrency_release.go:77-100 | So does a mark. |
| ReleaseFlusher.AllCovered | internal/home/concurrency_release.go:205-230 | Acknowledging what was latest completes every ticket handed out before. |
| ReleaseFlusher.IdleMeansDone | internal/home/concurrency_release.go:258-267 | Nothing is outstanding if and only if every ticket is completed. |
| ReleaseFlusher.ReleaseFlusher.MarkDirty | internal/home/concurrency_release.go:77-100 | The ticket's channel is open or closed as its sequence demands; other tickets are untouched. |
| ReleaseFlusher.ReleaseFlusher.Close | internal/home/concurrency_release.go:220-228 | No channel is closed twice: the precondition of each close holds. |
| ReleaseFlusher.ReleaseFlusher.Acknowledge | internal/home/concurrency_release.go:205-230 | Acked rises to the sequence sent, exactly the covered waiters are closed and dropped. |
| ReleaseFlusher.ReleaseFlusher.CloseCovered | internal/home/concurrency_release.go:216-228 | The closing loops complete exactly the covered tickets. |
| ReleaseFlusher.ReleaseFlusher.Send | internal/home/concurrency_release.go:206-230 | With marks interleaved between a send and its acknowledgement, only the group sent is acknowledged further, and only if the send succeeds. |
| ReleaseFlusher.ReleaseFlusher.Flush | internal/home/concurrency_release.go:187-233 | Every dirty group is sent once; it fails if and only if some send does; exactly the groups whose send succeeded are acknowledged, up to what was latest; without a failure every earlier ticket is completed. |
| ReleaseFlusher.ReleaseFlusher.Idle | internal/home/concurrency_release.go:258-267 | True if and only if every ticket is completed. |
| BoundedLru.TouchedKeeps | internal/cache/bounded_lru.go:40-45 | A touch changes no entry and moves only the touched one, to the front; no two others change places. |
| BoundedLru.InsertedKeeps | internal/cache/bounded_lru.go:46-60 | An insertion keeps the capacity and evicts at most the last entry, never the new one. |
| BoundedLru.List.PushFront | internal/cache/bounded_lru.go:50-50 | The linked ring gets the element at its front. |
| BoundedLru.List.Remove | internal/cache/bounded_lru.go:57-57 | The ring loses exactly the element. |
| BoundedLru.List.MoveToFront | internal/cache/bounded_lru.go:41-41 | The ring has the element first and the others in their order. |
| BoundedLru.CoherentKeys | internal/cache/bounded_lru.go:17-22 | Map, linked list and recency list hold the same keys. |
| BoundedLru.CoherentEvicted | internal/cache/bounded_lru.go:53-59 | They still do after the last entry goes. |
| BoundedLru.BoundedLRU.constructor | internal/cache/bounded_lru.go:24-34 | An empty cache of capacity at least one. |
| BoundedLru.BoundedLRU.Get | internal/cache/bounded_lru.go:68-77 | Refines lookup with touch on the recency list. |
| BoundedLru.BoundedLRU.GetOrAdd | internal/cache/bounded_lru.go:38-66 | Refines touch or insertion; created values stay the live ones plus those evicted, each passed to the callback once. |
| BoundedLru.BoundedLRU.EvictLast | internal/cache/bounded_lru.go:53-64 | Exactly the least recently used entry leaves map, ring and recency list. |
| BoundedLru.BoundedLRU.Len | internal/cache/bounded_lru.go:79-83 | The size of the recency list. |
| Resp.ArrayBack | internal/api/redis_queue_protocol.go:413-541 | Reading a printed array gives its items back, a nil one as empty, and leaves exactly the following bytes. |
| Resp.ArrayExtends | internal/api/redis_queue_protocol.go:413-485 | What is read does not depend on later bytes. |
| Resp.PrefixFails | internal/api/redis_queue_protocol.go:413-485 | No strict prefix of an encoding is read as an array. |
| RespForms.ReadIff | internal/api/redis_queue_protocol.go:413-485 | A stream is read as an array if and only if it starts with the bytes of one: count and lengths any decimal integers of the right value, lines ended by LF or CR LF, a negative length for nil, simple strings and integers as elements. |
| RespForms.PrintedIsStrict | internal/api/redis_queue_protocol.go:511-541 | The printers write only CR LF, lengths without sign and leading zeros, and -1 for nil. |
| Resp.Reader.ReadLine | internal/api/redis_queue_protocol.go:477-485 | The byte scan finds a line if and only if there is a line feed; the stream was the line, its ending CR LF or LF, and what is left; without one everything is consumed. |
| Resp.Reader.ReadBulkString | internal/api/redis_queue_protocol.go:455-475 | Value, error and remaining stream are those of the specification. |
| Resp.Reader.ReadString | internal/api/redis_queue_protocol.go:440-453 | The same for all string forms. |
| Resp.Reader.ReadArray | internal/api/redis_queue_protocol.go:413-438 | The same for the whole array, with its loop. |
| Resp.Writer.WriteBulkString | internal/api/redis_queue_protocol.go:511-526 | Appends exactly the encoding of the payload. |
| Resp.Writer.WriteArrayOfBulkStrings | internal/api/redis_queue_protocol.go:528-541 | Appends exactly the encoding of the array. |
| Resp.EncodeArray | internal/home/certificate.go:335-348 | The other printer yields the same encoding. |
| Wav.RoundTrip | examples/realtime-openai-go/wav.go:29-142 | Reading what the writer wrote gives the samples back if and only if they are within the reader's limit. |
| Wav.LoopTakesAll | examples/realtime-openai-go/wav.go:39-67 | On well-formed chunks the offset loop takes chunk after chunk. |
| Wav.ForeignChunkIgnored | examples/realtime-openai-go/wav.go:39-67 | Another well-formed chunk, padded if odd, changes nothing wherever it is inserted. |
| WavFiles.ReadIff | examples/realtime-openai-go/wav.go:17-90 | A file of any bytes is read if and only if it has at most 16 MiB and is made of chunks, up to seven bytes or a missing pad byte at the end, whose format chunks have 16 bytes or more, the last being PCM, one channel, 24000 samples a second, 16 bits, and whose data are not empty, even, and at most 15 MiB; what is read are the data chunks one after the other. |
| Wav.ReadPCM16WAV | examples/realtime-openai-go/wav.go:17-90 | The loop terminates and its result, errors included, is that of the specification. |
| Wav.WritePCM16WAV | examples/realtime-openai-go/wav.go:92-147 | The fields appended one by one form the specified file. |
| YamlTree.MatchPrefersIdentity | internal/config/config_yaml.go:579-620 | The first unused element of the same identity is taken; only without one the first structurally equal element. |
| YamlTree.MatchedOnce | internal/config/config_yaml.go:557-620 | Each old element is reused at most once. |
| YamlTree.UnmatchedHadNoChoice | internal/config/config_yaml.go:579-620 | A source element takes nothing only if every old element it resembles went to an earlier one. |
| YamlIdentity.IdentityIs | internal/config/config_yaml.go:622-662 | The identity of an element comes from the first of nine names whose first entry is not blank, and without one from the first entry that is not blank. |
| YamlIdentity.NoIdentity | internal/config/config_yaml.go:622-662 | Without any such entry it has none. |
| YamlIdentity.SameIdentityIff | internal/config/config_yaml.go:583-595 | Elements whose names have no equals sign match if and only if names and trimmed values are equal. |
| YamlIdentity.IdentitiesCollide | internal/config/config_yaml.go:622-643 | With an equals sign in a key, two elements without a common entry match. |
| YamlIdentity.SameScalarIff | internal/config/config_yaml.go:596-607 | Scalar elements match if and only if they are not blank and equal up to the white space around them. |
| YamlIdentity.StructurallyEqualIff | internal/config/config_yaml.go:664-702 | Structural equality is equality up to tags and white space around keys and scalars. |
| YamlMerge.MergeReadsBack | internal/config/config_yaml.go:253-355 | The merged value reads as the source if and only if no blank key of a reused list element is lost with a value that matters. |
| YamlMerge.MergeFaithful | internal/config/config_yaml.go:253-355 | Without blank keys in list elements every destination reads as the source afterwards. |
| YamlMerge.MergeRootsFaithful | internal/config/config_yaml.go:253-287 | The same for whole documents, whatever their roots. |
| YamlLosses.MergeKeepsScalars | internal/config/config_yaml.go:253-426 | Every scalar of the source, reached through mappings and lists at any depth, is at the same place of the result, or is false, 0, 0.0, the empty string, null, or one of five named defaults at its dotted path. |
| YamlLosses.LeftOutBelow | internal/config/config_yaml.go:392-464 | Of a value that is left out, every scalar at any depth is one of these. |
| YamlLosses.NewScalarLeftOutIff | internal/config/config_yaml.go:274-284 | A new scalar is left out if and only if it is one of these and no integer weight. |
| YamlLosses.NewCollectionLeftOutIff | internal/config/config_yaml.go:274-284 | A new collection is left out if and only if all scalars that remain of it are zeros; otherwise what remains of it is written. |
| YamlLosses.PrunedIsWorthWriting | internal/config/config_yaml.go:430-464 | At no depth of what remains is an entry an empty collection, or one of these scalars unless it is a weight. |
| YamlMerge.BlankKeyIsLost | internal/config/config_yaml.go:792-821 | A concrete tree that loses an entry when merged into itself. |
| YamlMerge.PruneReadsBack | internal/config/config_yaml.go:430-464 | A pruned new value reads as the value: only known defaults are left out, at every depth. |
| YamlMerge.PrunedEntry | internal/config/config_yaml.go:435-458 | Pruning drops an entry exactly when its value is a known default or prunes to an empty collection, and otherwise keeps its pruned value. |
| YamlMerge.DroppedIsDefault | internal/config/config_yaml.go:445-454 | Whatever pruning drops is a known default once it is pruned. |
| YamlMerge.SourceKeyMerged | internal/config/config_yaml.go:268-286 | A source key ends with the merged value, the pruned one, or absent as a default, by what the destination had. |
| YamlMerge.OtherKeyKept | internal/config/config_yaml.go:268-286 | A key that the source lacks keeps its value. |
| YamlMerge.DestinationOnlyKept | internal/config/config_yaml.go:253-306 | The same at every depth reached through mappings. |
| YamlMerge.KeysMerged | internal/config/config_yaml.go:268-286 | Old keys keep their order and come first; new ones follow in the source's order. |
| YamlMerge.LookupDropped | internal/config/config_yaml.go:792-821 | In a list element exactly the keys that the source has, up to white space, stay, with their values. |
| YamlMerge.WeightPruned | internal/config/config_yaml.go:430-464 | Pruning keeps a weight, reached through mappings and lists at any depth, if and only if no mapping value between it and the new value is zero. |
| YamlMerge.NewWeightKept | internal/config/config_yaml.go:253-355 | An explicit weight of the source, reached through mappings and lists at any depth, is written if and only if no new entry on its path is zero, the topmost once pruned and those between before, and no blank key of a reused element is on it. |
| YamlMerge.ElementWeightKept | internal/config/config_yaml.go:318-334 | The same inside an element that takes an old one and then loses the keys that the source lacks. |
| YamlMerge.WeightOfElementKept | internal/config/config_yaml.go:318-339 | A weight directly in a list element is always written when the list is merged. |
| YamlMerge.DeepWeightIsLost | internal/config/config_yaml.go:435-458 | A zero weight lost although the new entry is not zero. |
| YamlNode.ReachExists | internal/config/config_yaml.go:512-535 | On every graph a node has a least closed set of nodes: those reachable from it. |
| YamlNode.DeepCopy | internal/config/config_yaml.go:512-535 | Terminates on every graph; the result is a fresh graph isomorphic to exactly the reachable one, sharing and cycles included; nothing that existed changes. |
| YamlNode.Copier.Copy | internal/config/config_yaml.go:516-535 | Every finished node is linked to the copies of its neighbours; the measure is the reachable nodes not yet seen. |
| YamlNode.ClosedKeys | internal/config/config_yaml.go:516-535 | With no copy under way the copied nodes are closed under edges. |
| YamlShape.TreeIsReach | internal/config/config_yaml.go:512-535 | For an alias-free tree the nodes reachable are those of the tree. |
| YamlInPlace.CopyTree | internal/config/config_yaml.go:512-535 | The copy of a tree is a tree of new nodes with the same value. |
| YamlInPlace.CopyShallow | internal/config/config_yaml.go:539-555 | The node stays, its value becomes the source's, all below is new. |
| YamlInPlace.PruneDefaults | internal/config/config_yaml.go:430-464 | In place: the tree comes to stand for the pruned value, without new nodes. |
| YamlInPlace.FindMapKeyIndex | internal/config/config_yaml.go:359-369 | The position of the first key node with the name, -1 if there is none. |
| YamlInPlace.MergeOneEntry | internal/config/config_yaml.go:269-285 | One round of the loop changes the mapping as the specification of one entry says and touches no other entry. |
| YamlInPlace.MergeMapping | internal/config/config_yaml.go:268-286 | The loop computes the merge of the entries on the old key and value nodes. |
| YamlInPlace.ReorderSequence | internal/config/config_yaml.go:557-620 | Each place gets the old node that its source element takes, or null. |
| YamlInPlace.PruneMissingKeys | internal/config/config_yaml.go:792-821 | The removing loop leaves exactly the entries whose trimmed key the source has. |
| YamlInPlace.MergeItems | internal/config/config_yaml.go:318-342 | The elements become the merged ones; a reused element stays the same node. |
| YamlInPlace.MergeSequence | internal/config/config_yaml.go:307-342 | The sequence case computes the merge on values, null kept for an empty list. |
| YamlInPlace.MergeNode | internal/config/config_yaml.go:292-355 | In place: the destination comes to stand for the merged value; keys and values of mappings stay the same nodes at every depth; no old node's comments or style change. |
| YamlInPlace.MergeMappingPreserve | internal/config/config_yaml.go:253-287 | The same for whole documents; the result reads as the source under the condition above, and has all its scalars but those that may be omitted. |

## Left out

- Network, TLS, Redis client, file access and goroutine scheduling: RESP and WAV are read and written as byte strings, and
  `Run`, `Flush`, `nextDelay` and the timers of the flusher are not modelled.
- Home mode of the Claude and Kimi caches, and the local map of the Codex cache, which repeat the schemes above without the
  parts that are hard; expiry times in the register; the xAI and signature caches.
- JSON normalization of single replay items: an item is bytes with an abstract normal form, type and id.
- Cache keys: model and session names are joined and hashed before the modelled operations; blank ones return early.
- Counters of 64 bits do not wrap.
- Error values of the connection: a failed header write and a failed body write carry the same error in the source; the
  model names them apart.
- RESP lengths so large that the buffer size overflows, where the source fails to allocate.
- WAV files whose last odd chunk lacks its pad byte: the insertion theorem is for padded chunks.
- YAML: text parsing and encoding, aliases inside the trees that are merged (the copy handles them), nodes of document or
  unknown kind, null children before the merge, tags of collections. Letters outside A to Z are not lowered in identities.
- YamlInPlace.MergeItems: states which old node each place gets, not what stays below it, because keys that the source lacks
  are removed there.
- YamlInPlace.PruneDefaults: zero tests and matching read the tree into a value first, where the source walks the nodes.
- Model-specific pruning after the merge (internal/config/config_yaml.go:716-790) and the normalization of node styles.
