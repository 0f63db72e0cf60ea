/** The in-process thinking-replay caches of Claude (many assistant turns per session) and Kimi (one): a map with an
    exact byte count, fenced by generations. The two differ in what an entry holds and in what publishing does to it. */
module ThinkingReplay {
  import opened Wrappers
  import opened Bytes
  import opened Eviction

  const MAX_SESSION_BYTES: nat := 8 * 0x10_0000
  const MAX_SESSION_TURNS: nat := 64
  const MAX_TOTAL_BYTES: nat := 256 * 0x10_0000

  // ---- Assistant turns of one session (Claude) ----

  function TurnBytes(turns: seq<bytes>): nat {
    if turns == [] then 0 else |turns[0]| + TurnBytes(turns[1..])
  }

  predicate FitsSession(turns: seq<bytes>) {
    |turns| <= MAX_SESSION_TURNS && TurnBytes(turns) <= MAX_SESSION_BYTES
  }

  /** Equal under canonical JSON; `canonical` gives the canonical form of valid JSON. */
  predicate JsonEqual(canonical: bytes -> Option<bytes>, a: bytes, b: bytes) {
    canonical(a).Some? && canonical(a) == canonical(b)
  }

  predicate HasTurn(canonical: bytes -> Option<bytes>, turns: seq<bytes>, turn: bytes) {
    exists i :: 0 <= i < |turns| && JsonEqual(canonical, turns[i], turn)
  }

  predicate DistinctTurns(canonical: bytes -> Option<bytes>, turns: seq<bytes>) {
    forall i, j :: 0 <= i < j < |turns| ==> !JsonEqual(canonical, turns[i], turns[j])
  }

  /** Drops turns from the front until the rest fits. */
  function DropToFit(turns: seq<bytes>): seq<bytes> {
    if turns == [] || FitsSession(turns) then turns else DropToFit(turns[1..])
  }

  /** appendClaudeThinkingReplayContent. */
  function AppendTurn(canonical: bytes -> Option<bytes>, turns: seq<bytes>, turn: bytes): seq<bytes> {
    if HasTurn(canonical, turns, turn) then turns else DropToFit(turns + [turn])
  }

  /** r is the longest fitting suffix of the turns, and starts at k. */
  ghost predicate LongestFit(turns: seq<bytes>, r: seq<bytes>, k: nat) {
    k <= |turns| && r == turns[k..] && FitsSession(r) && forall j :: 0 <= j < k ==> !FitsSession(turns[j..])
  }

  /** The rest is the longest fitting suffix. */
  lemma {:induction false} DropToFitIsLongest(turns: seq<bytes>)
    ensures exists k :: LongestFit(turns, DropToFit(turns), k)
  {
    hide FitsSession;
    if turns == [] || FitsSession(turns) {
      if turns == [] {
        NoTurnsFit();
      }
      assert turns[0..] == turns;
      assert LongestFit(turns, DropToFit(turns), 0);
    } else {
      DropToFitIsLongest(turns[1..]);
      var k :| LongestFit(turns[1..], DropToFit(turns[1..]), k);
      LongestFitOn(turns, DropToFit(turns), k);
    }
  }

  lemma NoTurnsFit()
    ensures FitsSession([])
  {}

  lemma LongestFitOn(turns: seq<bytes>, r: seq<bytes>, k: nat)
    requires turns != [] && !FitsSession(turns) && LongestFit(turns[1..], r, k)
    ensures LongestFit(turns, r, k + 1)
  {
    hide FitsSession;
    assert turns[1..][k..] == turns[k + 1..];
    forall j | 0 <= j < k + 1 ensures !FitsSession(turns[j..]) {
      if j == 0 {
        assert turns[0..] == turns;
      } else {
        assert turns[1..][j - 1..] == turns[j..];
      }
    }
  }

  /** A valid turn is no longer than the session limit, so appending it either leaves the turns as they are, an
      equal turn being there, or gives the longest fitting suffix of the turns and the new one, which it ends with. */
  lemma AppendTurnKeepsNewest(canonical: bytes -> Option<bytes>, turns: seq<bytes>, turn: bytes)
    requires |turn| <= MAX_SESSION_BYTES
    requires FitsSession(turns) && DistinctTurns(canonical, turns)
    ensures var r := AppendTurn(canonical, turns, turn);
            FitsSession(r) && DistinctTurns(canonical, r)
    ensures var r := AppendTurn(canonical, turns, turn);
            if HasTurn(canonical, turns, turn) then r == turns
            else exists k :: 0 <= k <= |turns| && r == turns[k..] + [turn]
                          && forall j :: 0 <= j < k ==> !FitsSession(turns[j..] + [turn])
  {
    hide FitsSession, DropToFit, JsonEqual, LongestFit, DistinctTurns, HasTurn;
    if !HasTurn(canonical, turns, turn) {
      var all := turns + [turn];
      DropToFitIsLongest(all);
      var k :| LongestFit(all, DropToFit(all), k);
      OneTurnFits(turn);
      NewestIn(turns, turn, DropToFit(all), k);
      DistinctSuffix(canonical, turns, turn, k);
    }
  }

  lemma NewestIn(turns: seq<bytes>, turn: bytes, r: seq<bytes>, k: nat)
    requires LongestFit(turns + [turn], r, k) && FitsSession([turn])
    ensures FitsSession(r) && k <= |turns| && r == turns[k..] + [turn]
    ensures forall j :: 0 <= j < k ==> !FitsSession(turns[j..] + [turn])
  {
    hide FitsSession;
    var all := turns + [turn];
    assert all[|turns|..] == [turn];
    assert forall j :: 0 <= j <= |turns| ==> all[j..] == turns[j..] + [turn];
  }

  lemma OneTurnFits(turn: bytes)
    requires |turn| <= MAX_SESSION_BYTES
    ensures FitsSession([turn])
  {
    assert [turn][1..] == [];
  }

  lemma DistinctSuffix(canonical: bytes -> Option<bytes>, turns: seq<bytes>, turn: bytes, k: nat)
    requires DistinctTurns(canonical, turns) && !HasTurn(canonical, turns, turn) && k <= |turns|
    ensures DistinctTurns(canonical, turns[k..] + [turn])
  {
    hide JsonEqual;
    var kept := turns[k..] + [turn];
    forall i, j | 0 <= i < j < |kept| ensures !JsonEqual(canonical, kept[i], kept[j]) {
      assert kept[i] == turns[i + k];
      assert kept[j] == if j + k < |turns| then turns[j + k] else turn;
    }
  }

  /** The loops of appendClaudeThinkingReplayContent. */
  method Append(canonical: bytes -> Option<bytes>, turns: seq<bytes>, turn: bytes) returns (r: seq<bytes>)
    ensures r == AppendTurn(canonical, turns, turn)
  {
    for i := 0 to |turns|
      invariant forall j :: 0 <= j < i ==> !JsonEqual(canonical, turns[j], turn)
    {
      if JsonEqual(canonical, turns[i], turn) {
        return turns;
      }
    }
    r := turns + [turn];
    while |r| > MAX_SESSION_TURNS || TurnBytes(r) > MAX_SESSION_BYTES
      invariant DropToFit(r) == DropToFit(turns + [turn])
      decreases |r|
    {
      if r == [] {
        break;
      }
      r := r[1..];
    }
  }

  // ---- Entries and snapshots ----

  /** `content` is the empty content in a tombstone. Generations are the identifiers handed out by the UUID source,
      numbered in the order they were handed out. */
  datatype Entry<C> = Entry(content: C, timestamp: int, generation: nat, deleted: bool)

  /** The fields of a snapshot that the in-process caches read. */
  datatype Snapshot = Snapshot(generation: nat, loaded: bool, found: bool)

  /** What tells the two caches apart: the content of a tombstone, the bytes counted for a content, the content that a
      published turn makes of the stored one, which turns are valid, and which contents may be stored. */
  datatype Kind<!C(!new)> = Kind(empty: C, size: C -> nat, publish: (C, bytes) -> C, valid: bytes -> bool, sound: C -> bool)
  {
    ghost predicate Consistent() {
      && sound(empty) && size(empty) == 0
      && forall c, turn :: sound(c) && valid(turn) ==> sound(publish(c, turn))
    }
  }

  function StampOf<C>(): Entry<C> -> int {
    (e: Entry<C>) => e.timestamp
  }

  function BytesOf<C(!new)>(kind: Kind<C>): Entry<C> -> nat {
    (e: Entry<C>) => kind.size(e.content)
  }

  /** Two entries hold the same write; only the time of the last access may differ. */
  ghost predicate SameWrite<C>(a: Entry<C>, b: Entry<C>) {
    a.generation == b.generation && a.content == b.content && a.deleted == b.deleted
  }

  /** The fence: an entry found after some operations either holds a write made since, with a generation not handed out
      before, or the very write that its key held before. So a write that was deleted, evicted or overwritten never
      comes back. */
  ghost predicate Fenced<K, C>(before: map<K, Entry<C>>, issued: nat, after: map<K, Entry<C>>) {
    forall k :: k in after && after[k].generation < issued ==> k in before && SameWrite(before[k], after[k])
  }

  /** A moment of a run: the map, and how many generations were handed out. */
  datatype Moment<K, C> = Moment(entries: map<K, Entry<C>>, issued: nat)

  /** What every operation of the cache does from one moment to the next. */
  ghost predicate Step<K, C>(m: Moment<K, C>, n: Moment<K, C>) {
    m.issued <= n.issued && Fenced(m.entries, m.issued, n.entries)
  }

  /** Does the map still hold what the snapshot saw? */
  predicate MatchesAt<K, C>(entries: map<K, Entry<C>>, key: K, snapshot: Snapshot) {
    (key in entries) == snapshot.found && (key in entries ==> entries[key].generation == snapshot.generation)
  }

  lemma FencedSelf<K, C>(entries: map<K, Entry<C>>, issued: nat)
    ensures Fenced(entries, issued, entries)
  {}

  lemma FencedFewer<K, C>(before: map<K, Entry<C>>, issued: nat, after: map<K, Entry<C>>, fewer: map<K, Entry<C>>)
    requires Fenced(before, issued, after)
    requires fewer.Keys <= after.Keys && forall k :: k in fewer ==> fewer[k] == after[k]
    ensures Fenced(before, issued, fewer)
  {}

  lemma FencedSet<K, C>(before: map<K, Entry<C>>, issued: nat, after: map<K, Entry<C>>, key: K, entry: Entry<C>)
    requires Fenced(before, issued, after)
    requires entry.generation >= issued || (key in after && SameWrite(after[key], entry))
    ensures Fenced(before, issued, after[key := entry])
  {}

  lemma FencedTransitive<K, C>(a: map<K, Entry<C>>, issuedA: nat, b: map<K, Entry<C>>, issuedB: nat, c: map<K, Entry<C>>)
    requires issuedA <= issuedB && Fenced(a, issuedA, b) && Fenced(b, issuedB, c)
    ensures Fenced(a, issuedA, c)
  {}

  ghost predicate Fits<K, C(!new)>(kind: Kind<C>, entries: map<K, Entry<C>>) {
    |entries| <= MAX_ENTRIES && Total(entries, BytesOf(kind)) <= MAX_TOTAL_BYTES
  }

  /** What is left of `wanted` after whole batches of the oldest entries are gone. */
  ghost predicate BatchesGone<K, C>(wanted: map<K, Entry<C>>, left: map<K, Entry<C>>) {
    OldestRemoved(wanted, left, StampOf()) && |left| <= |wanted| && (|wanted| - |left|) % EVICT_BATCH == 0
  }

  /** The last batch: it was still needed. */
  ghost predicate LastBatch<K, C(!new)>(kind: Kind<C>, wanted: map<K, Entry<C>>, last: map<K, Entry<C>>, after: map<K, Entry<C>>) {
    && BatchesGone(wanted, last) && !Fits(kind, last)
    && OldestRemoved(last, after, StampOf()) && |after| == if |last| < EVICT_BATCH then 0 else |last| - EVICT_BATCH
  }

  /** What enforcing the limits leaves of `wanted`: all of it within the limits; otherwise batches of the oldest go, the last
      one possibly short, until the rest is within them, and no longer. */
  ghost predicate Enforced<K(!new), C(!new)>(kind: Kind<C>, wanted: map<K, Entry<C>>, after: map<K, Entry<C>>) {
    && OldestRemoved(wanted, after, StampOf()) && Fits(kind, after)
    && if Fits(kind, wanted) then after == wanted else exists last :: LastBatch(kind, wanted, last, after)
  }

  /** The map after a miss was fenced: the tombstone, and what enforcing the limits left of the rest. */
  ghost predicate Reserved<K(!new), C(!new)>(kind: Kind<C>, before: map<K, Entry<C>>, key: K, tombstone: Entry<C>, after: map<K, Entry<C>>) {
    exists left :: ReservedIn(kind, before, key, tombstone, left, after)
  }

  ghost predicate ReservedIn<K(!new), C(!new)>(kind: Kind<C>, before: map<K, Entry<C>>, key: K, tombstone: Entry<C>, left: map<K, Entry<C>>, after: map<K, Entry<C>>) {
    Enforced(kind, before[key := tombstone], left) && after == left[key := tombstone]
  }

  lemma NoBatchGone<K, C>(wanted: map<K, Entry<C>>)
    ensures BatchesGone(wanted, wanted)
  {
    NothingRemoved(wanted, StampOf<C>());
  }

  /** A batch that leaves something was a whole one. */
  lemma FullBatch<K, C(!new)>(kind: Kind<C>, wanted: map<K, Entry<C>>, last: map<K, Entry<C>>, after: map<K, Entry<C>>)
    requires LastBatch(kind, wanted, last, after) && |after| > 0
    ensures BatchesGone(wanted, after)
  {
    OldestRemovedAgain(wanted, last, after, StampOf());
  }

  lemma IsLastBatch<K, C(!new)>(kind: Kind<C>, wanted: map<K, Entry<C>>, last: map<K, Entry<C>>, after: map<K, Entry<C>>)
    requires BatchesGone(wanted, last) && !Fits(kind, last) && OldestRemoved(last, after, StampOf())
    requires |after| == |last| - if EVICT_BATCH < |last| then EVICT_BATCH else |last|
    ensures LastBatch(kind, wanted, last, after)
  {}

  /** Every entry is sound and carries a generation of its own; tombstones are empty. */
  ghost predicate Sound<K, C(!new)>(kind: Kind<C>, entries: map<K, Entry<C>>, issued: nat) {
    && (forall k :: k in entries ==> kind.sound(entries[k].content) && entries[k].generation < issued)
    && (forall k :: k in entries && entries[k].deleted ==> entries[k].content == kind.empty)
    && (forall j, k :: j in entries && k in entries && j != k ==> entries[j].generation != entries[k].generation)
  }

  lemma SoundSubset<K, C(!new)>(kind: Kind<C>, entries: map<K, Entry<C>>, fewer: map<K, Entry<C>>, issued: nat)
    requires Sound(kind, entries, issued)
    requires fewer.Keys <= entries.Keys && forall k :: k in fewer ==> fewer[k] == entries[k]
    ensures Sound(kind, fewer, issued)
  {}

  lemma SoundTouch<K, C(!new)>(kind: Kind<C>, entries: map<K, Entry<C>>, key: K, now: int, issued: nat)
    requires Sound(kind, entries, issued) && key in entries
    ensures Sound(kind, entries[key := entries[key].(timestamp := now)], issued)
  {}

  lemma SoundSet<K, C(!new)>(kind: Kind<C>, entries: map<K, Entry<C>>, key: K, entry: Entry<C>, issued: nat)
    requires Sound(kind, entries, issued)
    requires kind.sound(entry.content) && (entry.deleted ==> entry.content == kind.empty)
    requires entry.generation == issued
    ensures Sound(kind, entries[key := entry], issued + 1)
  {}

  class ThinkingReplayCache<K(!new, ==), C(!new)> {
    const kind: Kind<C>
    var entries: map<K, Entry<C>>
    var totalBytes: int
    var issued: nat

    /** The byte count is exact. */
    ghost predicate Counted()
      reads this
    {
      kind.Consistent() && totalBytes == Total(entries, BytesOf(kind)) && Sound(kind, entries, issued)
    }

    predicate WithinLimits()
      reads this
    {
      |entries| <= MAX_ENTRIES && totalBytes <= MAX_TOTAL_BYTES
    }

    ghost predicate Valid()
      reads this
    {
      Counted() && WithinLimits()
    }

    ghost function Now(): Moment<K, C>
      reads this
    {
      Moment(entries, issued)
    }

    constructor (kind: Kind<C>)
      requires kind.Consistent()
      ensures Valid() && entries == map[] && this.kind == kind
    {
      this.kind := kind;
      entries, totalBytes, issued := map[], 0, 0;
    }

    /** enforce...LimitsLocked. */
    method Enforce()
      requires Counted()
      modifies this`entries, this`totalBytes
      ensures Valid() && Enforced(kind, old(entries), entries)
    {
      hide OldestRemoved, Sound, LastBatch, BatchesGone;
      ghost var wanted, last := entries, entries;
      NothingRemoved(entries, StampOf<C>());
      NoBatchGone(wanted);
      while !WithinLimits()
        invariant Counted() && OldestRemoved(wanted, entries, StampOf())
        invariant entries == wanted || (!Fits(kind, wanted) && LastBatch(kind, wanted, last, entries))
        decreases |entries|
      {
        if |entries| == 0 {
          // The source resets the byte count here; the count of an empty map is 0 already.
          assert false;
        }
        if entries != wanted {
          FullBatch(kind, wanted, last, entries);
        }
        last := entries;
        EvictBatch(wanted);
      }
    }

    /** One batch of evictOldest...EntriesLocked. */
    method EvictBatch(ghost wanted: map<K, Entry<C>>)
      requires Counted() && !WithinLimits() && |entries| > 0 && BatchesGone(wanted, entries)
      modifies this`entries, this`totalBytes
      ensures Counted() && |entries| < old(|entries|)
      ensures LastBatch(kind, wanted, old(entries), entries) && OldestRemoved(wanted, entries, StampOf())
    {
      hide OldestRemoved, Sound, LastBatch;
      var kept, _, freed := EvictOldest(entries, StampOf(), BytesOf(kind), EVICT_BATCH);
      RemovedIsFewer(entries, kept, StampOf());
      SoundSubset(kind, entries, kept, issued);
      OldestRemovedAgain(wanted, entries, kept, StampOf());
      IsLastBatch(kind, wanted, entries, kept);
      entries, totalBytes := kept, totalBytes - freed;
    }

    /** Installs a write under a new generation. */
    method Install(key: K, content: C, deleted: bool, now: int)
      requires Counted() && kind.sound(content) && (deleted ==> content == kind.empty)
      modifies this`entries, this`totalBytes, this`issued
      ensures Counted() && issued == old(issued) + 1
      ensures entries == old(entries)[key := Entry(content, now, old(issued), deleted)]
      ensures totalBytes <= old(totalBytes) + kind.size(content)
    {
      hide Sound;
      SoundSet(kind, entries, key, Entry(content, now, issued, deleted), issued);
      var previous := if key in entries then kind.size(entries[key].content) else 0;
      TotalSet(entries, BytesOf(kind), key, Entry(content, now, issued, deleted));
      totalBytes := totalBytes - previous + kind.size(content);
      entries := entries[key := Entry(content, now, issued, deleted)];
      issued := issued + 1;
    }

    /** Drops an entry. */
    method Remove(key: K)
      requires Counted() && key in entries
      modifies this`entries, this`totalBytes
      ensures Counted() && entries == old(entries) - {key} && totalBytes <= old(totalBytes)
    {
      hide Sound;
      SoundSubset(kind, entries, entries - {key}, issued);
      TotalRemove(entries, BytesOf(kind), key);
      totalBytes := totalBytes - kind.size(entries[key].content);
      entries := entries - {key};
    }

    /** Installs a published content and enforces the limits. */
    method Publish(key: K, content: C, now: int)
      requires Valid() && kind.sound(content)
      modifies this`entries, this`totalBytes, this`issued
      ensures Valid() && issued == old(issued) + 1
      ensures Step(old(Now()), Now())
      ensures Enforced(kind, old(entries)[key := Entry(content, now, old(issued), false)], entries)
    {
      hide Sound, Fenced, OldestRemoved;
      FencedSelf(entries, issued);
      FencedSet(entries, issued, entries, key, Entry(content, now, issued, false));
      Install(key, content, false, now);
      ghost var wanted := entries;
      Enforce();
      RemovedIsFewer(wanted, entries, StampOf());
      FencedFewer(old(entries), old(issued), wanted, entries);
    }

    /** Cache...BestEffort. */
    method Store(key: K, turn: bytes, now: int) returns (ok: bool)
      requires Valid()
      modifies this`entries, this`totalBytes, this`issued
      ensures Valid() && ok == kind.valid(turn)
      ensures Step(old(Now()), Now())
      ensures !ok ==> entries == old(entries)
      ensures ok ==> Enforced(kind, old(entries)[key := Entry(kind.publish(kind.empty, turn), now, old(issued), false)], entries)
    {
      hide Sound, Fenced, OldestRemoved;
      ok := kind.valid(turn);
      FencedSelf(entries, issued);
      if ok {
        Publish(key, kind.publish(kind.empty, turn), now);
      }
    }

    /** Puts back a tombstone that belongs to a larger sound map. */
    method Put(key: K, entry: Entry<C>, ghost whole: map<K, Entry<C>>)
      requires Counted() && Sound(kind, whole, issued) && key in whole && whole[key] == entry && entry.content == kind.empty
      requires entries.Keys <= whole.Keys && forall k :: k in entries ==> entries[k] == whole[k]
      modifies this`entries
      ensures Counted() && entries == old(entries)[key := entry]
    {
      hide Sound;
      SoundSubset(kind, whole, entries[key := entry], issued);
      TotalSet(entries, BytesOf(kind), key, entry);
      entries := entries[key := entry];
    }

    /** Fences a miss with a tombstone, which goes back into the map if enforcing the limits evicted it. */
    method Reserve(key: K, now: int)
      requires Valid() && key !in entries
      modifies this`entries, this`totalBytes, this`issued
      ensures Valid() && issued == old(issued) + 1
      ensures key in entries && entries[key] == Entry(kind.empty, now, old(issued), true)
      ensures Reserved(kind, old(entries), key, Entry(kind.empty, now, old(issued), true), entries)
      ensures Step(old(Now()), Now())
    {
      hide Sound, Fenced, OldestRemoved;
      var entry := Entry(kind.empty, now, issued, true);
      FencedSelf(entries, issued);
      FencedSet(entries, issued, entries, key, entry);
      SizeSet(entries, key, entry);
      Install(key, kind.empty, true, now);
      ghost var reserved := entries;
      Enforce();
      RemovedIsFewer(reserved, entries, StampOf());
      if key !in entries {
        SizeSet(entries, key, entry);
      }
      assert ReservedIn(kind, old(entries), key, entry, entries, entries[key := entry]);
      Put(key, entry, reserved);
      FencedFewer(old(entries), old(issued), reserved, entries);
    }

    /** Sets the time of the last access. */
    method Touch(key: K, now: int, ghost before: map<K, Entry<C>>, ghost issuedBefore: nat) returns (entry: Entry<C>)
      requires Valid() && key in entries && Fenced(before, issuedBefore, entries)
      modifies this`entries
      ensures Valid() && Fenced(before, issuedBefore, entries)
      ensures entry == old(entries)[key].(timestamp := now) && entries == old(entries)[key := entry]
    {
      hide Sound, Fenced;
      entry := entries[key].(timestamp := now);
      TotalSet(entries, BytesOf(kind), key, entry);
      SizeSet(entries, key, entry);
      SoundTouch(kind, entries, key, now, issued);
      FencedSet(before, issuedBefore, entries, key, entry);
      entries := entries[key := entry];
    }

    /** A key that is absent or has expired is fenced. */
    method Miss(key: K, now: int)
      requires Valid()
      modifies this`entries, this`totalBytes, this`issued
      ensures Valid() && issued == old(issued) + 1
      ensures key in entries && entries[key] == Entry(kind.empty, now, old(issued), true)
      ensures Reserved(kind, old(entries) - {key}, key, Entry(kind.empty, now, old(issued), true), entries)
      ensures Step(old(Now()), Now())
    {
      hide Sound, Fenced, OldestRemoved, Enforced, Reserved;
      FencedSelf(entries, issued);
      if key in entries {
        SizeRemove(entries, key);
        FencedFewer(entries, issued, entries, entries - {key});
        Remove(key);
      }
      ghost var without := entries;
      assert without == old(entries) - {key};
      Reserve(key, now);
      FencedTransitive(old(entries), old(issued), without, old(issued), entries);
    }

    /** Get...WithSnapshotRequired: a miss is fenced by a tombstone of its own, which stays in the map even if enforcing
        the limits evicted it. */
    method Get(key: K, now: int) returns (content: C, snapshot: Snapshot, found: bool)
      requires Valid()
      modifies this`entries, this`totalBytes, this`issued
      ensures Valid()
      ensures Step(old(Now()), Now())
      ensures snapshot.loaded && snapshot.found && key in entries && entries[key].timestamp == now
      ensures snapshot.generation == entries[key].generation && content == entries[key].content
      ensures Matches(key, snapshot) && found == !entries[key].deleted
      ensures if key in old(entries) && now - old(entries)[key].timestamp <= TTL
              then entries == old(entries)[key := old(entries)[key].(timestamp := now)]
              else snapshot.generation == old(issued) && !found
                   && Reserved(kind, old(entries) - {key}, key, Entry(kind.empty, now, old(issued), true), entries)
    {
      hide Sound, Fenced, OldestRemoved, Enforced, Reserved;
      FencedSelf(entries, issued);
      if key !in entries || now - entries[key].timestamp > TTL {
        Miss(key, now);
      }
      ghost var shown := entries;
      var entry := Touch(key, now, old(entries), old(issued));
      assert shown[key].timestamp == now ==> entries == shown;
      content, found := entry.content, !entry.deleted;
      snapshot := Snapshot(entry.generation, true, true);
    }

    predicate Matches(key: K, snapshot: Snapshot)
      reads this
    {
      MatchesAt(entries, key, snapshot)
    }

    /** Replace...IfUnchanged: publishes a turn only over the very write that the snapshot saw. */
    method ReplaceIfUnchanged(key: K, snapshot: Snapshot, turn: bytes, now: int) returns (ok: bool)
      requires Valid()
      modifies this`entries, this`totalBytes, this`issued
      ensures Valid()
      ensures Step(old(Now()), Now())
      ensures ok == (kind.valid(turn) && (snapshot.loaded ==> old(Matches(key, snapshot))))
      ensures !ok ==> entries == old(entries)
      ensures ok && snapshot.loaded ==>
        var stored := if key in old(entries) then old(entries)[key].content else kind.empty;
        Enforced(kind, old(entries)[key := Entry(kind.publish(stored, turn), now, old(issued), false)], entries)
      ensures ok && !snapshot.loaded ==>
        Enforced(kind, old(entries)[key := Entry(kind.publish(kind.empty, turn), now, old(issued), false)], entries)
    {
      hide Fenced, OldestRemoved;
      FencedSelf(entries, issued);
      if !kind.valid(turn) {
        return false;
      }
      if !snapshot.loaded {
        ok := Store(key, turn, now);
        return;
      }
      if !Matches(key, snapshot) {
        return false;
      }
      var stored := if key in entries then entries[key].content else kind.empty;
      Publish(key, kind.publish(stored, turn), now);
      ok := true;
    }

    /** Delete...IfUnchanged. The limits are not enforced here; they hold afterwards unless the snapshot claims that the
        key was absent, it is, and the map is full. No snapshot taken by Get does. */
    method DeleteIfUnchanged(key: K, snapshot: Snapshot, now: int) returns (ok: bool)
      requires Valid()
      modifies this`entries, this`totalBytes, this`issued
      ensures Counted()
      ensures Step(old(Now()), Now())
      ensures ok == (snapshot.loaded ==> old(Matches(key, snapshot)))
      ensures !ok ==> entries == old(entries)
      ensures ok && snapshot.loaded ==> entries == old(entries)[key := Entry(kind.empty, now, old(issued), true)]
      ensures ok && !snapshot.loaded ==> entries == old(entries) - {key}
      ensures Valid() <==> !(snapshot.loaded && !snapshot.found && key !in old(entries) && old(|entries|) == MAX_ENTRIES)
    {
      hide Sound, Fenced;
      FencedSelf(entries, issued);
      FencedFewer(entries, issued, entries, entries - {key});
      if !snapshot.loaded {
        Delete(key);
        return true;
      }
      if !Matches(key, snapshot) {
        return false;
      }
      SizeSet(entries, key, Entry(kind.empty, now, issued, true));
      FencedSet(entries, issued, entries, key, Entry(kind.empty, now, issued, true));
      Install(key, kind.empty, true, now);
      ok := true;
    }

    /** Delete...Required. */
    method Delete(key: K)
      requires Valid()
      modifies this`entries, this`totalBytes
      ensures Valid() && Step(old(Now()), Now()) && entries == old(entries) - {key}
    {
      hide Sound, Fenced;
      FencedSelf(entries, issued);
      FencedFewer(entries, issued, entries, entries - {key});
      if key in entries {
        SizeRemove(entries, key);
        Remove(key);
      } else {
        assert entries - {key} == entries;
      }
    }

    method Clear()
      requires Valid()
      modifies this`entries, this`totalBytes
      ensures Valid() && Step(old(Now()), Now()) && entries == map[]
    {
      entries, totalBytes := map[], 0;
    }

    /** purgeExpired...Cache. */
    method Purge(now: int)
      requires Valid()
      modifies this`entries, this`totalBytes
      ensures Valid() && Step(old(Now()), Now())
      ensures entries == NotBefore(old(entries), StampOf(), now - TTL)
    {
      hide Sound, Unexpired, NotBefore, Fenced;
      FencedSelf(entries, issued);
      var pending := entries.Keys;
      ghost var before := entries;
      UnexpiredStart(before, StampOf(), now - TTL);
      while pending != {}
        invariant Valid() && pending <= entries.Keys && Fenced(before, issued, entries)
        invariant Unexpired(before, entries, pending, StampOf(), now - TTL)
        decreases |pending|
      {
        var key :| key in pending;
        UnexpiredNext(before, entries, pending, StampOf(), now - TTL, key);
        if now - entries[key].timestamp > TTL {
          SizeRemove(entries, key);
          FencedFewer(before, issued, entries, entries - {key});
          Remove(key);
        }
        pending := pending - {key};
      }
      UnexpiredDone(before, entries, StampOf(), now - TTL);
    }
  }

  // ---- The two caches ----

  function TurnsValid(wellFormed: bytes -> bool): bytes -> bool {
    turn => 0 < |turn| <= MAX_SESSION_BYTES && wellFormed(turn)
  }

  /** Claude: the turns of a session, oldest first. `wellFormed` stands for the JSON checks on a turn. */
  function ClaudeKind(canonical: bytes -> Option<bytes>, wellFormed: bytes -> bool): Kind<seq<bytes>> {
    Kind([], TurnBytes, (turns, turn) => AppendTurn(canonical, turns, turn), TurnsValid(wellFormed),
         turns => FitsSession(turns) && DistinctTurns(canonical, turns))
  }

  /** Every stored session keeps within 64 turns and 8 MiB, no two turns equal, since publishing keeps it so. */
  lemma ClaudeConsistent(canonical: bytes -> Option<bytes>, wellFormed: bytes -> bool)
    ensures ClaudeKind(canonical, wellFormed).Consistent()
  {
    var kind := ClaudeKind(canonical, wellFormed);
    forall turns, turn | kind.sound(turns) && kind.valid(turn) ensures kind.sound(kind.publish(turns, turn)) {
      AppendTurnKeepsNewest(canonical, turns, turn);
    }
  }

  /** Kimi: one turn. */
  function KimiKind(wellFormed: bytes -> bool): Kind<bytes> {
    Kind([], (content: bytes) => |content|, (stored: bytes, turn: bytes) => turn, TurnsValid(wellFormed),
         (content: bytes) => |content| <= MAX_SESSION_BYTES)
  }

  lemma KimiConsistent(wellFormed: bytes -> bool)
    ensures KimiKind(wellFormed).Consistent()
  {}

  // ---- What publishing stores ----

  ghost predicate SessionWithin(turns: seq<bytes>) {
    |turns| <= 64 && TotalLength(turns) <= 8388608
  }

  /** The turns of a session after the publish of a turn: as they were if an equal one is there, otherwise the longest rest of them
      that fits together with the new one, and that behind. */
  ghost predicate Published(canonical: bytes -> Option<bytes>, turns: seq<bytes>, turn: bytes, now: seq<bytes>) {
    if exists i :: 0 <= i < |turns| && canonical(turns[i]).Some? && canonical(turns[i]) == canonical(turn) then now == turns
    else exists k :: 0 <= k <= |turns| && LongestRest(turns, turn, k, now)
  }

  ghost predicate LongestRest(turns: seq<bytes>, turn: bytes, k: nat, now: seq<bytes>)
    requires k <= |turns|
  {
    now == turns[k..] + [turn] && SessionWithin(now) && forall j :: 0 <= j < k ==> !SessionWithin(turns[j..] + [turn])
  }

  lemma {:induction false} TurnBytesAre(turns: seq<bytes>)
    ensures TurnBytes(turns) == TotalLength(turns)
    decreases |turns|
  {
    if turns != [] {
      var n := |turns| - 1;
      TurnBytesAre(turns[..n]);
      TurnBytesSnoc(turns[..n], turns[n]);
      assert turns == turns[..n] + [turns[n]];
    }
  }

  lemma {:induction false} TurnBytesSnoc(turns: seq<bytes>, turn: bytes)
    ensures TurnBytes(turns + [turn]) == TurnBytes(turns) + |turn|
  {
    if turns == [] {
      assert [turn][1..] == [];
    } else {
      assert (turns + [turn])[1..] == turns[1..] + [turn];
      TurnBytesSnoc(turns[1..], turn);
    }
  }

  lemma FitsIsWithin(turns: seq<bytes>)
    ensures FitsSession(turns) == SessionWithin(turns)
  {
    TurnBytesAre(turns);
  }

  /** What Claude's publishing, counting and validity are. */
  lemma ClaudeKindIs(canonical: bytes -> Option<bytes>, wellFormed: bytes -> bool, turns: seq<bytes>, turn: bytes)
    ensures var kind := ClaudeKind(canonical, wellFormed);
            && kind.empty == [] && kind.size(turns) == TotalLength(turns)
            && (kind.valid(turn) <==> 0 < |turn| <= 8388608 && wellFormed(turn))
            && (kind.sound(turns) ==> SessionWithin(turns))
            && (kind.sound(turns) && kind.valid(turn) ==> Published(canonical, turns, turn, kind.publish(turns, turn)))
  {
    var kind := ClaudeKind(canonical, wellFormed);
    TurnBytesAre(turns);
    FitsIsWithin(turns);
    if kind.sound(turns) && kind.valid(turn) {
      AppendIsPublished(canonical, turns, turn);
    }
  }

  lemma AppendIsPublished(canonical: bytes -> Option<bytes>, turns: seq<bytes>, turn: bytes)
    requires |turn| <= MAX_SESSION_BYTES && FitsSession(turns) && DistinctTurns(canonical, turns)
    ensures Published(canonical, turns, turn, AppendTurn(canonical, turns, turn))
  {
    AppendTurnKeepsNewest(canonical, turns, turn);
    hide FitsSession, SessionWithin, DistinctTurns, AppendTurn;
    var now := AppendTurn(canonical, turns, turn);
    FitsIsWithin(now);
    if !HasTurn(canonical, turns, turn) {
      var k: nat :| k <= |turns| && now == turns[k..] + [turn] && forall j :: 0 <= j < k ==> !FitsSession(turns[j..] + [turn]);
      forall j | 0 <= j < k ensures !SessionWithin(turns[j..] + [turn]) {
        FitsIsWithin(turns[j..] + [turn]);
      }
      assert LongestRest(turns, turn, k, now);
    } else {
      var i :| 0 <= i < |turns| && JsonEqual(canonical, turns[i], turn);
    }
  }

  /** The map before the limits are enforced: the key holds a new write of `content`. */
  function Wanted<K, C>(before: map<K, Entry<C>>, key: K, content: C, now: int, generation: nat): map<K, Entry<C>> {
    before[key := Entry(content, now, generation, false)]
  }

  /** ReplaceClaudeThinkingReplayIfUnchanged. */
  method ReplaceClaude<K(!new, ==)>(cache: ThinkingReplayCache<K, seq<bytes>>, canonical: bytes -> Option<bytes>, wellFormed: bytes -> bool,
                                    key: K, snapshot: Snapshot, turn: bytes, now: int)
    returns (ok: bool, ghost content: seq<bytes>)
    requires cache.Valid() && cache.kind == ClaudeKind(canonical, wellFormed) && snapshot.loaded
    modifies cache
    ensures cache.Valid() && Step(old(cache.Now()), cache.Now())
    ensures ok == (0 < |turn| <= 8388608 && wellFormed(turn) && old(cache.Matches(key, snapshot)))
    ensures !ok ==> cache.entries == old(cache.entries)
    ensures ok ==>
      var turns := if key in old(cache.entries) then old(cache.entries)[key].content else [];
      && Published(canonical, turns, turn, content)
      && Enforced(cache.kind, Wanted(old(cache.entries), key, content, now, old(cache.issued)), cache.entries)
  {
    hide Published, Enforced, SessionWithin, Step, Sound, ThinkingReplayCache.WithinLimits;
    ghost var stored := if key in cache.entries then cache.entries[key].content else cache.kind.empty;
    ClaudeKindIs(canonical, wellFormed, stored, turn);
    SoundAt(cache.kind, cache.entries, cache.issued, key);
    content := cache.kind.publish(stored, turn);
    ok := cache.ReplaceIfUnchanged(key, snapshot, turn, now);
  }

  /** ReplaceKimiThinkingReplayIfUnchanged: the key then holds exactly the turn. */
  method ReplaceKimi<K(!new, ==)>(cache: ThinkingReplayCache<K, bytes>, wellFormed: bytes -> bool,
                                  key: K, snapshot: Snapshot, turn: bytes, now: int)
    returns (ok: bool)
    requires cache.Valid() && cache.kind == KimiKind(wellFormed) && snapshot.loaded
    modifies cache
    ensures cache.Valid() && Step(old(cache.Now()), cache.Now())
    ensures ok == (0 < |turn| <= 8388608 && wellFormed(turn) && old(cache.Matches(key, snapshot)))
    ensures !ok ==> cache.entries == old(cache.entries)
    ensures ok ==> Enforced(cache.kind, Wanted(old(cache.entries), key, turn, now, old(cache.issued)), cache.entries)
  {
    hide Enforced, Step, Sound, ThinkingReplayCache.WithinLimits;
    ghost var stored := if key in cache.entries then cache.entries[key].content else cache.kind.empty;
    KimiKindIs(wellFormed, stored, turn);
    ok := cache.ReplaceIfUnchanged(key, snapshot, turn, now);
  }

  lemma SoundAt<K, C(!new)>(kind: Kind<C>, entries: map<K, Entry<C>>, issued: nat, key: K)
    requires Sound(kind, entries, issued) && kind.Consistent()
    ensures kind.sound(if key in entries then entries[key].content else kind.empty)
  {}

  lemma KimiKindIs(wellFormed: bytes -> bool, stored: bytes, turn: bytes)
    ensures var kind := KimiKind(wellFormed);
            && kind.empty == [] && kind.size(stored) == |stored| && kind.publish(stored, turn) == turn
            && (kind.valid(turn) <==> 0 < |turn| <= 8388608 && wellFormed(turn))
  {}

  // ---- Which writes survive enforcing the limits ----

  /** How many entries remain when whole batches have gone and one more would leave nothing: 1 to 128 of n. */
  function LastRemainder(n: nat): (r: nat)
    requires n > 0
    ensures 1 <= r <= EVICT_BATCH && r <= n && (n - r) % EVICT_BATCH == 0
  {
    (n - 1) % EVICT_BATCH + 1
  }

  ghost predicate StrictlyNewest<K, C>(entries: map<K, Entry<C>>, key: K) {
    key in entries && forall k :: k in entries && k != key ==> entries[k].timestamp < entries[key].timestamp
  }

  /** If the newest entry goes, everything goes. */
  lemma AllOrNewest<K, C>(wanted: map<K, Entry<C>>, after: map<K, Entry<C>>, key: K)
    requires OldestRemoved(wanted, after, StampOf()) && StrictlyNewest(wanted, key)
    ensures key in wanted && (key in after || after == map[])
  {
    if key !in after {
      assert after.Keys == {};
    }
  }

  lemma EmptyFits<K, C(!new)>(kind: Kind<C>, entries: map<K, Entry<C>>)
    ensures |entries| == 0 ==> entries == map[] && Fits(kind, entries)
  {
    if |entries| == 0 {
      assert entries.Keys == {};
    }
  }

  /** When anything is left, a number of entries is left that whole batches lead to. */
  lemma LeftAfterBatches<K(!new), C(!new)>(kind: Kind<C>, wanted: map<K, Entry<C>>, after: map<K, Entry<C>>)
    requires Enforced(kind, wanted, after) && |after| > 0
    ensures BatchesGone(wanted, after)
  {
    hide OldestRemoved, Fits, LastBatch;
    if after == wanted {
      NoBatchGone(wanted);
    } else {
      var last :| LastBatch(kind, wanted, last, after);
      FullBatch(kind, wanted, last, after);
    }
  }

  /** Of n entries, the newest r = (n - 1) % 128 + 1 decide whether the newest one survives. With ties in age at the cut there
      are several choices of these, and the eviction makes one. */
  lemma NewestBatchDecides<K(!new), C(!new)>(kind: Kind<C>, wanted: map<K, Entry<C>>, after: map<K, Entry<C>>, key: K)
    returns (newest: map<K, Entry<C>>)
    requires Enforced(kind, wanted, after) && StrictlyNewest(wanted, key) && |wanted| > 0
    ensures OldestRemoved(wanted, newest, StampOf()) && |newest| == LastRemainder(|wanted|)
    ensures key in after <==> Total(newest, BytesOf(kind)) <= MAX_TOTAL_BYTES
  {
    hide OldestRemoved, StrictlyNewest, LastBatch;
    AllOrNewest(wanted, after, key);
    if key in after {
      KeySize(after, key);
      LeftAfterBatches(kind, wanted, after);
      newest := NewestExist(after, StampOf(), LastRemainder(|wanted|));
      OldestRemovedAgain(wanted, after, newest, StampOf());
      RemovedIsFewer(after, newest, StampOf());
      TotalFewer(after, newest, BytesOf(kind));
    } else {
      newest := LostBatch(kind, wanted, after, key);
    }
  }

  lemma KeySize<K, E>(entries: map<K, E>, key: K)
    requires key in entries
    ensures |entries| > 0
  {
    SizeRemove(entries, key);
  }

  lemma LostBatch<K(!new), C(!new)>(kind: Kind<C>, wanted: map<K, Entry<C>>, after: map<K, Entry<C>>, key: K)
    returns (last: map<K, Entry<C>>)
    requires Enforced(kind, wanted, after) && key in wanted && after == map[]
    ensures OldestRemoved(wanted, last, StampOf()) && |wanted| > 0 && |last| == LastRemainder(|wanted|)
    ensures Total(last, BytesOf(kind)) > MAX_TOTAL_BYTES
  {
    hide OldestRemoved, Fits;
    KeySize(wanted, key);
    last :| LastBatch(kind, wanted, last, after);
    EmptyFits(kind, last);
    assert 0 < |last| <= EVICT_BATCH && (|wanted| - |last|) % EVICT_BATCH == 0;
    RemainderUnique(|wanted|, |last|);
    NotFitting(kind, last);
  }

  lemma RemainderUnique(n: nat, r: nat)
    requires 0 < r <= EVICT_BATCH && r <= n && (n - r) % EVICT_BATCH == 0
    ensures r == LastRemainder(n)
  {}

  lemma NotFitting<K, C(!new)>(kind: Kind<C>, entries: map<K, Entry<C>>)
    requires !Fits(kind, entries) && |entries| <= EVICT_BATCH
    ensures Total(entries, BytesOf(kind)) > MAX_TOTAL_BYTES
  {}

  /** Without a tie at the cut: the newest write survives exactly when the newest r entries fit in the byte limit. Publishing a
      write into n - 1 others loses the write itself otherwise, and everything else with it. */
  lemma NewestSurvivesIff<K(!new), C(!new)>(kind: Kind<C>, wanted: map<K, Entry<C>>, after: map<K, Entry<C>>, key: K, newest: map<K, Entry<C>>)
    requires Enforced(kind, wanted, after) && StrictlyNewest(wanted, key) && |wanted| > 0
    requires ClearCut(wanted, newest, StampOf()) && |newest| == LastRemainder(|wanted|)
    ensures key in after <==> Total(newest, BytesOf(kind)) <= MAX_TOTAL_BYTES
    ensures key !in after ==> after == map[]
  {
    hide OldestRemoved, StrictlyNewest, ClearCut, Enforced;
    var decisive := NewestBatchDecides(kind, wanted, after, key);
    NewestUnique(wanted, newest, decisive, StampOf());
    EnforcedRemoves(kind, wanted, after);
    AllOrNewest(wanted, after, key);
  }

  lemma EnforcedRemoves<K(!new), C(!new)>(kind: Kind<C>, wanted: map<K, Entry<C>>, after: map<K, Entry<C>>)
    requires Enforced(kind, wanted, after)
    ensures OldestRemoved(wanted, after, StampOf())
  {}

  /** A tombstone, or then a session with the content `full`, as the k-th write. */
  function Written(full: bytes, k: nat): Entry<bytes> {
    if k < EVICT_BATCH then Entry([], k, k, true) else Entry(full, k, k, false)
  }

  function Writes(full: bytes, first: nat, n: nat): map<nat, Entry<bytes>> {
    map k: nat | first <= k < n :: Written(full, k)
  }

  lemma {:induction false} WritesTotal(wellFormed: bytes -> bool, full: bytes, first: nat, n: nat)
    requires first <= EVICT_BATCH <= n && |full| == MAX_SESSION_BYTES
    ensures |Writes(full, first, n)| == n - first
    ensures Total(Writes(full, first, n), BytesOf(KimiKind(wellFormed))) == (n - EVICT_BATCH) * MAX_SESSION_BYTES
    decreases n
  {
    hide *;
    if n == EVICT_BATCH {
      WritesEmpty(wellFormed, full, first, n);
    } else {
      WritesTotal(wellFormed, full, first, n - 1);
      WritesNext(wellFormed, full, first, n - 1);
      WrittenBytes(full, n - 1);
    }
  }

  lemma {:induction false} WritesEmpty(wellFormed: bytes -> bool, full: bytes, first: nat, n: nat)
    requires first <= n <= EVICT_BATCH && |full| == MAX_SESSION_BYTES
    ensures |Writes(full, first, n)| == n - first && Total(Writes(full, first, n), BytesOf(KimiKind(wellFormed))) == 0
    decreases n
  {
    hide *;
    if n == first {
      NoWrites(wellFormed, full, n);
    } else {
      WritesEmpty(wellFormed, full, first, n - 1);
      WritesNext(wellFormed, full, first, n - 1);
      WrittenBytes(full, n - 1);
    }
  }

  lemma NoWrites(wellFormed: bytes -> bool, full: bytes, n: nat)
    ensures Writes(full, n, n) == map[] && Total(Writes(full, n, n), BytesOf(KimiKind(wellFormed))) == 0
  {}

  lemma WrittenBytes(full: bytes, k: nat)
    requires |full| == MAX_SESSION_BYTES
    ensures |Written(full, k).content| == if k < EVICT_BATCH then 0 else MAX_SESSION_BYTES
  {}

  lemma WritesNext(wellFormed: bytes -> bool, full: bytes, first: nat, n: nat)
    requires first <= n
    ensures |Writes(full, first, n + 1)| == |Writes(full, first, n)| + 1
    ensures Total(Writes(full, first, n + 1), BytesOf(KimiKind(wellFormed)))
         == Total(Writes(full, first, n), BytesOf(KimiKind(wellFormed))) + |Written(full, n).content|
  {
    hide Written;
    var weight := BytesOf(KimiKind(wellFormed));
    assert Writes(full, first, n + 1) == Writes(full, first, n)[n := Written(full, n)];
    SizeSet(Writes(full, first, n), n, Written(full, n));
    TotalSet(Writes(full, first, n), weight, n, Written(full, n));
    assert weight(Written(full, n)) == |Written(full, n).content|;
  }

  /** 128 tombstones and 32 sessions of the largest size are exactly within the limits; publishing one more evicts all of
      them, the new one included. */
  lemma PublishLosesItself(wellFormed: bytes -> bool, full: bytes, after: map<nat, Entry<bytes>>)
    requires |full| == MAX_SESSION_BYTES && KimiKind(wellFormed).valid(full)
    ensures Written(full, 160) == Entry(KimiKind(wellFormed).publish(KimiKind(wellFormed).empty, full), 160, 160, false)
    ensures Fits(KimiKind(wellFormed), Writes(full, 0, 160)) && Sound(KimiKind(wellFormed), Writes(full, 0, 160), 160)
    ensures Enforced(KimiKind(wellFormed), Writes(full, 0, 160)[160 := Written(full, 160)], after) <==> after == map[]
  {
    hide Written, Writes, Enforced, Fits, Sound, KimiKind, Total, BytesOf, ClearCut, OldestRemoved, StrictlyNewest, LastRemainder;
    assert Written(full, 160) == Entry(KimiKind(wellFormed).publish(KimiKind(wellFormed).empty, full), 160, 160, false) by {
      PublishedIs(wellFormed, full);
    }
    var kind, wanted, newest := KimiKind(wellFormed), Writes(full, 0, 161), Writes(full, 128, 161);
    WritesStep(full, 160);
    RemainderOf161();
    WritesTotal(wellFormed, full, 0, 160);
    WritesFit(wellFormed, full);
    WritesTotal(wellFormed, full, 0, 161);
    WritesTotal(wellFormed, full, 128, 161);
    WritesOrdered(full);
    WritesSound(wellFormed, full);
    if Enforced(kind, wanted, after) {
      NewestSurvivesIff(kind, wanted, after, 160, newest);
    }
    EverythingEvicted(kind, wanted, newest);
  }

  /** When the last entries that batches lead to are no more than a batch and too large, everything goes. */
  lemma EverythingEvicted<K(!new), C(!new)>(kind: Kind<C>, wanted: map<K, Entry<C>>, newest: map<K, Entry<C>>)
    requires ClearCut(wanted, newest, StampOf()) && 0 < |newest| < EVICT_BATCH
    requires |newest| <= |wanted| && (|wanted| - |newest|) % EVICT_BATCH == 0
    requires Total(newest, BytesOf(kind)) > MAX_TOTAL_BYTES && Total(wanted, BytesOf(kind)) > MAX_TOTAL_BYTES
    ensures Enforced(kind, wanted, map[])
  {
    var nothing: map<K, Entry<C>> := map[];
    EmptyFits(kind, nothing);
    assert LastBatch(kind, wanted, newest, nothing);
  }

  lemma PublishedIs(wellFormed: bytes -> bool, full: bytes)
    ensures Written(full, 160) == Entry(KimiKind(wellFormed).publish(KimiKind(wellFormed).empty, full), 160, 160, false)
  {}

  lemma WritesStep(full: bytes, n: nat)
    ensures Writes(full, 0, n)[n := Written(full, n)] == Writes(full, 0, n + 1)
  {}

  lemma RemainderOf161()
    ensures LastRemainder(161) == 33
  {}

  lemma WritesFit(wellFormed: bytes -> bool, full: bytes)
    requires |Writes(full, 0, 160)| == 160
    requires Total(Writes(full, 0, 160), BytesOf(KimiKind(wellFormed))) == 32 * MAX_SESSION_BYTES
    ensures Fits(KimiKind(wellFormed), Writes(full, 0, 160))
  {}

  lemma WritesSound(wellFormed: bytes -> bool, full: bytes)
    requires |full| == MAX_SESSION_BYTES
    ensures Sound(KimiKind(wellFormed), Writes(full, 0, 160), 160)
  {}

  lemma WritesOrdered(full: bytes)
    ensures StrictlyNewest(Writes(full, 0, 161), 160) && ClearCut(Writes(full, 0, 161), Writes(full, 128, 161), StampOf())
  {
    assert forall k: nat :: Written(full, k).timestamp == k;
  }

  // ---- Whole runs ----

  /** Every operation of the cache is a step. */
  ghost predicate Run<K, C>(run: seq<Moment<K, C>>) {
    forall i :: 0 <= i < |run| - 1 ==> Step(run[i], run[i + 1])
  }

  /** Once a key has lost the write that a get's snapshot saw, by whatever operation, the snapshot never matches again: no
      replace or delete with it succeeds. */
  lemma {:induction false} LostForGood<K, C>(run: seq<Moment<K, C>>, i: nat, j: nat, key: K, s: Snapshot)
    requires Run(run) && i <= j < |run| && s.found
    requires s.generation < run[i].issued && !MatchesAt(run[i].entries, key, s)
    ensures !MatchesAt(run[j].entries, key, s)
    decreases j - i
  {
    if i < j {
      assert Step(run[i], run[i + 1]);
      LostForGood(run, i + 1, j, key, s);
    }
  }

  /** What the snapshot of a get still matches is the very write that it saw. */
  lemma {:induction false} HeldUnchanged<K, C>(run: seq<Moment<K, C>>, i: nat, j: nat, key: K, s: Snapshot)
    requires Run(run) && i <= j < |run| && s.found
    requires s.generation < run[i].issued && MatchesAt(run[j].entries, key, s)
    ensures MatchesAt(run[i].entries, key, s) && SameWrite(run[i].entries[key], run[j].entries[key])
    decreases j - i
  {
    if i < j {
      assert Step(run[i], run[i + 1]);
      HeldUnchanged(run, i + 1, j, key, s);
    }
  }
}
