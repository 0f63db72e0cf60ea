/** The in-process Antigravity replay cache: optimistic concurrency by snapshots, revisions and branches. */
module AntigravityLocal {
  import opened Wrappers
  import opened Bytes
  import opened Eviction
  import opened ReplayItems

  /** Branches are the random identifiers handed out, numbered from 1; 0 stands for the empty string. */
  datatype Entry = Entry(items: seq<bytes>, timestamp: int, revision: nat, branch: nat, deleted: bool)

  datatype Snapshot =
    Snapshot(items: seq<bytes>, loaded: bool, found: bool, revision: nat, branch: nat, evictionEpoch: nat)

  /** One write of the map; the write with revision r is the r-th of a run. */
  datatype Write<K> = Write(key: K, items: seq<bytes>, branch: nat, deleted: bool)

  // ---- What a run keeps ----

  /** Along a branch the items of one key only grow by appending, and a tombstone is only ever the first write. */
  ghost predicate BranchesGrow<K>(writes: seq<Write<K>>) {
    forall i, j :: 0 <= i < j < |writes| && writes[i].branch == writes[j].branch ==>
      writes[i].key == writes[j].key && writes[i].items <= writes[j].items && !writes[j].deleted
  }

  /** The map holds, of the branches it holds, the last writes. */
  ghost predicate Recorded<K>(entries: map<K, Entry>, writes: seq<Write<K>>) {
    && (forall k :: k in entries ==>
         && 1 <= entries[k].revision <= |writes|
         && writes[entries[k].revision - 1] == Write(k, entries[k].items, entries[k].branch, entries[k].deleted))
    && (forall k, i :: k in entries && entries[k].revision <= i < |writes| ==> writes[i].branch != entries[k].branch)
  }

  ghost predicate BranchesIssued<K>(writes: seq<Write<K>>, nextBranch: nat) {
    forall i :: 0 <= i < |writes| ==> 0 < writes[i].branch < nextBranch && (writes[i].deleted ==> writes[i].items == [])
  }

  ghost predicate History<K>(entries: map<K, Entry>, writes: seq<Write<K>>, nextBranch: nat) {
    BranchesGrow(writes) && Recorded(entries, writes) && BranchesIssued(writes, nextBranch) && nextBranch > 0
  }

  lemma HistoryFewer<K>(entries: map<K, Entry>, fewer: map<K, Entry>, writes: seq<Write<K>>, nextBranch: nat)
    requires History(entries, writes, nextBranch)
    requires fewer.Keys <= entries.Keys && forall k :: k in fewer ==> fewer[k] == entries[k]
    ensures History(fewer, writes, nextBranch)
  {}

  lemma HistoryTouch<K>(entries: map<K, Entry>, writes: seq<Write<K>>, nextBranch: nat, key: K, now: int)
    requires History(entries, writes, nextBranch) && key in entries
    ensures History(entries[key := entries[key].(timestamp := now)], writes, nextBranch)
  {}

  /** A write on a new branch. */
  lemma HistoryFresh<K>(entries: map<K, Entry>, writes: seq<Write<K>>, nextBranch: nat, key: K, items: seq<bytes>, deleted: bool, now: int)
    requires History(entries, writes, nextBranch)
    requires deleted ==> items == []
    ensures History(entries[key := Entry(items, now, |writes| + 1, nextBranch, deleted)],
                    writes + [Write(key, items, nextBranch, deleted)], nextBranch + 1)
  {}

  /** A write that extends the one its key holds. */
  lemma HistoryExtend<K>(entries: map<K, Entry>, writes: seq<Write<K>>, nextBranch: nat, key: K, items: seq<bytes>, now: int)
    requires History(entries, writes, nextBranch)
    requires key in entries && entries[key].items <= items
    ensures History(entries[key := Entry(items, now, |writes| + 1, entries[key].branch, false)],
                    writes + [Write(key, items, entries[key].branch, false)], nextBranch)
  {
    var entry := entries[key];
    var after := entries[key := Entry(items, now, |writes| + 1, entry.branch, false)];
    var longer := writes + [Write(key, items, entry.branch, false)];
    forall i | 0 <= i < |writes| && writes[i].branch == entry.branch
      ensures writes[i].key == key && writes[i].items <= items
    {
      if i != entry.revision - 1 {
        assert i < entry.revision;
      }
    }
  }

  /** The snapshot was taken by a get: it shows some write of the run. */
  ghost predicate Issued<K>(writes: seq<Write<K>>, s: Snapshot) {
    && s.loaded && s.found && 1 <= s.revision <= |writes|
    && s.branch == writes[s.revision - 1].branch && s.items == writes[s.revision - 1].items
  }

  /** May a publish or a delete with this snapshot still find the key as the snapshot saw it, or grown from that? */
  ghost predicate Reachable<K>(entries: map<K, Entry>, key: K, s: Snapshot) {
    key in entries && (entries[key].revision == s.revision || entries[key].branch == s.branch)
  }

  /** The fence: whatever a key holds after some operations is a write made since on a new branch, or continues the
      branch that the key held before. */
  ghost predicate Fenced<K>(before: map<K, Entry>, revisions: nat, branches: nat, after: map<K, Entry>) {
    forall k :: k in after ==>
      && (after[k].revision <= revisions ==> k in before && before[k].revision == after[k].revision)
      && (after[k].branch < branches ==> k in before && before[k].branch == after[k].branch)
  }

  /** A moment of a run: the map, and how many revisions and branches were handed out. */
  datatype Moment<K> = Moment(entries: map<K, Entry>, revisions: nat, branches: nat)

  /** What every operation of the cache does from one moment to the next. */
  ghost predicate Step<K>(m: Moment<K>, n: Moment<K>) {
    m.revisions <= n.revisions && m.branches <= n.branches && Fenced(m.entries, m.revisions, m.branches, n.entries)
  }

  /** Does the map hold the very state that the snapshot saw? */
  predicate MatchesAt<K>(entries: map<K, Entry>, epoch: nat, key: K, s: Snapshot) {
    && (key in entries) == s.found
    && (if key in entries then entries[key].revision == s.revision else s.evictionEpoch == epoch)
  }

  /** What saw the key absent matches as long as the key is absent and no entry has been removed. */
  lemma AbsenceIsFenced<K>(entries: map<K, Entry>, epoch: nat, key: K, s: Snapshot, later: map<K, Entry>, laterEpoch: nat)
    requires !s.found && MatchesAt(entries, epoch, key, s)
    ensures MatchesAt(later, laterEpoch, key, s) <==> key !in later && laterEpoch == epoch
  {}

  /** Does it hold a live chain of the snapshot's branch that `chain` extends? */
  predicate PrecedesAt<K>(entries: map<K, Entry>, key: K, s: Snapshot, chain: seq<bytes>) {
    && key in entries && !entries[key].deleted
    && s.branch != 0 && entries[key].branch == s.branch && entries[key].items <= chain
  }

  /** The map after a write of `entry`: if it outgrew its limit, the oldest entries went. */
  ghost predicate Installed<K>(before: map<K, Entry>, key: K, entry: Entry, after: map<K, Entry>) {
    && OldestRemoved(before[key := entry], after, StampOf())
    && (key in before || |before| < MAX_ENTRIES ==> after == before[key := entry])
    && (key !in before && |before| == MAX_ENTRIES ==> |after| == MAX_ENTRIES + 1 - EVICT_BATCH)
  }

  /** The map after a miss was fenced: the tombstone, and the rest, from which the oldest batch went if the map was full. */
  ghost predicate Reserved<K>(before: map<K, Entry>, key: K, tombstone: Entry, room: map<K, Entry>, after: map<K, Entry>) {
    && OldestRemoved(before, room, StampOf()) && after == room[key := tombstone]
    && (|before| < MAX_ENTRIES ==> room == before)
    && (|before| == MAX_ENTRIES ==> |room| == MAX_ENTRIES - EVICT_BATCH)
  }

  /** No snapshot of the writes so far reaches what the key holds, if anything. */
  ghost predicate CutOff<K>(entries: map<K, Entry>, key: K, writes: seq<Write<K>>) {
    forall s :: Issued(writes, s) ==> !Reachable(entries, key, s)
  }

  lemma NewBranchCutsOff<K>(before: map<K, Entry>, writes: seq<Write<K>>, nextBranch: nat, after: map<K, Entry>, key: K)
    requires History(before, writes, nextBranch)
    requires key in after ==> after[key].revision > |writes| && after[key].branch >= nextBranch
    ensures CutOff(after, key, writes)
  {}

  /** A reachable entry is the snapshot's own write, or a live one of the same key that grew from it. */
  lemma ReachableGrewFromSnapshot<K>(entries: map<K, Entry>, writes: seq<Write<K>>, nextBranch: nat, key: K, s: Snapshot)
    requires History(entries, writes, nextBranch) && Issued(writes, s) && Reachable(entries, key, s)
    ensures writes[s.revision - 1].key == key && s.revision <= entries[key].revision
    ensures if s.revision == entries[key].revision
            then writes[s.revision - 1] == Write(key, entries[key].items, entries[key].branch, entries[key].deleted)
            else !entries[key].deleted && entries[key].branch == s.branch && s.items <= entries[key].items
  {
    var latest := entries[key].revision - 1;
    assert writes[latest].key == key;
  }

  lemma FencedFewer<K>(before: map<K, Entry>, revisions: nat, branches: nat, after: map<K, Entry>, fewer: map<K, Entry>)
    requires Fenced(before, revisions, branches, after)
    requires fewer.Keys <= after.Keys && forall k :: k in fewer ==> fewer[k] == after[k]
    ensures Fenced(before, revisions, branches, fewer)
  {}

  lemma FencedSelf<K>(entries: map<K, Entry>, revisions: nat, branches: nat)
    ensures Fenced(entries, revisions, branches, entries)
  {}

  lemma FencedSet<K>(before: map<K, Entry>, revisions: nat, branches: nat, after: map<K, Entry>, key: K, entry: Entry)
    requires Fenced(before, revisions, branches, after)
    requires entry.revision > revisions || (key in after && after[key].revision == entry.revision)
    requires entry.branch >= branches || (key in after && after[key].branch == entry.branch)
    ensures Fenced(before, revisions, branches, after[key := entry])
  {}

  lemma FencedTransitive<K>(a: map<K, Entry>, r: nat, n: nat, b: map<K, Entry>, r': nat, n': nat, c: map<K, Entry>)
    requires r <= r' && n <= n' && Fenced(a, r, n, b) && Fenced(b, r', n', c)
    ensures Fenced(a, r, n, c)
  {}

  function StampOf(): Entry -> int {
    (e: Entry) => e.timestamp
  }

  function Unweighted(): Entry -> nat {
    (e: Entry) => 0
  }

  // ---- The cache ----

  class AntigravityReplayCache<K(!new, ==)> {
    const normalize: bytes -> Option<bytes>
    var entries: map<K, Entry>
    var nextRevision: nat
    var evictionEpoch: nat
    var nextBranch: nat
    ghost var writes: seq<Write<K>>

    ghost predicate Valid()
      reads this
    {
      |entries| <= MAX_ENTRIES && nextRevision == |writes| && History(entries, writes, nextBranch)
    }

    ghost function Now(): Moment<K>
      reads this
    {
      Moment(entries, nextRevision, nextBranch)
    }

    /** What every operation does: a step, which only adds to the record of writes. */
    twostate predicate Advanced()
      reads this
    {
      old(writes) <= writes && old(evictionEpoch) <= evictionEpoch && Step(old(Now()), Now())
    }

    constructor (normalize: bytes -> Option<bytes>)
      ensures Valid() && entries == map[] && this.normalize == normalize
    {
      this.normalize := normalize;
      entries, nextRevision, evictionEpoch, nextBranch, writes := map[], 0, 0, 1, [];
    }

    /** evictOldestAntigravityReasoningReplayEntries. */
    method Evict(count: nat)
      requires nextRevision == |writes| && History(entries, writes, nextBranch)
      modifies this`entries, this`evictionEpoch
      ensures History(entries, writes, nextBranch) && OldestRemoved(old(entries), entries, StampOf())
      ensures |entries| == old(|entries|) - (if count < old(|entries|) then count else old(|entries|))
      ensures evictionEpoch == old(evictionEpoch) + (old(|entries|) - |entries|)
    {
      hide History, OldestRemoved;
      var kept, removed, _ := EvictOldest(entries, StampOf(), Unweighted(), count);
      RemovedIsFewer(entries, kept, StampOf());
      HistoryFewer(entries, kept, writes, nextBranch);
      entries, evictionEpoch := kept, evictionEpoch + removed;
    }

    /** A write, on a new branch or on the one that its key holds, and the eviction that follows it. */
    method Install(key: K, items: seq<bytes>, extend: bool, deleted: bool, now: int)
      requires Valid() && (deleted ==> items == [] && !extend)
      requires extend ==> key in entries && entries[key].items <= items
      modifies this
      ensures Valid() && Advanced()
      ensures var branch := if extend then old(entries)[key].branch else old(nextBranch);
              && writes == old(writes) + [Write(key, items, branch, deleted)]
              && Installed(old(entries), key, Entry(items, now, |writes|, branch, deleted), entries)
      ensures !extend && key in entries ==> entries[key].revision == |writes| && entries[key].branch == old(nextBranch)
    {
      hide History, OldestRemoved, Fenced;
      var branch := nextBranch;
      FencedSelf(entries, nextRevision, nextBranch);
      if extend {
        HistoryExtend(entries, writes, nextBranch, key, items, now);
        branch := entries[key].branch;
      } else {
        HistoryFresh(entries, writes, nextBranch, key, items, deleted, now);
        nextBranch := nextBranch + 1;
      }
      nextRevision := nextRevision + 1;
      var entry := Entry(items, now, nextRevision, branch, deleted);
      FencedSet(entries, old(nextRevision), old(nextBranch), entries, key, entry);
      SizeSet(entries, key, entry);
      writes := writes + [Write(key, items, branch, deleted)];
      entries := entries[key := entry];
      ghost var wanted := entries;
      NothingRemoved(entries, StampOf());
      if |entries| > MAX_ENTRIES {
        Evict(EVICT_BATCH);
        RemovedIsFewer(wanted, entries, StampOf());
        FencedFewer(old(entries), old(nextRevision), old(nextBranch), wanted, entries);
      }
    }

    /** Cache...BestEffort: stores a chain on a new branch. */
    method Cache(key: K, items: seq<bytes>, now: int) returns (ok: bool)
      requires Valid()
      modifies this
      ensures Valid() && Advanced()
      ensures ok == Normalize(normalize, items).Some?
      ensures ok ==> writes == old(writes) + [Write(key, Normalize(normalize, items).value, old(nextBranch), false)]
      ensures ok ==> Installed(old(entries), key, Entry(Normalize(normalize, items).value, now, |writes|, old(nextBranch), false), entries)
      ensures ok ==> CutOff(entries, key, old(writes))
      ensures !ok ==> entries == old(entries) && writes == old(writes)
    {
      hide History, Fenced, OldestRemoved, Installed;
      FencedSelf(entries, nextRevision, nextBranch);
      var normalized := Normalize(normalize, items);
      ok := normalized.Some?;
      if ok {
        Install(key, normalized.value, false, false, now);
        NewBranchCutsOff(old(entries), old(writes), old(nextBranch), entries, key);
      }
    }

    /** reserve...AbsentLocked: fences a miss with a tombstone, after making room for it. */
    method Reserve(key: K, now: int) returns (snapshot: Snapshot, ghost room: map<K, Entry>)
      requires Valid() && key !in entries
      modifies this
      ensures Valid() && Advanced() && Issued(writes, snapshot) && snapshot.evictionEpoch == evictionEpoch
      ensures key in entries && entries[key] == Entry([], now, snapshot.revision, snapshot.branch, true)
      ensures snapshot.revision == |writes| && snapshot.branch == old(nextBranch) && snapshot.items == []
      ensures Reserved(old(entries), key, Entry([], now, |writes|, old(nextBranch), true), room, entries)
      ensures writes == old(writes) + [Write(key, [], old(nextBranch), true)]
    {
      hide History, Fenced, OldestRemoved;
      FencedSelf(entries, nextRevision, nextBranch);
      NothingRemoved(entries, StampOf());
      if |entries| >= MAX_ENTRIES {
        Evict(EVICT_BATCH);
        RemovedIsFewer(old(entries), entries, StampOf());
        FencedFewer(old(entries), nextRevision, nextBranch, old(entries), entries);
      }
      room := entries;
      Install(key, [], false, true, now);
      FencedTransitive(old(entries), old(nextRevision), old(nextBranch), room, old(nextRevision), old(nextBranch), entries);
      snapshot := Snapshot([], true, true, entries[key].revision, entries[key].branch, evictionEpoch);
    }

    /** Sets the time of the last access, and shows the entry. */
    method Touch(key: K, now: int) returns (snapshot: Snapshot)
      requires Valid() && key in entries
      modifies this`entries
      ensures Valid() && Advanced() && Issued(writes, snapshot)
      ensures entries == old(entries)[key := old(entries)[key].(timestamp := now)]
      ensures snapshot.revision == entries[key].revision && (entries[key].deleted ==> entries[key].items == [])
      ensures snapshot.items == entries[key].items && snapshot.branch == entries[key].branch
    {
      hide Fenced, BranchesGrow;
      var entry := entries[key].(timestamp := now);
      FencedSelf(entries, nextRevision, nextBranch);
      HistoryTouch(entries, writes, nextBranch, key, now);
      FencedSet(entries, nextRevision, nextBranch, entries, key, entry);
      SizeSet(entries, key, entry);
      entries := entries[key := entry];
      snapshot := Snapshot(entry.items, true, true, entry.revision, entry.branch, evictionEpoch);
    }

    /** Get...WithSnapshotRequired. The snapshot always shows a write: a miss, or an entry that has expired, is fenced by a
        tombstone first. */
    method Get(key: K, now: int) returns (items: seq<bytes>, snapshot: Snapshot, found: bool, ghost room: map<K, Entry>)
      requires Valid()
      modifies this
      ensures Valid() && Advanced() && Issued(writes, snapshot)
      ensures key in entries && entries[key].revision == snapshot.revision && entries[key].timestamp == now
      ensures snapshot.items == entries[key].items && snapshot.branch == entries[key].branch
      ensures found == (!entries[key].deleted && entries[key].items != []) && items == (if found then entries[key].items else [])
      ensures if key in old(entries) && now - old(entries)[key].timestamp <= TTL
              then writes == old(writes) && entries == old(entries)[key := old(entries)[key].(timestamp := now)]
              else writes == old(writes) + [Write(key, [], old(nextBranch), true)]
                   && Reserved(old(entries) - {key}, key, Entry([], now, |writes|, old(nextBranch), true), room, entries)
    {
      hide History, Fenced, OldestRemoved, Issued, Reserved;
      FencedSelf(entries, nextRevision, nextBranch);
      if key !in entries || now - entries[key].timestamp > TTL {
        if key in entries {
          HistoryFewer(entries, entries - {key}, writes, nextBranch);
          FencedFewer(entries, nextRevision, nextBranch, entries, entries - {key});
          SizeRemove(entries, key);
          evictionEpoch := evictionEpoch + 1;
          entries := entries - {key};
        }
        ghost var without := entries;
        assert without == old(entries) - {key};
        snapshot, room := Reserve(key, now);
        FencedTransitive(old(entries), old(nextRevision), old(nextBranch), without, old(nextRevision), old(nextBranch), entries);
        return [], snapshot, false, room;
      }
      room := entries;
      snapshot := Touch(key, now);
      items, found := snapshot.items, !entries[key].deleted && entries[key].items != [];
    }

    /** Does the map hold the very state that the snapshot saw? */
    predicate Matches(key: K, snapshot: Snapshot)
      reads this
    {
      MatchesAt(entries, evictionEpoch, key, snapshot)
    }

    /** Does it hold a live chain of the snapshot's branch that `chain` extends? */
    predicate Precedes(key: K, snapshot: Snapshot, chain: seq<bytes>)
      reads this
    {
      PrecedesAt(entries, key, snapshot, chain)
    }

    /** Replace...IfUnchanged. `failed` is the error for a chain that does not normalize. */
    method ReplaceIfUnchanged(key: K, snapshot: Snapshot, items: seq<bytes>, now: int) returns (ok: bool, failed: bool)
      requires Valid()
      requires snapshot.loaded ==> Issued(writes, snapshot)
      modifies this
      ensures Valid() && Advanced()
      ensures var chain := Normalize(normalize, items);
              && failed == chain.None?
              && ok == (chain.Some? && if snapshot.loaded then old(Matches(key, snapshot)) || old(Precedes(key, snapshot, chain.value))
                                       else Normalize(normalize, chain.value).Some?)
              && (ok ==>
                   var again := if snapshot.loaded then chain.value else Normalize(normalize, chain.value).value;
                   var newBranch := !snapshot.loaded || (old(Matches(key, snapshot)) && !(snapshot.items <= again));
                   var branch := if newBranch then old(nextBranch) else snapshot.branch;
                   && writes == old(writes) + [Write(key, again, branch, false)]
                   && Installed(old(entries), key, Entry(again, now, |writes|, branch, false), entries))
      ensures ok && snapshot.loaded ==> Reachable(old(entries), key, snapshot)
      ensures !ok ==> entries == old(entries) && writes == old(writes)
    {
      hide Fenced, OldestRemoved, BranchesGrow, Installed;
      FencedSelf(entries, nextRevision, nextBranch);
      var normalized := Normalize(normalize, items);
      if normalized.None? {
        return false, true;
      }
      var chain := normalized.value;
      failed := false;
      if !snapshot.loaded {
        ok := Cache(key, chain, now);
        return;
      }
      var matches := Matches(key, snapshot);
      if !matches && !Precedes(key, snapshot, chain) {
        return false, false;
      }
      Install(key, chain, !matches || snapshot.items <= chain, false, now);
      ok := true;
    }

    /** Delete...IfUnchanged. */
    method DeleteIfUnchanged(key: K, snapshot: Snapshot, now: int) returns (ok: bool)
      requires Valid()
      requires snapshot.loaded ==> Issued(writes, snapshot)
      modifies this
      ensures Valid() && Advanced()
      ensures ok == (snapshot.loaded ==> old(Matches(key, snapshot)))
      ensures ok ==> writes == old(writes) + [Write(key, [], old(nextBranch), true)]
      ensures ok ==> Installed(old(entries), key, Entry([], now, |writes|, old(nextBranch), true), entries)
      ensures ok ==> CutOff(entries, key, old(writes))
      ensures ok && snapshot.loaded ==> Reachable(old(entries), key, snapshot)
      ensures !ok ==> entries == old(entries) && writes == old(writes)
    {
      hide History, Fenced, OldestRemoved, Installed;
      FencedSelf(entries, nextRevision, nextBranch);
      ok := !snapshot.loaded || Matches(key, snapshot);
      if ok {
        Install(key, [], false, true, now);
        NewBranchCutsOff(old(entries), old(writes), old(nextBranch), entries, key);
      }
    }

    /** Delete...Required: a tombstone on a new branch, whatever the key holds. */
    method Delete(key: K, now: int)
      requires Valid()
      modifies this
      ensures Valid() && Advanced()
      ensures writes == old(writes) + [Write(key, [], old(nextBranch), true)]
      ensures Installed(old(entries), key, Entry([], now, |writes|, old(nextBranch), true), entries)
      ensures CutOff(entries, key, old(writes))
    {
      hide History, Fenced, OldestRemoved, Installed;
      Install(key, [], false, true, now);
      NewBranchCutsOff(old(entries), old(writes), old(nextBranch), entries, key);
    }

    method Clear()
      requires Valid()
      modifies this
      ensures Valid() && Advanced() && entries == map[] && writes == old(writes)
    {
      entries := map[];
      evictionEpoch := evictionEpoch + 1;
    }

    /** purgeExpiredAntigravityReasoningReplayCache. */
    method Purge(now: int)
      requires Valid()
      modifies this
      ensures Valid() && Advanced() && writes == old(writes)
      ensures entries == NotBefore(old(entries), StampOf(), now - TTL)
      ensures evictionEpoch == old(evictionEpoch) + (old(|entries|) - |entries|)
    {
      hide History, Fenced, Unexpired, NotBefore;
      var pending := entries.Keys;
      ghost var before := entries;
      UnexpiredStart(before, StampOf(), now - TTL);
      FencedSelf(entries, nextRevision, nextBranch);
      while pending != {}
        invariant Valid() && pending <= entries.Keys
        invariant Unexpired(before, entries, pending, StampOf(), now - TTL)
        invariant writes == old(writes) && nextRevision == old(nextRevision) && nextBranch == old(nextBranch)
        invariant Fenced(before, nextRevision, nextBranch, entries)
        invariant evictionEpoch == old(evictionEpoch) + (|before| - |entries|) && |entries| <= |before|
        decreases |pending|
      {
        var key :| key in pending;
        UnexpiredNext(before, entries, pending, StampOf(), now - TTL, key);
        if now - entries[key].timestamp > TTL {
          SizeRemove(entries, key);
          HistoryFewer(entries, entries - {key}, writes, nextBranch);
          FencedFewer(before, nextRevision, nextBranch, entries, entries - {key});
          evictionEpoch := evictionEpoch + 1;
          entries := entries - {key};
        }
        pending := pending - {key};
      }
      UnexpiredDone(before, entries, StampOf(), now - TTL);
    }
  }

  // ---- What callers see ----

  /** An entry just written stays when there was room for it, or when it is the newest. */
  lemma InstalledStays<K>(before: map<K, Entry>, key: K, entry: Entry, after: map<K, Entry>)
    requires Installed(before, key, entry, after) && |before| <= MAX_ENTRIES
    requires key in before || |before| < MAX_ENTRIES || forall k :: k in before ==> before[k].timestamp < entry.timestamp
    ensures key in after && after[key] == entry
  {
    if key !in before && |before| == MAX_ENTRIES {
      assert |after| > 0;
      assert after.Keys != {};
    }
  }

  /** A chain of normal items within the limits is served as it was stored. */
  method StoredChainIsServed<K(!new, ==)>(cache: AntigravityReplayCache<K>, key: K, chain: seq<bytes>, now: int, later: int)
    returns (items: seq<bytes>, snapshot: Snapshot, found: bool)
    requires cache.Valid() && NormalChain(cache.normalize, chain) && later - now <= TTL
    requires key in cache.entries || |cache.entries| < MAX_ENTRIES
          || forall k :: k in cache.entries ==> cache.entries[k].timestamp < now
    modifies cache
    ensures cache.Valid() && found && items == chain && snapshot.items == chain
  {
    hide AntigravityReplayCache.Advanced, Issued, History, CutOff, Reserved;
    NormalChainStays(cache.normalize, chain);
    var ok := cache.Cache(key, chain, now);
    InstalledStays(old(cache.entries), key, Entry(chain, now, |cache.writes|, old(cache.nextBranch), false), cache.entries);
    ghost var room;
    items, snapshot, found, room := cache.Get(key, later);
  }

  lemma IssuedStays<K>(writes: seq<Write<K>>, more: seq<Write<K>>, s: Snapshot)
    requires Issued(writes, s) && writes <= more
    ensures Issued(more, s)
  {}

  /** The snapshot of a get, while the key holds what it showed, and once a chain that extends it has been published. */
  lemma Current<K>(entries: map<K, Entry>, writes: seq<Write<K>>, nextBranch: nat, epoch: nat, key: K, s: Snapshot, chain: seq<bytes>)
    requires History(entries, writes, nextBranch) && Issued(writes, s)
    requires key in entries && entries[key].revision == s.revision && entries[key].branch == s.branch
    ensures s.branch != 0 && s.found && s.loaded && s.revision <= |writes| && MatchesAt(entries, epoch, key, s)
  {}

  lemma Overtaken<K>(before: map<K, Entry>, key: K, s: Snapshot, entry: Entry, after: map<K, Entry>, epoch: nat, chain: seq<bytes>)
    requires Installed(before, key, entry, after) && key in before && s.found
    requires entry.revision > s.revision && entry.branch == s.branch != 0 && !entry.deleted
    ensures after == before[key := entry]
    ensures !MatchesAt(after, epoch, key, s) && PrecedesAt(after, key, s, chain) == (entry.items <= chain)
  {}

  /** Two publishes with the snapshot of one get: the first succeeds; if it extends what the get showed, the second succeeds
      exactly if it extends the first, and the key holds the last that did. */
  method PublishTwice<K(!new, ==)>(cache: AntigravityReplayCache<K>, key: K, first: seq<bytes>, second: seq<bytes>, now: int)
    returns (shown: seq<bytes>, ok: bool, again: bool)
    requires cache.Valid() && NormalChain(cache.normalize, first) && NormalChain(cache.normalize, second)
    modifies cache
    ensures cache.Valid() && ok
    ensures shown <= first ==>
      && again == (first <= second) && key in cache.entries
      && !cache.entries[key].deleted && cache.entries[key].items == if again then second else first
  {
    hide AntigravityReplayCache.Advanced, Issued, History, CutOff, Reserved, Reachable, MatchesAt, PrecedesAt, Installed, NormalChain;
    var snapshot;
    shown, ok, snapshot := PublishOnce(cache, key, first, now);
    NormalChainStays(cache.normalize, second);
    ghost var before := cache.entries;
    var failed;
    again, failed := cache.ReplaceIfUnchanged(key, snapshot, second, now);
    if shown <= first && again {
      InPlace(before, key, Entry(second, now, |cache.writes|, snapshot.branch, false), cache.entries);
    }
  }

  lemma InPlace<K>(before: map<K, Entry>, key: K, entry: Entry, after: map<K, Entry>)
    requires Installed(before, key, entry, after) && key in before
    ensures after == before[key := entry]
  {}

  /** A get and a publish with its snapshot, which succeeds. */
  method PublishOnce<K(!new, ==)>(cache: AntigravityReplayCache<K>, key: K, chain: seq<bytes>, now: int)
    returns (shown: seq<bytes>, ok: bool, snapshot: Snapshot)
    requires cache.Valid() && NormalChain(cache.normalize, chain)
    modifies cache
    ensures cache.Valid() && ok && Issued(cache.writes, snapshot) && snapshot.loaded && snapshot.items == shown
    ensures key in cache.entries && !cache.entries[key].deleted && cache.entries[key].items == chain
    ensures shown <= chain ==>
      && !cache.Matches(key, snapshot)
      && forall more :: cache.Precedes(key, snapshot, more) == (chain <= more)
  {
    hide AntigravityReplayCache.Advanced, Issued, History, CutOff, Reserved, Reachable, MatchesAt, PrecedesAt, Installed, NormalChain;
    NormalChainStays(cache.normalize, chain);
    var items, found;
    ghost var room;
    items, snapshot, found, room := cache.Get(key, now);
    shown := snapshot.items;
    Current(cache.entries, cache.writes, cache.nextBranch, cache.evictionEpoch, key, snapshot, chain);
    ghost var before, writes, branches := cache.entries, cache.writes, cache.nextBranch;
    var failed;
    ok, failed := cache.ReplaceIfUnchanged(key, snapshot, chain, now);
    IssuedStays(writes, cache.writes, snapshot);
    ghost var entry := Entry(chain, now, |cache.writes|, if shown <= chain then snapshot.branch else branches, false);
    InPlace(before, key, entry, cache.entries);
    if shown <= chain {
      Overtaken(before, key, snapshot, entry, cache.entries, cache.evictionEpoch, chain);
      forall more ensures cache.Precedes(key, snapshot, more) == (chain <= more) {
        Overtaken(before, key, snapshot, entry, cache.entries, cache.evictionEpoch, more);
      }
    }
  }

  // ---- Whole runs ----

  /** Every operation of the cache is a step. */
  ghost predicate Run<K>(run: seq<Moment<K>>) {
    forall i :: 0 <= i < |run| - 1 ==> Step(run[i], run[i + 1])
  }

  /** Once a key is out of reach of a get's snapshot, by a delete, a clear, an eviction, an expiry or an overwrite, it stays
      so: no later publish or delete with that snapshot succeeds, whatever chain it brings. */
  lemma {:induction false} UnreachableForGood<K>(run: seq<Moment<K>>, i: nat, j: nat, key: K, s: Snapshot, epoch: nat, chain: seq<bytes>)
    requires Run(run) && i <= j < |run| && s.found
    requires s.revision <= run[i].revisions && s.branch < run[i].branches
    requires !Reachable(run[i].entries, key, s)
    ensures !Reachable(run[j].entries, key, s)
    ensures !MatchesAt(run[j].entries, epoch, key, s) && !PrecedesAt(run[j].entries, key, s, chain)
    decreases j - i
  {
    if i < j {
      assert Step(run[i], run[i + 1]);
      UnreachableForGood(run, i + 1, j, key, s, epoch, chain);
    }
  }
}
