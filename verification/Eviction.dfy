/** Maps of cache entries: their total weight, and the removal of the oldest entries in batches. */
module Eviction {

  /** The limits that the replay caches share; times are in seconds. */
  const TTL: int := 3600
  const MAX_ENTRIES: nat := 10240
  const EVICT_BATCH: nat := 128

  /** Sum of a weight over all entries. */
  ghost function Total<K, E>(entries: map<K, E>, weight: E -> nat): nat {
    if entries == map[] then 0
    else
      var key :| key in entries;
      weight(entries[key]) + Total(entries - {key}, weight)
  }

  lemma {:induction false} TotalRemove<K, E>(entries: map<K, E>, weight: E -> nat, key: K)
    requires key in entries
    ensures Total(entries, weight) == weight(entries[key]) + Total(entries - {key}, weight)
  {
    var first :| first in entries && Total(entries, weight) == weight(entries[first]) + Total(entries - {first}, weight);
    if first != key {
      TotalRemove(entries - {first}, weight, key);
      TotalRemove(entries - {key}, weight, first);
      assert entries - {first} - {key} == entries - {key} - {first};
    }
  }

  lemma TotalSet<K, E>(entries: map<K, E>, weight: E -> nat, key: K, entry: E)
    ensures Total(entries[key := entry], weight)
         == weight(entry) + Total(entries, weight) - (if key in entries then weight(entries[key]) else 0)
  {
    TotalRemove(entries[key := entry], weight, key);
    if key in entries {
      TotalRemove(entries, weight, key);
      assert entries[key := entry] - {key} == entries - {key};
    } else {
      assert entries[key := entry] - {key} == entries;
    }
  }

  lemma SizeRemove<K, E>(entries: map<K, E>, key: K)
    requires key in entries
    ensures |entries - {key}| == |entries| - 1
  {
    assert (entries - {key}).Keys == entries.Keys - {key};
    assert |(entries - {key}).Keys| == |entries - {key}|;
    assert |entries.Keys| == |entries|;
  }

  lemma SizeSet<K, E>(entries: map<K, E>, key: K, entry: E)
    ensures |entries[key := entry]| == |entries| + if key in entries then 0 else 1
  {
    assert entries[key := entry].Keys == entries.Keys + {key};
    assert |entries[key := entry].Keys| == |entries[key := entry]|;
    assert |entries.Keys| == |entries|;
  }

  /** What is left after removing entries: the others unchanged, and none of them older than a removed one. */
  ghost predicate OldestRemoved<K, E>(before: map<K, E>, after: map<K, E>, stamp: E -> int) {
    && after.Keys <= before.Keys
    && (forall k :: k in after ==> after[k] == before[k])
    && (forall gone, kept :: gone in before && gone !in after && kept in after ==> stamp(before[gone]) <= stamp(after[kept]))
  }

  lemma NothingRemoved<K, E>(entries: map<K, E>, stamp: E -> int)
    ensures OldestRemoved(entries, entries, stamp)
  {}

  lemma RemovedIsFewer<K, E>(before: map<K, E>, after: map<K, E>, stamp: E -> int)
    requires OldestRemoved(before, after, stamp)
    ensures after.Keys <= before.Keys && forall k :: k in after ==> after[k] == before[k]
  {}

  lemma OldestRemovedAgain<K, E>(a: map<K, E>, b: map<K, E>, c: map<K, E>, stamp: E -> int)
    requires OldestRemoved(a, b, stamp) && OldestRemoved(b, c, stamp)
    ensures OldestRemoved(a, c, stamp)
  {
    forall gone, kept | gone in a && gone !in c && kept in c ensures stamp(a[gone]) <= stamp(c[kept]) {
      if gone in b {
        assert stamp(b[gone]) <= stamp(c[kept]);
      } else {
        assert kept in b;
      }
    }
  }

  /** evictOldest...Entries: removes the `count` oldest entries, all when there are fewer. Entries of equal age are
      taken in any order, as an unstable sort of a randomly ordered map leaves them. */
  method EvictOldest<K(!new), E>(entries: map<K, E>, stamp: E -> int, weight: E -> nat, count: nat)
    returns (kept: map<K, E>, removed: nat, freed: nat)
    ensures OldestRemoved(entries, kept, stamp)
    ensures Total(entries, weight) == Total(kept, weight) + freed
    ensures removed == (if count < |entries| then count else |entries|) && |kept| == |entries| - removed
  {
    kept, removed, freed := entries, 0, 0;
    while removed < count && kept != map[]
      invariant removed <= count && removed + |kept| == |entries|
      invariant OldestRemoved(entries, kept, stamp)
      invariant Total(entries, weight) == Total(kept, weight) + freed
      decreases |kept|
    {
      OldestExists(kept, stamp);
      var oldest :| oldest in kept && forall k :: k in kept ==> stamp(kept[oldest]) <= stamp(kept[k]);
      SizeRemove(kept, oldest);
      TotalRemove(kept, weight, oldest);
      freed := freed + weight(kept[oldest]);
      kept := kept - {oldest};
      removed := removed + 1;
    }
  }

  lemma {:induction false} OldestExists<K, E>(entries: map<K, E>, stamp: E -> int)
    requires entries != map[]
    ensures exists k :: k in entries && forall j :: j in entries ==> stamp(entries[k]) <= stamp(entries[j])
    decreases |entries|
  {
    var k :| k in entries;
    var rest := entries - {k};
    SizeRemove(entries, k);
    var oldest := k;
    if rest != map[] {
      OldestExists(rest, stamp);
      var m :| m in rest && forall j :: j in rest ==> stamp(rest[m]) <= stamp(rest[j]);
      oldest := if stamp(entries[k]) <= stamp(rest[m]) then k else m;
    }
    assert forall j :: j in entries ==> j == k || j in rest;
    assert forall j :: j in entries ==> stamp(entries[oldest]) <= stamp(entries[j]);
  }

  // ---- The newest entries ----

  lemma {:induction false} TotalFewer<K, E>(entries: map<K, E>, fewer: map<K, E>, weight: E -> nat)
    requires fewer.Keys <= entries.Keys && forall k :: k in fewer ==> fewer[k] == entries[k]
    ensures Total(fewer, weight) <= Total(entries, weight)
    decreases |entries|
  {
    if entries.Keys == fewer.Keys {
      assert entries == fewer;
    } else {
      var k :| k in entries && k !in fewer;
      TotalRemove(entries, weight, k);
      SizeRemove(entries, k);
      TotalFewer(entries - {k}, fewer, weight);
    }
  }

  lemma {:induction false} NewestExist<K, E>(entries: map<K, E>, stamp: E -> int, n: nat) returns (newest: map<K, E>)
    requires n <= |entries|
    ensures OldestRemoved(entries, newest, stamp) && |newest| == n
    decreases |entries|
  {
    if n == |entries| {
      newest := entries;
    } else {
      OldestExists(entries, stamp);
      var oldest :| oldest in entries && forall k :: k in entries ==> stamp(entries[oldest]) <= stamp(entries[k]);
      SizeRemove(entries, oldest);
      newest := NewestExist(entries - {oldest}, stamp, n);
      OldestRemovedAgain(entries, entries - {oldest}, newest, stamp);
    }
  }

  /** Every removed entry is strictly older than every kept one: no tie at the cut. */
  ghost predicate ClearCut<K, E>(before: map<K, E>, after: map<K, E>, stamp: E -> int) {
    OldestRemoved(before, after, stamp)
    && forall gone, kept :: gone in before && gone !in after && kept in after ==> stamp(before[gone]) < stamp(after[kept])
  }

  /** Without a tie at the cut there is only one choice of that many newest entries. */
  lemma NewestUnique<K, E>(entries: map<K, E>, a: map<K, E>, b: map<K, E>, stamp: E -> int)
    requires ClearCut(entries, a, stamp) && OldestRemoved(entries, b, stamp) && |a| == |b|
    ensures a == b
  {
    if !(a.Keys <= b.Keys) {
      var k :| k in a && k !in b;
      assert b.Keys <= a.Keys;
      SmallerKeys(b, a, k);
      assert false;
    } else if a.Keys != b.Keys {
      var k :| k in b && k !in a;
      SmallerKeys(a, b, k);
      assert false;
    }
  }

  lemma SmallerKeys<K, E>(a: map<K, E>, b: map<K, E>, k: K)
    requires a.Keys <= b.Keys && k in b && k !in a
    ensures |a| < |b|
  {
    assert b.Keys == a.Keys + (b.Keys - a.Keys);
    assert k in b.Keys - a.Keys;
    assert |a.Keys| == |a| && |b.Keys| == |b|;
  }

  // ---- Removing expired entries ----

  /** The entries that a purge keeps. */
  ghost function NotBefore<K, E>(entries: map<K, E>, stamp: E -> int, limit: int): map<K, E> {
    map k | k in entries && stamp(entries[k]) >= limit :: entries[k]
  }

  /** The entries of a purge that still has to look at the pending keys; entries older than `limit` are expired. */
  ghost predicate Unexpired<K, E>(before: map<K, E>, entries: map<K, E>, pending: set<K>, stamp: E -> int, limit: int) {
    && entries.Keys <= before.Keys
    && (forall k :: k in entries ==> entries[k] == before[k])
    && (forall k :: k in entries ==> k in pending || stamp(entries[k]) >= limit)
    && (forall k :: k in before && k !in entries ==> stamp(before[k]) < limit)
  }

  lemma UnexpiredStart<K, E>(before: map<K, E>, stamp: E -> int, limit: int)
    ensures Unexpired(before, before, before.Keys, stamp, limit)
  {}

  lemma UnexpiredNext<K, E>(before: map<K, E>, entries: map<K, E>, pending: set<K>, stamp: E -> int, limit: int, key: K)
    requires Unexpired(before, entries, pending, stamp, limit) && key in pending && key in entries
    ensures stamp(entries[key]) < limit ==> Unexpired(before, entries - {key}, pending - {key}, stamp, limit)
    ensures stamp(entries[key]) >= limit ==> Unexpired(before, entries, pending - {key}, stamp, limit)
  {}

  lemma UnexpiredDone<K, E>(before: map<K, E>, entries: map<K, E>, stamp: E -> int, limit: int)
    requires Unexpired(before, entries, {}, stamp, limit)
    ensures entries == NotBefore(before, stamp, limit)
  {}
}
