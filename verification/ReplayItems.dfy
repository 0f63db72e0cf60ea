/** Replay items of the Antigravity cache: normalization, prefixes, and the limits of one chain. */
module ReplayItems {
  import opened Wrappers
  import opened Bytes

  const MAX_ITEMS: nat := 4096
  const MAX_BYTES: nat := 16 * 0x10_0000

  function ItemBytes(items: seq<bytes>): nat {
    if items == [] then 0 else |items[0]| + ItemBytes(items[1..])
  }

  /** The items that normalize, normalized. `normalize` stands for the JSON rewriting of one item. */
  function NormalizeEach(normalize: bytes -> Option<bytes>, items: seq<bytes>): (r: seq<bytes>)
    ensures |r| <= |items|
  {
    if items == [] then []
    else
      var rest := NormalizeEach(normalize, items[1..]);
      match normalize(items[0])
      case None => rest
      case Some(item) => [item] + rest
  }

  /** normalizeAntigravityReasoningReplayItems: None when there are too many items, too many bytes, or none left. */
  function Normalize(normalize: bytes -> Option<bytes>, items: seq<bytes>): (r: Option<seq<bytes>>)
    ensures r.Some? ==> r.value != [] && |r.value| <= MAX_ITEMS && ItemBytes(r.value) <= MAX_BYTES
  {
    var each := NormalizeEach(normalize, items);
    if |items| > MAX_ITEMS || ItemBytes(each) > MAX_BYTES || each == [] then None else Some(each)
  }

  ghost predicate Idempotent(normalize: bytes -> Option<bytes>) {
    forall item :: normalize(item).Some? ==> normalize(normalize(item).value) == normalize(item)
  }

  ghost predicate Normal(normalize: bytes -> Option<bytes>, items: seq<bytes>) {
    forall i :: 0 <= i < |items| ==> normalize(items[i]) == Some(items[i])
  }

  lemma {:induction false} NormalizeEachNormal(normalize: bytes -> Option<bytes>, items: seq<bytes>)
    requires Idempotent(normalize)
    ensures Normal(normalize, NormalizeEach(normalize, items))
  {
    if items != [] {
      NormalizeEachNormal(normalize, items[1..]);
    }
  }

  lemma {:induction false} NormalStays(normalize: bytes -> Option<bytes>, items: seq<bytes>)
    requires Normal(normalize, items)
    ensures NormalizeEach(normalize, items) == items
  {
    if items != [] {
      assert forall i :: 0 <= i < |items| - 1 ==> items[1..][i] == items[i + 1];
      NormalStays(normalize, items[1..]);
    }
  }

  /** What was normalized once is found unchanged when it is read back. */
  lemma NormalizeTwice(normalize: bytes -> Option<bytes>, items: seq<bytes>)
    requires Idempotent(normalize)
    ensures Normalize(normalize, items).Some? ==>
      Normalize(normalize, Normalize(normalize, items).value) == Normalize(normalize, items)
  {
    if Normalize(normalize, items).Some? {
      NormalizeEachNormal(normalize, items);
      NormalStays(normalize, NormalizeEach(normalize, items));
    }
  }

  // ---- When a chain normalizes, and to what ----

  lemma {:induction false} ItemBytesIs(items: seq<bytes>)
    ensures ItemBytes(items) == TotalLength(items)
    decreases |items|
  {
    if items != [] {
      ItemBytesIs(items[..|items| - 1]);
      ItemBytesSnoc(items[..|items| - 1], items[|items| - 1]);
      assert items == items[..|items| - 1] + [items[|items| - 1]];
    }
  }

  lemma {:induction false} ItemBytesSnoc(items: seq<bytes>, item: bytes)
    ensures ItemBytes(items + [item]) == ItemBytes(items) + |item|
  {
    if items == [] {
      assert [item][1..] == [];
    } else {
      assert (items + [item])[1..] == items[1..] + [item];
      ItemBytesSnoc(items[1..], item);
    }
  }

  /** Positions in increasing order: exactly those of the items that normalize. */
  ghost predicate Accepted(normalize: bytes -> Option<bytes>, items: seq<bytes>, picks: seq<nat>) {
    && (forall k :: 0 <= k < |picks| ==> picks[k] < |items| && normalize(items[picks[k]]).Some?)
    && (forall j, k :: 0 <= j < k < |picks| ==> picks[j] < picks[k])
    && (forall i :: 0 <= i < |items| && normalize(items[i]).Some? ==> i in picks)
  }

  /** The normal forms of the items at these positions. */
  function Picked(normalize: bytes -> Option<bytes>, items: seq<bytes>, picks: seq<nat>): seq<bytes>
    requires forall k :: 0 <= k < |picks| ==> picks[k] < |items| && normalize(items[picks[k]]).Some?
  {
    seq(|picks|, k requires 0 <= k < |picks| => normalize(items[picks[k]]).value)
  }

  lemma {:induction false} EachSnoc(normalize: bytes -> Option<bytes>, items: seq<bytes>, item: bytes)
    ensures NormalizeEach(normalize, items + [item])
         == NormalizeEach(normalize, items) + if normalize(item).Some? then [normalize(item).value] else []
  {
    if items == [] {
      assert [item][1..] == [];
    } else {
      assert (items + [item])[1..] == items[1..] + [item];
      EachSnoc(normalize, items[1..], item);
    }
  }

  lemma {:induction false} EachIsPicked(normalize: bytes -> Option<bytes>, items: seq<bytes>) returns (picks: seq<nat>)
    ensures Accepted(normalize, items, picks) && NormalizeEach(normalize, items) == Picked(normalize, items, picks)
    decreases |items|
  {
    picks := [];
    if items != [] {
      var n := |items| - 1;
      hide Accepted, Picked, NormalizeEach;
      picks := EachIsPicked(normalize, items[..n]);
      EachSnoc(normalize, items[..n], items[n]);
      assert items == items[..n] + [items[n]];
      AcceptedStays(normalize, items[..n], items[n], picks);
      if normalize(items[n]).Some? {
        AcceptedMore(normalize, items[..n], items[n], picks);
        picks := picks + [n];
      }
    }
  }

  lemma AcceptedStays(normalize: bytes -> Option<bytes>, front: seq<bytes>, item: bytes, picks: seq<nat>)
    requires Accepted(normalize, front, picks)
    ensures forall k :: 0 <= k < |picks| ==> picks[k] < |front + [item]| && normalize((front + [item])[picks[k]]).Some?
    ensures Picked(normalize, front + [item], picks) == Picked(normalize, front, picks)
    ensures normalize(item).None? ==> Accepted(normalize, front + [item], picks)
  {
    var items := front + [item];
    assert forall k :: 0 <= k < |picks| ==> items[picks[k]] == front[picks[k]];
    forall i | 0 <= i < |items| && normalize(items[i]).Some? && normalize(item).None? ensures i in picks {
      assert i < |front| && items[i] == front[i];
    }
  }

  lemma AcceptedMore(normalize: bytes -> Option<bytes>, front: seq<bytes>, item: bytes, picks: seq<nat>)
    requires Accepted(normalize, front, picks) && normalize(item).Some?
    ensures Accepted(normalize, front + [item], picks + [|front|])
    ensures Picked(normalize, front + [item], picks + [|front|]) == Picked(normalize, front, picks) + [normalize(item).value]
  {
    var items, more := front + [item], picks + [|front|];
    assert items[|front|] == item;
    forall k | 0 <= k < |more| ensures more[k] < |items| && normalize(items[more[k]]).Some? {
      assert k < |picks| ==> items[picks[k]] == front[picks[k]];
    }
    forall i | 0 <= i < |items| && normalize(items[i]).Some? ensures i in more {
      assert more[|picks|] == |front|;
      assert i < |front| ==> items[i] == front[i];
    }
    forall k | 0 <= k < |more|
      ensures normalize(items[more[k]]).value == (Picked(normalize, front, picks) + [normalize(item).value])[k]
    {
      assert k < |picks| ==> items[picks[k]] == front[picks[k]];
    }
  }

  /** A chain normalizes if and only if it has at most 4096 items, some of which normalize, to at most 16 MiB; then to the normal
      forms of exactly those items, in their order. */
  lemma NormalizeIs(normalize: bytes -> Option<bytes>, items: seq<bytes>) returns (picks: seq<nat>)
    ensures Accepted(normalize, items, picks)
    ensures Normalize(normalize, items)
         == if |items| <= 4096 && picks != [] && TotalLength(Picked(normalize, items, picks)) <= 16777216
            then Some(Picked(normalize, items, picks)) else None
  {
    picks := EachIsPicked(normalize, items);
    ItemBytesIs(NormalizeEach(normalize, items));
  }

  /** A chain of normal items within the limits, whole, is its own normal form. */
  ghost predicate NormalChain(normalize: bytes -> Option<bytes>, chain: seq<bytes>) {
    chain != [] && |chain| <= 4096 && TotalLength(chain) <= 16777216
    && forall i :: 0 <= i < |chain| ==> normalize(chain[i]) == Some(chain[i])
  }

  lemma NormalChainStays(normalize: bytes -> Option<bytes>, chain: seq<bytes>)
    requires NormalChain(normalize, chain)
    ensures Normalize(normalize, chain) == Some(chain)
  {
    NormalStays(normalize, chain);
    ItemBytesIs(chain);
  }
}
