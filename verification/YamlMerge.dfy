/**
 * The comment-preserving merge on values: what the destination holds after a source tree has been merged into it, and
 * that it then reads back as the source.
 */
module YamlMerge {
  import opened Wrappers
  import opened YamlTree

  // ---- The merge ----

  function PairsOf(d: Tree, s: Tree): (r: seq<Pair>)
    requires s.Mapping?
  {
    if d.Mapping? then d.pairs else s.pairs
  }

  function ItemsOf(d: Tree): seq<Tree> {
    if d.Sequence? then d.items else []
  }

  /** mergeNodePreserve. */
  function Merge(d: Tree, s: Tree, path: Path): (r: Tree)
    ensures r.Mapping? <==> s.Mapping?
    decreases s, 1, 0
  {
    match s
    case Scalar(_, _) => s
    case Mapping(pairs) => Mapping(MergePairs(PairsOf(d, s), s, |pairs|, path))
    case Sequence(items) =>
      if d.Scalar? && d.tag == NULL && items == [] then d
      else Sequence(seq(|items|, i requires 0 <= i < |items| => MergeItem(ItemsOf(d), s, i, path)))
  }

  /** mergeMappingPreserve, whatever the two trees are. */
  function MergeRoots(d: Tree, s: Tree, path: Path): Tree {
    if d.Mapping? && s.Mapping? then Merge(d, s, path) else s
  }

  /** The i-th element: merged into the element that it took, or copied. */
  function MergeItem(original: seq<Tree>, s: Tree, i: nat, path: Path): (r: Tree)
    requires s.Sequence? && i < |s.items|
    decreases s, 0, i
  {
    var taken := MatchOf(original, s.items, i);
    if taken < 0 then s.items[i]
    else MergeElement(original[taken], s.items[i], path)
  }

  function MergeElement(e: Tree, t: Tree, path: Path): Tree
    decreases t, 2, 0
  {
    var merged := Merge(e, t, path);
    if t.Mapping? then Mapping(DropMissing(merged.pairs, t.pairs)) else merged
  }

  /** The entries after the first n of s have been merged. */
  function MergePairs(d: seq<Pair>, s: Tree, n: nat, path: Path): (r: seq<Pair>)
    requires s.Mapping? && n <= |s.pairs|
    ensures |r| >= |d|
    decreases s, 0, n
  {
    if n == 0 then d
    else MergeEntry(MergePairs(d, s, n - 1, path), s.pairs[n - 1], path)
  }

  function MergeEntry(d: seq<Pair>, p: Pair, path: Path): (r: seq<Pair>)
    ensures |r| >= |d|
    decreases p.value, 2, 0
  {
    var at, i := path + [p.key], KeyIndex(d, p.key);
    if i >= 0 then d[i := Pair(p.key, Merge(d[i].value, p.value, at))]
    else if IsKnownDefault(at, Prune(at, p.value)) then d
    else d + [Pair(p.key, Prune(at, p.value))]
  }

  function KeptKeys(s: seq<Pair>): set<string> {
    set i | 0 <= i < |s| && Trim(s[i].key) != "" :: Trim(s[i].key)
  }

  /** The entries of d whose trimmed key is the trimmed, non-blank key of an entry of s. */
  function DropMissing(d: seq<Pair>, s: seq<Pair>): (r: seq<Pair>) {
    if d == [] then []
    else
      var rest := DropMissing(d[..|d| - 1], s);
      if Trim(d[|d| - 1].key) in KeptKeys(s) then rest + [d[|d| - 1]] else rest
  }

  // ---- Reading back ----

  /** The merged value m means what s means: null stands for an empty list, and an entry may be left out when its pruned
      value is a known default. */
  ghost predicate ReadsAs(m: Tree, s: Tree, path: Path) {
    match s
    case Scalar(_, _) => m == s
    case Sequence(items) =>
      || (m.Scalar? && m.tag == NULL && items == [])
      || (m.Sequence? && |m.items| == |items| && forall i :: 0 <= i < |items| ==> ReadsAs(m.items[i], items[i], path))
    case Mapping(pairs) =>
      m.Mapping? && forall i :: 0 <= i < |pairs| ==>
        match Lookup(m.pairs, pairs[i].key)
        case None => IsKnownDefault(path + [pairs[i].key], Prune(path + [pairs[i].key], pairs[i].value))
        case Some(v) => ReadsAs(v, pairs[i].value, path + [pairs[i].key])
  }

  // ---- What the merged mapping holds ----

  ghost predicate HasKey(s: seq<Pair>, n: nat, key: string)
    requires n <= |s|
  {
    exists j :: 0 <= j < n && s[j].key == key
  }

  function Expected(d: seq<Pair>, p: Pair, path: Path): Option<Tree> {
    var at := path + [p.key];
    match Lookup(d, p.key)
    case Some(v) => Some(Merge(v, p.value, at))
    case None => if IsKnownDefault(at, Prune(at, p.value)) then None else Some(Prune(at, p.value))
  }

  lemma LookupUpdated(pairs: seq<Pair>, i: nat, v: Tree, key: string)
    requires i < |pairs| && KeyIndex(pairs, pairs[i].key) == i
    ensures Lookup(pairs[i := Pair(pairs[i].key, v)], key) == if key == pairs[i].key then Some(v) else Lookup(pairs, key)
  {
    var more := pairs[i := Pair(pairs[i].key, v)];
    var r := KeyIndex(pairs, key);
    if r < 0 {
      IndexIsNot(more, key);
    } else {
      IndexIs(more, r, key);
    }
  }

  lemma LookupAppended(pairs: seq<Pair>, p: Pair, key: string)
    ensures Lookup(pairs + [p], key) == if key == p.key && Lookup(pairs, key) == None then Some(p.value) else Lookup(pairs, key)
  {
    assert (pairs + [p])[..|pairs|] == pairs;
  }

  /** A key that the source does not have keeps its value. */
  lemma {:induction false} OtherKeyKept(d: seq<Pair>, s: Tree, n: nat, path: Path, key: string)
    requires s.Mapping? && n <= |s.pairs| && !HasKey(s.pairs, n, key)
    ensures Lookup(MergePairs(d, s, n, path), key) == Lookup(d, key)
    decreases n
  {
    hide Lookup, Merge, Prune, IsKnownDefault;
    if n > 0 {
      OtherKeyKept(d, s, n - 1, path, key);
      MergePairLookup(d, s, n, path, key);
    }
  }

  lemma MergePairLookup(d: seq<Pair>, s: Tree, n: nat, path: Path, key: string)
    requires s.Mapping? && 0 < n <= |s.pairs|
    ensures Lookup(MergePairs(d, s, n, path), key)
         == if key == s.pairs[n - 1].key then Expected(MergePairs(d, s, n - 1, path), s.pairs[n - 1], path)
            else Lookup(MergePairs(d, s, n - 1, path), key)
  {
    hide Merge, Prune, IsKnownDefault;
    var acc, p := MergePairs(d, s, n - 1, path), s.pairs[n - 1];
    var at, i := path + [p.key], KeyIndex(acc, p.key);
    if i >= 0 {
      LookupUpdated(acc, i, Merge(acc[i].value, p.value, at), key);
    } else {
      LookupAppended(acc, Pair(p.key, Prune(at, p.value)), key);
    }
  }

  /** A key of the source has the merged value where the destination had the key; otherwise it has the pruned value, unless
      that is a known default. */
  lemma {:induction false} SourceKeyMerged(d: seq<Pair>, s: Tree, n: nat, path: Path, j: nat)
    requires s.Mapping? && j < n <= |s.pairs| && Distinct(s.pairs)
    ensures Lookup(MergePairs(d, s, n, path), s.pairs[j].key) == Expected(d, s.pairs[j], path)
    decreases n
  {
    hide Lookup, Merge, Prune, IsKnownDefault, MergePairs;
    MergePairLookup(d, s, n, path, s.pairs[j].key);
    if j < n - 1 {
      SourceKeyMerged(d, s, n - 1, path, j);
    } else {
      OtherKeyKept(d, s, n - 1, path, s.pairs[j].key);
    }
  }

  /** The keys that a merge adds, in the order of the source. */
  function NewKeys(d: seq<Pair>, s: Tree, n: nat, path: Path): seq<string>
    requires s.Mapping? && n <= |s.pairs|
  {
    if n == 0 then []
    else
      var rest, p := NewKeys(d, s, n - 1, path), s.pairs[n - 1];
      if KeyIndex(d, p.key) < 0 && !IsKnownDefault(path + [p.key], Prune(path + [p.key], p.value)) then rest + [p.key] else rest
  }

  lemma SameIndex(a: seq<Pair>, b: seq<Pair>, key: string)
    requires Lookup(a, key) == Lookup(b, key)
    ensures KeyIndex(a, key) < 0 <==> KeyIndex(b, key) < 0
  {}

  lemma KeysUpdated(pairs: seq<Pair>, i: nat, v: Tree)
    requires i < |pairs|
    ensures Keys(pairs[i := Pair(pairs[i].key, v)]) == Keys(pairs)
  {}

  lemma KeysAppended(pairs: seq<Pair>, p: Pair)
    ensures Keys(pairs + [p]) == Keys(pairs) + [p.key]
  {}

  /** The old keys keep their order and come first, the new ones follow in the order of the source. */
  lemma {:induction false} KeysMerged(d: seq<Pair>, s: Tree, n: nat, path: Path)
    requires s.Mapping? && n <= |s.pairs| && Distinct(s.pairs)
    ensures Keys(MergePairs(d, s, n, path)) == Keys(d) + NewKeys(d, s, n, path)
    decreases n
  {
    hide Merge, Prune, IsKnownDefault, Keys, Lookup;
    if n > 0 {
      KeysMerged(d, s, n - 1, path);
      var acc, p := MergePairs(d, s, n - 1, path), s.pairs[n - 1];
      OtherKeyKept(d, s, n - 1, path, p.key);
      SameIndex(acc, d, p.key);
      var i := KeyIndex(acc, p.key);
      if i >= 0 {
        KeysUpdated(acc, i, Merge(acc[i].value, p.value, path + [p.key]));
      } else {
        KeysAppended(acc, Pair(p.key, Prune(path + [p.key], p.value)));
      }
    }
  }

  // ---- Pruned values read back ----

  lemma {:induction false} PruneZero(path: Path, t: Tree)
    requires IsZero(t)
    ensures IsZero(Prune(path, t))
    decreases t, 0
  {
    match t
    case Scalar(_, _) =>
    case Sequence(items) =>
      forall i | 0 <= i < |items| ensures IsZero(Prune(path, items[i])) {
        PruneZero(path, items[i]);
      }
    case Mapping(pairs) =>
      PrunePairsZero(path, t, |pairs|);
  }

  lemma {:induction false} PrunePairsZero(path: Path, t: Tree, n: nat)
    requires t.Mapping? && IsZero(t) && n <= |t.pairs|
    ensures forall i :: 0 <= i < |PrunePairs(path, t, n)| ==> IsZero(PrunePairs(path, t, n)[i].value)
    decreases t, 0, n
  {
    hide IsKnownDefault, IsEmptyCollection;
    if n > 0 {
      PrunePairsZero(path, t, n - 1);
      PruneZero(path + [t.pairs[n - 1].key], t.pairs[n - 1].value);
    }
  }

  /** Pruning a default leaves a default; so does pruning a value to an empty collection. */
  lemma DroppedIsDefault(path: Path, t: Tree)
    requires IsKnownDefault(path, t) || IsEmptyCollection(Prune(path, t))
    ensures IsKnownDefault(path, Prune(path, t))
  {
    if IsKnownDefault(path, t) && IsZero(t) {
      PruneZero(path, t);
    }
  }

  ghost predicate Dropped(path: Path, p: Pair) {
    IsKnownDefault(path + [p.key], p.value) || IsEmptyCollection(Prune(path + [p.key], p.value))
  }

  lemma {:induction false} LookupPruned(path: Path, t: Tree, n: nat, key: string)
    requires t.Mapping? && n <= |t.pairs|
    ensures !HasKey(t.pairs, n, key) ==> Lookup(PrunePairs(path, t, n), key) == None
    decreases n
  {
    hide IsKnownDefault, IsEmptyCollection, Prune;
    if n > 0 {
      LookupPruned(path, t, n - 1, key);
      assert HasKey(t.pairs, n - 1, key) ==> HasKey(t.pairs, n, key);
      PrunePairLookup(path, t, n, key);
    }
  }

  lemma PrunePairLookup(path: Path, t: Tree, n: nat, key: string)
    requires t.Mapping? && 0 < n <= |t.pairs|
    ensures Lookup(PrunePairs(path, t, n), key)
         == if key == t.pairs[n - 1].key && Lookup(PrunePairs(path, t, n - 1), key) == None && !Dropped(path, t.pairs[n - 1])
            then Some(Prune(path + [key], t.pairs[n - 1].value))
            else Lookup(PrunePairs(path, t, n - 1), key)
  {
    hide IsKnownDefault, IsEmptyCollection, Prune;
    var p := t.pairs[n - 1];
    LookupAppended(PrunePairs(path, t, n - 1), Pair(p.key, Prune(path + [p.key], p.value)), key);
  }

  lemma {:induction false} PrunedEntry(path: Path, t: Tree, n: nat, j: nat)
    requires t.Mapping? && j < n <= |t.pairs| && Distinct(t.pairs)
    ensures Lookup(PrunePairs(path, t, n), t.pairs[j].key)
         == if Dropped(path, t.pairs[j]) then None else Some(Prune(path + [t.pairs[j].key], t.pairs[j].value))
    decreases n
  {
    hide IsKnownDefault, IsEmptyCollection, Prune, PrunePairs, Lookup, Dropped;
    LookupPruned(path, t, n - 1, t.pairs[n - 1].key);
    PrunePairLookup(path, t, n, t.pairs[j].key);
    if j < n - 1 {
      PrunedEntry(path, t, n - 1, j);
    }
  }

  /** A pruned value reads as the value. */
  lemma {:induction false} PruneReadsBack(path: Path, t: Tree)
    requires UniqueKeys(t)
    ensures ReadsAs(Prune(path, t), t, path)
    decreases t
  {
    hide Lookup, IsKnownDefault, IsEmptyCollection;
    match t
    case Scalar(_, _) =>
    case Sequence(items) =>
      forall i | 0 <= i < |items| ensures ReadsAs(Prune(path, items[i]), items[i], path) {
        PruneReadsBack(path, items[i]);
      }
    case Mapping(pairs) =>
      forall i | 0 <= i < |pairs|
        ensures match Lookup(Prune(path, t).pairs, pairs[i].key)
                case None => IsKnownDefault(path + [pairs[i].key], Prune(path + [pairs[i].key], pairs[i].value))
                case Some(v) => ReadsAs(v, pairs[i].value, path + [pairs[i].key])
      {
        PrunedEntry(path, t, |pairs|, i);
        if Dropped(path, pairs[i]) {
          DroppedIsDefault(path + [pairs[i].key], pairs[i].value);
        } else {
          PruneReadsBack(path + [pairs[i].key], pairs[i].value);
        }
      }
  }

  lemma {:induction false} SelfReadsBack(path: Path, t: Tree)
    requires UniqueKeys(t)
    ensures ReadsAs(t, t, path)
    decreases t
  {
    hide IsKnownDefault;
    match t
    case Scalar(_, _) =>
    case Sequence(items) =>
      forall i | 0 <= i < |items| ensures ReadsAs(items[i], items[i], path) {
        SelfReadsBack(path, items[i]);
      }
    case Mapping(pairs) =>
      forall i | 0 <= i < |pairs|
        ensures Lookup(pairs, pairs[i].key) == Some(pairs[i].value) && ReadsAs(pairs[i].value, pairs[i].value, path + [pairs[i].key])
      {
        IndexIs(pairs, i, pairs[i].key);
        SelfReadsBack(path + [pairs[i].key], pairs[i].value);
      }
  }

  // ---- When the merged value reads back ----

  ghost predicate SurvivesEntry(d: seq<Pair>, p: Pair, path: Path)
    decreases p.value, 1
  {
    match Lookup(d, p.key)
    case None => true
    case Some(v) => Survives(v, p.value, path + [p.key])
  }

  /** No blank key of a mapping that takes the place of an old list element is lost with a value that matters. */
  ghost predicate Survives(d: Tree, s: Tree, path: Path)
    decreases s, 0
  {
    match s
    case Scalar(_, _) => true
    case Mapping(pairs) => forall j :: 0 <= j < |pairs| ==> SurvivesEntry(PairsOf(d, s), pairs[j], path)
    case Sequence(items) =>
      forall i :: 0 <= i < |items| ==>
        var taken := MatchOf(ItemsOf(d), items, i);
        taken >= 0 ==> SurvivesIn(ItemsOf(d)[taken], items[i], path)
  }

  ghost predicate SurvivesIn(e: Tree, s: Tree, path: Path)
    decreases s, 1
  {
    if s.Mapping? then
      forall j :: 0 <= j < |s.pairs| ==>
        if Trim(s.pairs[j].key) == "" then
          IsKnownDefault(path + [s.pairs[j].key], Prune(path + [s.pairs[j].key], s.pairs[j].value))
        else SurvivesEntry(PairsOf(e, s), s.pairs[j], path)
    else Survives(e, s, path)
  }

  ghost predicate ReadsEntry(m: seq<Pair>, p: Pair, path: Path) {
    match Lookup(m, p.key)
    case None => IsKnownDefault(path + [p.key], Prune(path + [p.key], p.value))
    case Some(v) => ReadsAs(v, p.value, path + [p.key])
  }

  lemma LookupDropped(d: seq<Pair>, s: seq<Pair>, key: string)
    ensures Lookup(DropMissing(d, s), key) == if Trim(key) in KeptKeys(s) then Lookup(d, key) else None
    decreases |d|
  {
    hide Trim, KeptKeys;
    if d != [] {
      var front, last := d[..|d| - 1], d[|d| - 1];
      LookupDropped(front, s, key);
      assert d == front + [last];
      LookupAppended(front, last, key);
      LookupAppended(DropMissing(front, s), last, key);
    }
  }

  lemma {:induction false} EntryReadsBack(d: seq<Pair>, s: Tree, j: nat, path: Path)
    requires s.Mapping? && UniqueKeys(s) && j < |s.pairs|
    ensures ReadsEntry(MergePairs(d, s, |s.pairs|, path), s.pairs[j], path) <==> SurvivesEntry(d, s.pairs[j], path)
    decreases s, 0
  {
    hide MergePairs, IsKnownDefault, Lookup, Merge, Prune, ReadsAs, Survives;
    var p := s.pairs[j];
    SourceKeyMerged(d, s, |s.pairs|, path, j);
    if Lookup(d, p.key) == None {
      PruneReadsBack(path + [p.key], p.value);
    } else {
      MergeReadsBack(Lookup(d, p.key).value, p.value, path + [p.key]);
    }
  }

  lemma {:induction false} ItemReadsBack(original: seq<Tree>, s: Tree, i: nat, path: Path)
    requires s.Sequence? && UniqueKeys(s) && i < |s.items|
    ensures var taken := MatchOf(original, s.items, i);
            ReadsAs(MergeItem(original, s, i, path), s.items[i], path)
            <==> (taken >= 0 ==> SurvivesIn(original[taken], s.items[i], path))
    decreases s, 0
  {
    hide IsKnownDefault, Lookup, Merge, Prune, ReadsAs, Survives, SurvivesIn, DropMissing, MatchOf;
    var t, taken := s.items[i], MatchOf(original, s.items, i);
    if taken < 0 {
      SelfReadsBack(path, t);
    } else if t.Mapping? {
      MappingItemReadsBack(original[taken], t, path);
    } else {
      MergeReadsBack(original[taken], t, path);
      assert SurvivesIn(original[taken], t, path) == Survives(original[taken], t, path) by {
        SurvivesPlain(original[taken], t, path);
      }
    }
  }

  lemma SurvivesPlain(e: Tree, s: Tree, path: Path)
    requires !s.Mapping?
    ensures SurvivesIn(e, s, path) == Survives(e, s, path)
  {}

  lemma {:induction false} MappingItemReadsBack(e: Tree, s: Tree, path: Path)
    requires s.Mapping? && UniqueKeys(s)
    ensures ReadsAs(Mapping(DropMissing(Merge(e, s, path).pairs, s.pairs)), s, path) <==> SurvivesIn(e, s, path)
    decreases s, 1
  {
    hide IsKnownDefault, Lookup, Prune, Survives, SurvivesEntry, DropMissing, MergePairs;
    var d, m := PairsOf(e, s), DropMissing(Merge(e, s, path).pairs, s.pairs);
    forall j | 0 <= j < |s.pairs|
      ensures ReadsEntry(m, s.pairs[j], path)
         <==> if Trim(s.pairs[j].key) == "" then
                IsKnownDefault(path + [s.pairs[j].key], Prune(path + [s.pairs[j].key], s.pairs[j].value))
              else SurvivesEntry(d, s.pairs[j], path)
    {
      LookupDropped(Merge(e, s, path).pairs, s.pairs, s.pairs[j].key);
      EntryReadsBack(d, s, j, path);
    }
  }

  /** After the merge the destination reads as the source exactly when no blank key is lost in a list element. */
  lemma {:induction false} MergeReadsBack(d: Tree, s: Tree, path: Path)
    requires UniqueKeys(s)
    ensures ReadsAs(Merge(d, s, path), s, path) <==> Survives(d, s, path)
    decreases s, 2
  {
    hide IsKnownDefault, Lookup, Prune, SurvivesEntry, SurvivesIn, MergePairs, MergeItem, MatchOf;
    match s
    case Scalar(_, _) =>
    case Sequence(items) =>
      forall i | 0 <= i < |items|
        ensures var taken := MatchOf(ItemsOf(d), items, i);
                ReadsAs(MergeItem(ItemsOf(d), s, i, path), items[i], path)
                <==> (taken >= 0 ==> SurvivesIn(ItemsOf(d)[taken], items[i], path))
      {
        ItemReadsBack(ItemsOf(d), s, i, path);
      }
    case Mapping(pairs) =>
      forall j | 0 <= j < |pairs|
        ensures ReadsEntry(Merge(d, s, path).pairs, pairs[j], path) <==> SurvivesEntry(PairsOf(d, s), pairs[j], path)
      {
        EntryReadsBack(PairsOf(d, s), s, j, path);
      }
  }

  /** No mapping that is a list element has a blank key. */
  ghost predicate NoBlankKeys(s: Tree, element: bool) {
    match s
    case Scalar(_, _) => true
    case Sequence(items) => forall i :: 0 <= i < |items| ==> NoBlankKeys(items[i], true)
    case Mapping(pairs) =>
      forall j :: 0 <= j < |pairs| ==> (element ==> Trim(pairs[j].key) != "") && NoBlankKeys(pairs[j].value, false)
  }

  lemma {:induction false} NoBlankSurvives(d: Tree, s: Tree, path: Path, element: bool)
    requires NoBlankKeys(s, element)
    ensures if element then SurvivesIn(d, s, path) else Survives(d, s, path)
    decreases s
  {
    hide IsKnownDefault, Prune, Lookup, MatchOf;
    match s
    case Scalar(_, _) =>
    case Sequence(items) =>
      forall i | 0 <= i < |items| && MatchOf(ItemsOf(d), items, i) >= 0
        ensures SurvivesIn(ItemsOf(d)[MatchOf(ItemsOf(d), items, i)], items[i], path)
      {
        NoBlankSurvives(ItemsOf(d)[MatchOf(ItemsOf(d), items, i)], items[i], path, true);
      }
    case Mapping(pairs) =>
      forall j | 0 <= j < |pairs| ensures SurvivesEntry(PairsOf(d, s), pairs[j], path) {
        var v := Lookup(PairsOf(d, s), pairs[j].key);
        if v.Some? {
          NoBlankSurvives(v.value, pairs[j].value, path + [pairs[j].key], false);
        }
      }
  }

  /** Without blank keys in list elements every destination reads as the source after the merge. */
  lemma MergeFaithful(d: Tree, s: Tree, path: Path)
    requires UniqueKeys(s) && NoBlankKeys(s, false)
    ensures ReadsAs(Merge(d, s, path), s, path)
  {
    NoBlankSurvives(d, s, path, false);
    MergeReadsBack(d, s, path);
  }

  lemma MergeRootsFaithful(d: Tree, s: Tree, path: Path)
    requires UniqueKeys(s) && NoBlankKeys(s, false)
    ensures ReadsAs(MergeRoots(d, s, path), s, path)
  {
    MergeFaithful(d, s, path);
    SelfReadsBack(path, s);
  }

  /** With one, even merging a tree into itself loses the entry. */
  lemma BlankKeyIsLost()
    ensures var s := Sequence([Mapping([Pair("", Scalar(STR, "b"))])]);
            UniqueKeys(s) && Merge(s, s, ["list"]) == Sequence([Mapping([])])
            && !ReadsAs(Merge(s, s, ["list"]), s, ["list"])
  {
    hide IsKnownDefault, SameIdentity;
    var p := Pair("", Scalar(STR, "b"));
    var element := Mapping([p]);
    var s := Sequence([element]);
    assert [p][..0] == [] && [p][0] == p;
    assert MatchOf(s.items, s.items, 0) == 0 by {
      assert StructurallyEqual(element, element);
    }
    assert MergePairs([p], element, 1, ["list"]) == [p] by {
      IndexIs([p], 0, "");
    }
    assert DropMissing([p], [p]) == [] by {
      assert Trim("") == "";
      assert "" !in KeptKeys([p]);
    }
    assert UniqueKeys(p.value) && UniqueKeys(element);
    assert Merge(element, element, ["list"]) == Mapping([p]);
    assert MergeItem(s.items, s, 0, ["list"]) == Mapping([]);
    assert Merge(s, s, ["list"]).items == [Mapping([])];
    assert Lookup([], "") == None;
    assert !IsKnownDefault(["list"] + [""], p.value) by {
      DefaultStrings(["list"], "", "b");
    }
    assert element.pairs[0].key == "";
  }

  lemma DefaultStrings(path: Path, key: string, value: string)
    requires value != "" && value !in [PPROF_ADDR, PANEL_REPOSITORY, "plugins", "round-robin"]
    ensures !IsKnownDefault(path + [key], Scalar(STR, value))
  {}

  // ---- What stays of the destination ----

  function LookupAt(t: Tree, keys: seq<string>): Option<Tree> {
    if keys == [] then Some(t)
    else if !t.Mapping? then None
    else match Lookup(t.pairs, keys[0])
      case None => None
      case Some(v) => LookupAt(v, keys[1..])
  }

  /** The keys lead through mappings that both trees have to an entry that the source lacks. */
  ghost predicate OnlyInDestination(d: Tree, s: Tree, keys: seq<string>)
    decreases |keys|
  {
    keys != [] && d.Mapping? && s.Mapping?
    && match (Lookup(d.pairs, keys[0]), Lookup(s.pairs, keys[0]))
       case (Some(v), Some(w)) => OnlyInDestination(v, w, keys[1..])
       case (Some(_), None) => true
       case _ => false
  }

  /** Whatever lies below such an entry is as it was. */
  lemma {:induction false} DestinationOnlyKept(d: Tree, s: Tree, path: Path, keys: seq<string>)
    requires UniqueKeys(s) && OnlyInDestination(d, s, keys)
    ensures LookupAt(Merge(d, s, path), keys) == LookupAt(d, keys)
    decreases |keys|
  {
    hide IsKnownDefault, Prune, MergePairs;
    var n := |s.pairs|;
    var j := KeyIndex(s.pairs, keys[0]);
    if j < 0 {
      OtherKeyKept(d.pairs, s, n, path, keys[0]);
    } else {
      SourceKeyMerged(d.pairs, s, n, path, j);
      DestinationOnlyKept(Lookup(d.pairs, keys[0]).value, s.pairs[j].value, path + [keys[0]], keys[1..]);
    }
  }

  // ---- Weights ----

  /** A step down a tree: to the value of a key, or to an element of a list. */
  datatype Step = Key(key: string) | Item(index: nat)

  function At(t: Tree, steps: seq<Step>): Option<Tree> {
    if steps == [] then Some(t)
    else match steps[0]
      case Key(k) =>
        if !t.Mapping? || Lookup(t.pairs, k) == None then None else At(Lookup(t.pairs, k).value, steps[1..])
      case Item(i) =>
        if !t.Sequence? || i >= |t.items| then None else At(t.items[i], steps[1..])
  }

  /** The steps, through mappings and lists, lead to an explicit weight. */
  ghost predicate LeadsToWeight(t: Tree, steps: seq<Step>, w: Tree) {
    steps != [] && steps[|steps| - 1] == Key("weight") && w.Scalar? && w.tag == INT && At(t, steps) == Some(w)
  }

  lemma LeadsOn(t: Tree, steps: seq<Step>, w: Tree)
    requires LeadsToWeight(t, steps, w) && |steps| > 1
    ensures match steps[0]
            case Key(k) =>
              t.Mapping? && Lookup(t.pairs, k).Some? && !Lookup(t.pairs, k).value.Scalar?
              && LeadsToWeight(Lookup(t.pairs, k).value, steps[1..], w)
            case Item(i) => t.Sequence? && i < |t.items| && LeadsToWeight(t.items[i], steps[1..], w)
  {
    assert steps[1..][|steps| - 2] == steps[|steps| - 1];
    if steps[0].Key? && t.Mapping? && Lookup(t.pairs, steps[0].key).Some? {
      CollectionAt(Lookup(t.pairs, steps[0].key).value, steps[1..]);
    }
  }

  lemma CollectionAt(t: Tree, steps: seq<Step>)
    requires steps != []
    ensures At(t, steps).Some? ==> !t.Scalar?
  {}

  lemma LeadsDirectly(t: Tree, steps: seq<Step>, w: Tree)
    requires LeadsToWeight(t, steps, w) && |steps| == 1
    ensures steps == [Key("weight")] && t.Mapping? && Lookup(t.pairs, "weight") == Some(w) && At(w, steps[1..]) == Some(w)
  {
    assert steps[1..] == [];
    assert forall v :: At(v, []) == Some(v);
  }

  /** No value of a mapping strictly between the tree and the weight is zero throughout; elements of lists are not tested. */
  ghost predicate NonZeroBetween(t: Tree, steps: seq<Step>)
    decreases |steps|
  {
    |steps| <= 1 ||
    match steps[0]
    case Key(k) =>
      !t.Mapping? || Lookup(t.pairs, k) == None
      || (!IsZero(Lookup(t.pairs, k).value) && NonZeroBetween(Lookup(t.pairs, k).value, steps[1..]))
    case Item(i) =>
      !t.Sequence? || i >= |t.items| || NonZeroBetween(t.items[i], steps[1..])
  }

  /** A weight inside a new value is kept by pruning exactly when no mapping value between is zero: these are tested before
      they are pruned, and the weight in them counts as zero. */
  lemma {:induction false} WeightPruned(path: Path, t: Tree, steps: seq<Step>, w: Tree)
    requires UniqueKeys(t) && LeadsToWeight(t, steps, w)
    ensures At(Prune(path, t), steps) == if NonZeroBetween(t, steps) then Some(w) else None
    decreases |steps|
  {
    hide PrunePairs, UniqueKeys, IsZero, IsNamedDefault, At, NonZeroBetween;
    if |steps| == 1 {
      LeadsDirectly(t, steps, w);
      DirectWeightPruned(path, t, steps, w);
    } else {
      LeadsOn(t, steps, w);
      match steps[0]
      case Key(k) =>
        var j := KeyIndex(t.pairs, k);
        var v, at := t.pairs[j].value, path + [k];
        UniqueValue(t, j);
        PrunedEntry(path, t, |t.pairs|, j);
        CollectionDefault(at, v);
        WeightPruned(at, v, steps[1..], w);
        KeyStep(t, steps);
        KeyStep(Prune(path, t), steps);
        EmptyHasNothing(Prune(at, v), steps[1..]);
      case Item(i) =>
        UniqueItem(t, i);
        WeightPruned(path, t.items[i], steps[1..], w);
        ItemStep(t, steps);
        ItemStep(Prune(path, t), steps);
    }
  }

  lemma DirectWeightPruned(path: Path, t: Tree, steps: seq<Step>, w: Tree)
    requires UniqueKeys(t) && steps == [Key("weight")] && t.Mapping? && Lookup(t.pairs, "weight") == Some(w)
    requires w.Scalar? && w.tag == INT
    ensures At(Prune(path, t), steps) == Some(w) && NonZeroBetween(t, steps)
  {
    hide PrunePairs, UniqueKeys, IsZero, IsNamedDefault;
    var j := KeyIndex(t.pairs, "weight");
    UniqueValue(t, j);
    PrunedEntry(path, t, |t.pairs|, j);
    WeightIsNoDefault(path, w);
    assert steps[1..] == [] && At(w, []) == Some(w);
  }

  lemma WeightIsNoDefault(path: Path, w: Tree)
    requires w.Scalar? && w.tag == INT
    ensures !IsKnownDefault(path + ["weight"], w) && Prune(path + ["weight"], w) == w
  {}

  lemma KeyStep(t: Tree, steps: seq<Step>)
    requires |steps| > 1 && t.Mapping? && steps[0].Key?
    ensures var v := Lookup(t.pairs, steps[0].key);
            && At(t, steps) == (if v == None then None else At(v.value, steps[1..]))
            && NonZeroBetween(t, steps) == (v == None || (!IsZero(v.value) && NonZeroBetween(v.value, steps[1..])))
  {}

  lemma ItemStep(t: Tree, steps: seq<Step>)
    requires |steps| > 1 && t.Sequence? && steps[0].Item? && steps[0].index < |t.items|
    ensures At(t, steps) == At(t.items[steps[0].index], steps[1..])
    ensures NonZeroBetween(t, steps) == NonZeroBetween(t.items[steps[0].index], steps[1..])
  {}

  lemma CollectionDefault(path: Path, t: Tree)
    requires !t.Scalar?
    ensures IsKnownDefault(path, t) == IsZero(t)
  {}

  lemma UniqueValue(t: Tree, j: nat)
    requires UniqueKeys(t) && t.Mapping? && j < |t.pairs|
    ensures UniqueKeys(t.pairs[j].value) && Distinct(t.pairs)
  {}

  lemma UniqueItem(t: Tree, i: nat)
    requires UniqueKeys(t) && t.Sequence? && i < |t.items|
    ensures UniqueKeys(t.items[i])
  {}

  lemma EmptyHasNothing(t: Tree, steps: seq<Step>)
    requires steps != []
    ensures At(t, steps).Some? ==> !IsEmptyCollection(t)
  {}

  /** Is a weight of the source written? The steps lead through entries and list elements that the destination has (then it
      is), or through an element that takes no old one (then it is), or into an entry that is new: that must not be zero once
      it is pruned, nor any mapping value below it before. An element that takes an old one loses its blank keys. */
  ghost predicate WeightWritten(d: Tree, s: Tree, path: Path, steps: seq<Step>, element: bool)
    decreases |steps|, 1
  {
    steps == [] ||
    match steps[0]
    case Key(k) => !s.Mapping? || ((element ==> Trim(k) != "") && EntryWritten(PairsOf(d, s), s.pairs, path, steps))
    case Item(i) =>
      !s.Sequence? || i >= |s.items| ||
      var taken := MatchOf(ItemsOf(d), s.items, i);
      taken < 0 || WeightWritten(ItemsOf(d)[taken], s.items[i], path, steps[1..], true)
  }

  ghost predicate EntryWritten(d: seq<Pair>, s: seq<Pair>, path: Path, steps: seq<Step>)
    requires steps != [] && steps[0].Key?
    decreases |steps|, 0
  {
    var k := steps[0].key;
    match (Lookup(d, k), Lookup(s, k))
    case (Some(v), Some(w)) => WeightWritten(v, w, path + [k], steps[1..], false)
    case (None, Some(w)) => |steps| == 1 || (!IsZero(Prune(path + [k], w)) && NonZeroBetween(w, steps[1..]))
    case _ => true
  }

  /** An explicit weight of the source, zero included, at any depth below mappings and lists, is written exactly then. */
  lemma {:induction false} NewWeightKept(d: Tree, s: Tree, path: Path, steps: seq<Step>, w: Tree)
    requires UniqueKeys(s) && LeadsToWeight(s, steps, w)
    ensures At(Merge(d, s, path), steps) == if WeightWritten(d, s, path, steps, false) then Some(w) else None
    decreases |steps|, 2
  {
    hide MergePairs, MergeItem, UniqueKeys, IsZero, At, EntryWritten, MatchOf;
    match steps[0]
    case Key(k) =>
      SomeMapping(s, steps, w);
      EntryWeightKept(PairsOf(d, s), s, path, steps, w);
    case Item(i) =>
      SeveralSteps(s, steps, w);
      LeadsOn(s, steps, w);
      ItemStep(s, steps);
      ItemStep(Merge(d, s, path), steps);
      var taken := MatchOf(ItemsOf(d), s.items, i);
      if taken >= 0 {
        UniqueItem(s, i);
        ElementWeightKept(ItemsOf(d)[taken], s.items[i], path, steps[1..], w);
      }
      TakenOrCopied(ItemsOf(d), s, i, path);
  }

  lemma SomeMapping(t: Tree, steps: seq<Step>, w: Tree)
    requires LeadsToWeight(t, steps, w) && steps[0].Key?
    ensures t.Mapping? && Lookup(t.pairs, steps[0].key).Some?
  {}

  lemma SeveralSteps(t: Tree, steps: seq<Step>, w: Tree)
    requires LeadsToWeight(t, steps, w) && steps[0].Item?
    ensures |steps| > 1 && t.Sequence? && steps[0].index < |t.items|
  {}

  lemma TakenOrCopied(original: seq<Tree>, s: Tree, i: nat, path: Path)
    requires s.Sequence? && i < |s.items|
    ensures var taken := MatchOf(original, s.items, i);
            MergeItem(original, s, i, path) == if taken < 0 then s.items[i] else MergeElement(original[taken], s.items[i], path)
  {}

  /** In an element that takes an old one. */
  lemma {:induction false} ElementWeightKept(e: Tree, s: Tree, path: Path, steps: seq<Step>, w: Tree)
    requires UniqueKeys(s) && LeadsToWeight(s, steps, w)
    ensures At(MergeElement(e, s, path), steps) == if WeightWritten(e, s, path, steps, true) then Some(w) else None
    decreases |steps|, 3
  {
    hide MergePairs, MergeItem, UniqueKeys, IsZero, At, EntryWritten, MatchOf, DropMissing, Lookup;
    if s.Mapping? {
      MappingStep(s, steps, w);
      var k := steps[0].key;
      EntryWeightKept(PairsOf(e, s), s, path, steps, w);
      var merged := MergePairs(PairsOf(e, s), s, |s.pairs|, path);
      LookupDropped(merged, s.pairs, k);
      KeptIffNotBlank(s.pairs, k);
      AtFirst(Mapping(merged), Mapping(DropMissing(merged, s.pairs)), steps);
    } else {
      NewWeightKept(e, s, path, steps, w);
    }
  }

  lemma MappingStep(t: Tree, steps: seq<Step>, w: Tree)
    requires LeadsToWeight(t, steps, w) && t.Mapping?
    ensures steps[0].Key? && Lookup(t.pairs, steps[0].key).Some?
  {}

  lemma KeptIffNotBlank(pairs: seq<Pair>, key: string)
    requires Lookup(pairs, key).Some?
    ensures Trim(key) in KeptKeys(pairs) <==> Trim(key) != ""
  {
    hide Trim;
    var i := KeyIndex(pairs, key);
    assert pairs[i].key == key;
  }

  lemma AtFirst(t: Tree, u: Tree, steps: seq<Step>)
    requires steps != [] && steps[0].Key? && t.Mapping? && u.Mapping?
    ensures Lookup(u.pairs, steps[0].key) == Lookup(t.pairs, steps[0].key) ==> At(u, steps) == At(t, steps)
    ensures Lookup(u.pairs, steps[0].key) == None ==> At(u, steps) == None
  {}

  /** Among the merged entries of a mapping. */
  lemma {:induction false} EntryWeightKept(d: seq<Pair>, s: Tree, path: Path, steps: seq<Step>, w: Tree)
    requires UniqueKeys(s) && LeadsToWeight(s, steps, w) && s.Mapping? && steps[0].Key?
    ensures At(Mapping(MergePairs(d, s, |s.pairs|, path)), steps) == if EntryWritten(d, s.pairs, path, steps) then Some(w) else None
    decreases |steps|, 1
  {
    hide MergePairs, UniqueKeys, IsZero, NonZeroBetween, At, WeightWritten;
    SomeMapping(s, steps, w);
    var key := steps[0].key;
    var j := KeyIndex(s.pairs, key);
    var v, at := s.pairs[j].value, path + [key];
    UniqueValue(s, j);
    SourceKeyMerged(d, s, |s.pairs|, path, j);
    if |steps| == 1 {
      LeadsDirectly(s, steps, w);
      DirectWeightMerged(d, s, path, steps, w);
    } else {
      LeadsOn(s, steps, w);
      KeyStep(Mapping(MergePairs(d, s, |s.pairs|, path)), steps);
      if Lookup(d, key).Some? {
        NewWeightKept(Lookup(d, key).value, v, at, steps[1..], w);
      } else {
        CollectionDefault(at, Prune(at, v));
        WeightPruned(at, v, steps[1..], w);
      }
    }
  }

  lemma DirectWeightMerged(d: seq<Pair>, s: Tree, path: Path, steps: seq<Step>, w: Tree)
    requires s.Mapping? && steps == [Key("weight")] && Lookup(s.pairs, "weight") == Some(w) && w.Scalar? && w.tag == INT
    requires Lookup(MergePairs(d, s, |s.pairs|, path), "weight") == Expected(d, Pair("weight", w), path)
    ensures At(Mapping(MergePairs(d, s, |s.pairs|, path)), steps) == Some(w) && EntryWritten(d, s.pairs, path, steps)
  {
    hide MergePairs;
    WeightIsNoDefault(path, w);
    assert steps[1..] == [] && At(w, []) == Some(w);
  }

  /** A weight directly in an element of a list that the destination has is always written, be it new or not. */
  lemma WeightOfElementKept(d: Tree, s: Tree, path: Path, i: nat, w: Tree)
    requires UniqueKeys(s) && s.Sequence? && LeadsToWeight(s, [Item(i), Key("weight")], w)
    ensures At(Merge(d, s, path), [Item(i), Key("weight")]) == Some(w)
  {
    hide Merge, At, MatchOf, IsZero;
    var steps := [Item(i), Key("weight")];
    NewWeightKept(d, s, path, steps, w);
    assert steps[1..] == [Key("weight")] && [Key("weight")][1..] == [];
    SolidWeight();
    assert forall e, t, p :: WeightWritten(e, t, p, [], false);
  }

  lemma SolidWeight()
    ensures Trim("weight") == "weight"
  {}

  const NO_WEIGHT: Tree := Scalar(INT, "0")
  const INNER: Tree := Mapping([Pair("weight", NO_WEIGHT)])
  const ENTRY: Tree := Mapping([Pair("a", INNER), Pair("b", Scalar(STR, "x"))])
  const DEEP: Tree := Mapping([Pair("k", ENTRY)])

  lemma SingleEntry(key: string, t: Tree, steps: seq<Step>, w: Tree)
    requires UniqueKeys(t) && At(t, steps) == Some(w)
    ensures UniqueKeys(Mapping([Pair(key, t)])) && Lookup([Pair(key, t)], key) == Some(t)
    ensures At(Mapping([Pair(key, t)]), [Key(key)] + steps) == Some(w)
  {
    IndexIs([Pair(key, t)], 0, key);
    assert ([Key(key)] + steps)[1..] == steps;
  }

  lemma EntryOfExample()
    ensures UniqueKeys(ENTRY) && At(ENTRY, [Key("a"), Key("weight")]) == Some(NO_WEIGHT) && Lookup(ENTRY.pairs, "a") == Some(INNER)
  {
    SingleEntry("weight", NO_WEIGHT, [], NO_WEIGHT);
    assert [Key("weight")] + [] == [Key("weight")];
    IndexIs(ENTRY.pairs, 0, "a");
    assert [Key("a"), Key("weight")][1..] == [Key("weight")];
  }

  lemma EntryStaysNonZero()
    ensures !IsZero(Prune(["k"], ENTRY))
  {
    hide Prune, PrunePairs, IsZero, IsKnownDefault;
    EntryOfExample();
    PrunedMapping(["k"], ENTRY);
    IndexIs(ENTRY.pairs, 1, "b");
    DefaultStrings(["k"], "b", "x");
    PlainScalar(["k"] + ["b"], "x");
    PrunedEntry(["k"], ENTRY, 2, 1);
    NotZeroWith(Prune(["k"], ENTRY), "b", Scalar(STR, "x"));
  }

  lemma PrunedMapping(path: Path, t: Tree)
    requires t.Mapping?
    ensures Prune(path, t) == Mapping(PrunePairs(path, t, |t.pairs|))
  {}

  lemma PlainScalar(path: Path, value: string)
    requires value != ""
    ensures Prune(path, Scalar(STR, value)) == Scalar(STR, value) && !IsZero(Scalar(STR, value))
  {}

  /** A weight of zero two levels down is lost although something else in the new entry is not zero. */
  lemma DeepWeightIsLost()
    ensures UniqueKeys(DEEP) && LeadsToWeight(DEEP, [Key("k"), Key("a"), Key("weight")], NO_WEIGHT)
    ensures !IsZero(Prune(["k"], ENTRY))
    ensures At(Merge(Mapping([]), DEEP, []), [Key("k"), Key("a"), Key("weight")]) == None
  {
    hide Merge, Prune, At, UniqueKeys;
    EntryOfExample();
    EntryStaysNonZero();
    var steps, below := [Key("k"), Key("a"), Key("weight")], [Key("a"), Key("weight")];
    assert [Key("k")] + below == steps && steps[1..] == below && below[1..] == [Key("weight")];
    SingleEntry("k", ENTRY, below, NO_WEIGHT);
    NewWeightKept(Mapping([]), DEEP, [], steps, NO_WEIGHT);
    assert Lookup([], "k") == None;
    assert IsZero(INNER);
    assert !NonZeroBetween(ENTRY, below);
  }

  lemma NotZeroWith(t: Tree, key: string, v: Tree)
    requires t.Mapping? && Lookup(t.pairs, key) == Some(v) && !IsZero(v)
    ensures !IsZero(t)
  {}
}
