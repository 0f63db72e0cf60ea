/** What a merge may leave out, in literals: the scalars that need not be written into a document. */
module YamlLosses {
  import opened Wrappers
  import opened YamlTree
  import opened YamlMerge

  /** A path with dots between its keys. */
  function Dotted(path: Path): string {
    if path == [] then ""
    else if |path| == 1 then path[0]
    else Dotted(path[..|path| - 1]) + "." + path[|path| - 1]
  }

  predicate ZeroScalar(t: Tree) {
    match t
    case Scalar("!!bool", "false") => true
    case Scalar("!!int", "0") => true
    case Scalar("!!int", "0.0") => true
    case Scalar("!!float", "0") => true
    case Scalar("!!float", "0.0") => true
    case Scalar("!!str", "") => true
    case Scalar("!!null", _) => true
    case _ => false
  }

  predicate DefaultScalar(name: string, t: Tree) {
    match (name, t)
    case ("pprof.addr", Scalar("!!str", "127.0.0.1:8316")) => true
    case ("remote-management.panel-github-repository",
          Scalar("!!str", "https://github.com/marlon-costa-dc/Cli-Proxy-API-Management-Center")) => true
    case ("plugins.dir", Scalar("!!str", "plugins")) => true
    case ("routing.strategy", Scalar("!!str", "round-robin")) => true
    case ("error-logs-max-files", Scalar("!!int", "10")) => true
    case _ => false
  }

  /** A zero, or the default of its setting. */
  predicate Omittable(path: Path, t: Tree) {
    ZeroScalar(t) || DefaultScalar(Dotted(path), t)
  }

  predicate ExplicitWeight(path: Path, t: Tree) {
    path != [] && path[|path| - 1] == "weight" && t.Scalar? && t.tag == "!!int"
  }

  lemma {:induction false} JoinSnoc(path: Path, key: string)
    requires path != []
    ensures Join(path + [key]) == Join(path) + "." + key
  {
    if |path| == 1 {
      assert path + [key] == [path[0], key] && [path[0], key][1..] == [key];
    } else {
      JoinSnoc(path[1..], key);
      assert (path + [key])[1..] == path[1..] + [key];
      assert path[0] + "." + (Join(path[1..]) + "." + key) == path[0] + "." + Join(path[1..]) + "." + key;
    }
  }

  /** The keys of a path are joined with dots. */
  lemma {:induction false} JoinIs(path: Path)
    ensures Join(path) == Dotted(path)
  {
    if |path| > 1 {
      var n := |path| - 1;
      JoinIs(path[..n]);
      JoinSnoc(path[..n], path[n]);
      assert path == path[..n] + [path[n]];
    }
  }

  /** The scalars that count as known defaults, one by one. */
  lemma ScalarDefaultIs(path: Path, t: Tree)
    requires t.Scalar?
    ensures IsKnownDefault(path, t) <==> Omittable(path, t) && !ExplicitWeight(path, t)
    ensures IsZero(t) <==> ZeroScalar(t)
  {
    hide Join, Dotted;
    JoinIs(path);
    NoName();
  }

  lemma NoName()
    ensures Dotted([]) == ""
  {}

  // ---- Scalars below a node ----

  /** The keys among the steps: elements of a list have the path of the list. */
  function KeysOf(steps: seq<Step>): Path {
    if steps == [] then []
    else (match steps[0] case Key(k) => [k] case Item(_) => []) + KeysOf(steps[1..])
  }

  /** Every scalar of s is in m at the same place, or is one that may be omitted. */
  ghost predicate KeepsScalars(m: Tree, s: Tree, path: Path) {
    forall steps :: KeptAt(m, s, path, steps)
  }

  ghost predicate KeptAt(m: Tree, s: Tree, path: Path, steps: seq<Step>) {
    var w := At(s, steps);
    w.Some? && w.value.Scalar? ==> At(m, steps) == w || Omittable(path + KeysOf(steps), w.value)
  }

  lemma KeyAt(t: Tree, steps: seq<Step>, k: string)
    requires steps != [] && steps[0] == Key(k)
    ensures At(t, steps) == if t.Mapping? && Lookup(t.pairs, k).Some? then At(Lookup(t.pairs, k).value, steps[1..]) else None
    ensures KeysOf(steps) == [k] + KeysOf(steps[1..])
  {}

  lemma ItemAt(t: Tree, steps: seq<Step>, i: nat)
    requires steps != [] && steps[0] == Item(i)
    ensures At(t, steps) == if t.Sequence? && i < |t.items| then At(t.items[i], steps[1..]) else None
    ensures KeysOf(steps) == KeysOf(steps[1..])
  {}

  lemma NoSteps(t: Tree)
    ensures At(t, []) == Some(t) && KeysOf([]) == []
  {}

  lemma ScalarAt(t: Tree, steps: seq<Step>)
    requires t.Scalar? && At(t, steps).Some?
    ensures steps == []
  {}

  /** Every scalar of a zero value is a zero. */
  lemma {:induction false} ZeroBelow(t: Tree, steps: seq<Step>)
    requires IsZero(t) && At(t, steps).Some? && At(t, steps).value.Scalar?
    ensures ZeroScalar(At(t, steps).value)
    decreases |steps|
  {
    hide Lookup, ZeroScalar;
    if steps == [] {
      ScalarDefaultIs([], t);
    } else {
      match steps[0]
      case Key(k) => {
        KeyAt(t, steps, k);
        LookupZero(t, k);
        ZeroBelow(Lookup(t.pairs, k).value, steps[1..]);
      }
      case Item(i) => {
        ItemAt(t, steps, i);
        ZeroBelow(t.items[i], steps[1..]);
      }
    }
  }

  lemma LookupZero(t: Tree, k: string)
    requires t.Mapping? && IsZero(t) && Lookup(t.pairs, k).Some?
    ensures IsZero(Lookup(t.pairs, k).value)
  {}

  /** A value that is left out holds nothing but omittable scalars. */
  lemma {:induction false} LeftOutBelow(path: Path, t: Tree, steps: seq<Step>)
    requires UniqueKeys(t) && IsKnownDefault(path, Prune(path, t))
    requires At(t, steps).Some? && At(t, steps).value.Scalar?
    ensures Omittable(path + KeysOf(steps), At(t, steps).value)
    decreases |steps|, 1
  {
    hide Prune, IsKnownDefault, ReadsAs, At, Omittable, UniqueKeys, KeysOf;
    var pruned := Prune(path, t);
    if t.Scalar? {
      ScalarAt(t, steps);
      NoSteps(t);
      PruneKind(path, t);
      ScalarDefaultIs(path, t);
      assert path + [] == path;
    } else {
      PruneKind(path, t);
      CollectionDefault(path, pruned);
      PruneReadsBack(path, t);
      ReadsScalar(pruned, t, path, steps);
      if At(pruned, steps) == At(t, steps) {
        ZeroBelow(pruned, steps);
        ZeroMayGo(path + KeysOf(steps), At(t, steps).value);
      }
    }
  }

  lemma ZeroMayGo(path: Path, t: Tree)
    requires ZeroScalar(t)
    ensures Omittable(path, t)
  {}

  lemma PruneKind(path: Path, t: Tree)
    ensures t.Scalar? ==> Prune(path, t) == t
    ensures !t.Scalar? ==> !Prune(path, t).Scalar?
  {}

  /** What reads as a value has all its scalars but omittable ones. */
  lemma {:induction false} ReadsScalar(m: Tree, s: Tree, path: Path, steps: seq<Step>)
    requires UniqueKeys(s) && ReadsAs(m, s, path)
    requires At(s, steps).Some? && At(s, steps).value.Scalar?
    ensures At(m, steps) == At(s, steps) || Omittable(path + KeysOf(steps), At(s, steps).value)
    decreases |steps|, 0
  {
    hide Prune, IsKnownDefault, At, Omittable, KeysOf, UniqueKeys, Lookup;
    if steps == [] {
      NoSteps(s);
    } else {
      match steps[0]
      case Key(k) => {
        KeyAt(s, steps, k);
        KeyAt(m, steps, k);
        var j := LookupIndex(s, k);
        var v, rest := s.pairs[j].value, steps[1..];
        UniqueValue(s, j);
        assert path + KeysOf(steps) == path + [k] + KeysOf(rest);
        match Lookup(m.pairs, k)
        case None => LeftOutBelow(path + [k], v, rest);
        case Some(u) => ReadsScalar(u, v, path + [k], rest);
      }
      case Item(i) => {
        ItemAt(s, steps, i);
        ItemAt(m, steps, i);
        UniqueItem(s, i);
        ReadsScalar(m.items[i], s.items[i], path, steps[1..]);
      }
    }
  }

  lemma LookupIndex(t: Tree, k: string) returns (j: nat)
    requires t.Mapping? && Lookup(t.pairs, k).Some?
    ensures j < |t.pairs| && t.pairs[j].key == k && Lookup(t.pairs, k) == Some(t.pairs[j].value)
  {
    j := KeyIndex(t.pairs, k);
  }

  lemma ReadsKeepsScalars(m: Tree, s: Tree, path: Path)
    requires UniqueKeys(s) && ReadsAs(m, s, path)
    ensures KeepsScalars(m, s, path)
  {
    hide UniqueKeys, ReadsAs, At, Omittable, KeysOf;
    forall steps ensures KeptAt(m, s, path, steps) {
      if At(s, steps).Some? && At(s, steps).value.Scalar? {
        ReadsScalar(m, s, path, steps);
      }
    }
  }

  /** The merge loses no scalar of the source but zeros and the defaults of five settings. */
  lemma MergeKeepsScalars(d: Tree, s: Tree, path: Path)
    requires UniqueKeys(s) && NoBlankKeys(s, false)
    ensures KeepsScalars(Merge(d, s, path), s, path) && KeepsScalars(MergeRoots(d, s, path), s, path)
  {
    hide UniqueKeys, NoBlankKeys, ReadsAs, KeepsScalars, Merge, MergeRoots;
    MergeFaithful(d, s, path);
    MergeRootsFaithful(d, s, path);
    ReadsKeepsScalars(Merge(d, s, path), s, path);
    ReadsKeepsScalars(MergeRoots(d, s, path), s, path);
  }

  /** A scalar that is new to the destination is left out exactly when it may be omitted and is no weight. */
  lemma NewScalarLeftOutIff(d: Tree, s: Tree, path: Path, k: string, w: Tree)
    requires d.Mapping? && s.Mapping? && UniqueKeys(s)
    requires Lookup(s.pairs, k) == Some(w) && w.Scalar? && Lookup(d.pairs, k) == None
    ensures Merge(d, s, path).Mapping?
    ensures Lookup(Merge(d, s, path).pairs, k)
         == if Omittable(path + [k], w) && !ExplicitWeight(path + [k], w) then None else Some(w)
  {
    hide Lookup, Prune, IsKnownDefault, MergePairs, Omittable;
    var j := LookupIndex(s, k);
    SourceKeyMerged(d.pairs, s, |s.pairs|, path, j);
    PruneKind(path + [k], w);
    ScalarDefaultIs(path + [k], w);
  }

  ghost predicate ZeroAt(t: Tree, steps: seq<Step>) {
    var w := At(t, steps);
    w.Some? && w.value.Scalar? ==> ZeroScalar(w.value)
  }

  /** A value that is not zero holds a scalar that is not. */
  lemma {:induction false} NonZeroBelow(t: Tree) returns (steps: seq<Step>)
    requires UniqueKeys(t) && !IsZero(t)
    ensures !ZeroAt(t, steps)
    decreases t
  {
    hide ZeroScalar, Lookup, ZeroAt;
    match t
    case Scalar(_, _) =>
      steps := [];
      ScalarDefaultIs([], t);
      NoSteps(t);
      NotZeroAt(t, []);
    case Sequence(items) =>
      var i :| 0 <= i < |items| && !IsZero(items[i]);
      var rest := NonZeroBelow(items[i]);
      steps := [Item(i)] + rest;
      assert steps[1..] == rest;
      ItemAt(t, steps, i);
      SameAt(t, steps, items[i], rest);
    case Mapping(pairs) =>
      var i :| 0 <= i < |pairs| && !IsZero(pairs[i].value);
      var rest := NonZeroBelow(pairs[i].value);
      steps := [Key(pairs[i].key)] + rest;
      assert steps[1..] == rest;
      IndexIs(pairs, i, pairs[i].key);
      EntryAt(t, i);
      KeyAt(t, steps, pairs[i].key);
      SameAt(t, steps, pairs[i].value, rest);
  }

  lemma NotZeroAt(t: Tree, steps: seq<Step>)
    requires At(t, steps) == Some(t) && t.Scalar? && !ZeroScalar(t)
    ensures !ZeroAt(t, steps)
  {}

  lemma SameAt(t: Tree, steps: seq<Step>, u: Tree, rest: seq<Step>)
    requires At(t, steps) == At(u, rest)
    ensures ZeroAt(t, steps) == ZeroAt(u, rest)
  {}

  lemma EntryAt(t: Tree, i: nat)
    requires t.Mapping? && Distinct(t.pairs) && i < |t.pairs|
    ensures Lookup(t.pairs, t.pairs[i].key) == Some(t.pairs[i].value)
  {
    IndexIs(t.pairs, i, t.pairs[i].key);
  }

  /** An entry worth writing: no empty collection, and no scalar that may be omitted unless it is a weight. */
  ghost predicate WorthWriting(path: Path, t: Tree) {
    && t != Sequence([]) && t != Mapping([])
    && (t.Scalar? ==> !Omittable(path, t) || ExplicitWeight(path, t))
  }

  lemma PrunedLookup(path: Path, t: Tree, k: string) returns (j: nat)
    requires UniqueKeys(t) && t.Mapping? && Lookup(Prune(path, t).pairs, k).Some?
    ensures j < |t.pairs| && t.pairs[j].key == k && UniqueKeys(t.pairs[j].value) && !Dropped(path, t.pairs[j])
    ensures Lookup(Prune(path, t).pairs, k) == Some(Prune(path + [k], t.pairs[j].value))
  {
    hide IsKnownDefault, IsEmptyCollection, Lookup, PrunePairs, Dropped, UniqueKeys;
    LookupPruned(path, t, |t.pairs|, k);
    j :| 0 <= j < |t.pairs| && t.pairs[j].key == k;
    UniqueValue(t, j);
    PrunedMapping(path, t);
    PrunedEntry(path, t, |t.pairs|, j);
  }

  lemma KeptIsWorthWriting(path: Path, p: Pair)
    requires !Dropped(path, p)
    ensures WorthWriting(path + [p.key], Prune(path + [p.key], p.value))
  {
    hide IsKnownDefault;
    var at := path + [p.key];
    PruneKind(at, p.value);
    if p.value.Scalar? {
      ScalarDefaultIs(at, p.value);
    }
  }

  /** Pruning leaves nothing behind that need not be written, at any depth. */
  lemma {:induction false} PrunedIsWorthWriting(path: Path, t: Tree, steps: seq<Step>, k: string)
    requires UniqueKeys(t) && At(Prune(path, t), steps).Some? && At(Prune(path, t), steps).value.Mapping?
    ensures var pairs := At(Prune(path, t), steps).value.pairs;
            Lookup(pairs, k).Some? ==> WorthWriting(path + KeysOf(steps) + [k], Lookup(pairs, k).value)
    decreases |steps|
  {
    hide At, KeysOf, Lookup, Dropped, UniqueKeys, WorthWriting, PrunePairs;
    var pruned := Prune(path, t);
    if steps == [] {
      NoSteps(pruned);
      assert path + [] == path;
      if Lookup(pruned.pairs, k).Some? {
        var j := PrunedLookup(path, t, k);
        KeptIsWorthWriting(path, t.pairs[j]);
      }
    } else {
      match steps[0]
      case Key(first) => {
        KeyAt(pruned, steps, first);
        var j := PrunedLookup(path, t, first);
        PrunedIsWorthWriting(path + [first], t.pairs[j].value, steps[1..], k);
        assert path + KeysOf(steps) == path + [first] + KeysOf(steps[1..]);
      }
      case Item(i) => {
        ItemAt(pruned, steps, i);
        UniqueItem(t, i);
        PrunedIsWorthWriting(path, t.items[i], steps[1..], k);
      }
    }
  }

  lemma {:induction false} PruneUnique(path: Path, t: Tree)
    requires UniqueKeys(t)
    ensures UniqueKeys(Prune(path, t))
    decreases t, 0
  {
    match t
    case Scalar(_, _) =>
    case Sequence(items) =>
      forall i | 0 <= i < |items| ensures UniqueKeys(Prune(path, items[i])) {
        PruneUnique(path, items[i]);
      }
    case Mapping(pairs) =>
      PrunePairsUnique(path, t, |pairs|);
  }

  lemma {:induction false} PrunePairsUnique(path: Path, t: Tree, n: nat)
    requires t.Mapping? && UniqueKeys(t) && n <= |t.pairs|
    ensures Distinct(PrunePairs(path, t, n))
    ensures forall i :: 0 <= i < |PrunePairs(path, t, n)| ==>
      UniqueKeys(PrunePairs(path, t, n)[i].value) && HasKey(t.pairs, n, PrunePairs(path, t, n)[i].key)
    decreases t, 0, n
  {
    hide IsKnownDefault, IsEmptyCollection, Prune;
    if n > 0 {
      PrunePairsUnique(path, t, n - 1);
      PruneUnique(path + [t.pairs[n - 1].key], t.pairs[n - 1].value);
    }
  }

  /** A collection that is new to the destination is left out exactly when all scalars that remain of it are zeros. */
  lemma NewCollectionLeftOutIff(d: Tree, s: Tree, path: Path, k: string, v: Tree)
    requires d.Mapping? && s.Mapping? && UniqueKeys(s)
    requires Lookup(s.pairs, k) == Some(v) && !v.Scalar? && Lookup(d.pairs, k) == None
    ensures Merge(d, s, path).Mapping?
    ensures Lookup(Merge(d, s, path).pairs, k)
         == if forall steps :: ZeroAt(Prune(path + [k], v), steps) then None else Some(Prune(path + [k], v))
  {
    hide Lookup, Prune, MergePairs, ZeroAt, UniqueKeys;
    var j := LookupIndex(s, k);
    var pruned := Prune(path + [k], v);
    UniqueMapping(s);
    UniqueValue(s, j);
    PruneUnique(path + [k], v);
    SourceKeyMerged(d.pairs, s, |s.pairs|, path, j);
    PruneKind(path + [k], v);
    CollectionDefault(path + [k], pruned);
    if IsZero(pruned) {
      forall steps ensures ZeroAt(pruned, steps) {
        AllZero(pruned, steps);
      }
    } else {
      var steps := NonZeroBelow(pruned);
    }
  }

  lemma UniqueMapping(t: Tree)
    requires UniqueKeys(t) && t.Mapping?
    ensures Distinct(t.pairs)
  {}

  lemma AllZero(t: Tree, steps: seq<Step>)
    requires IsZero(t)
    ensures ZeroAt(t, steps)
  {
    if At(t, steps).Some? && At(t, steps).value.Scalar? {
      ZeroBelow(t, steps);
    }
  }
}
