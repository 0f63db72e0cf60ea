/**
 * The merge as it is done on the nodes themselves: each operation changes the nodes of the destination tree in place, and
 * the tree then stands for the value that the merge on values yields.
 */
module YamlInPlace {
  import opened Wrappers
  import opened YamlTree
  import opened YamlMerge
  import opened YamlLosses
  import opened YamlNode
  import opened YamlShape

  // ---- Reading and copying trees ----

  /** The value that a tree of nodes stands for. */
  method ValueOf(n: Node, ghost sh: Shape) returns (t: Tree)
    requires Held(n, sh)
    ensures t == Erase(sh)
    decreases sh, 1
  {
    hide *;
    HeldKids(n, sh);
    EraseIs(sh);
    KindOf(n, sh);
    if n.kind == ScalarNode {
      return Scalar(n.tag, n.value);
    }
    var values := ValuesOf(n.content, sh);
    if n.kind == SequenceNode {
      t := Sequence(values);
    } else {
      PairsOfItems(sh);
      t := Mapping(seq(|values| / 2, i requires 0 <= i < |values| / 2 && 2 * i + 1 < |values| && values[2 * i].Scalar? =>
                         Pair(values[2 * i].value, values[2 * i + 1])));
    }
  }

  method ValuesOf(nodes: seq<Node?>, ghost sh: Shape) returns (values: seq<Tree>)
    requires nodes == Roots(sh.kids) && AllHeld(sh.kids)
    ensures values == EraseItems(sh.kids)
    decreases sh, 0
  {
    hide *;
    assert allocated(NodesOf(sh.kids));
    values := [];
    for i := 0 to |nodes|
      invariant values == EraseItems(sh.kids)[..i]
    {
      KidIn(sh.kids, i);
      KidHeld(sh.kids, i);
      var v := ValueOf(nodes[i], sh.kids[i]);
      values := values + [v];
    }
  }

  lemma KindOf(n: Node, sh: Shape)
    requires Held(n, sh)
    ensures sh.kind == ScalarNode || sh.kind == SequenceNode || (sh.kind == MappingNode && |sh.kids| % 2 == 0)
    ensures Arranged(sh.kind, sh.kids)
  {}

  lemma KidHeld(kids: seq<Shape>, i: nat)
    requires AllHeld(kids) && i < |kids|
    ensures Held(kids[i].node, kids[i]) && EraseItems(kids)[i] == Erase(kids[i])
  {}

  lemma PairsOfItems(sh: Shape)
    requires Arranged(sh.kind, sh.kids) && sh.kind == MappingNode
    ensures forall i :: 0 <= i < |sh.kids| / 2 ==>
              2 * i + 1 < |sh.kids| && EraseItems(sh.kids)[2 * i].Scalar?
              && ErasePairs(sh.kids)[i] == Pair(EraseItems(sh.kids)[2 * i].value, EraseItems(sh.kids)[2 * i + 1])
  {}

  /** A new tree with the content of the tree at n. */
  method CopyTree(n: Node, ghost sh: Shape) returns (cp: Node, ghost r: Shape)
    requires Held(n, sh) && Plain(sh)
    ensures Held(cp, r) && fresh(Nodes(r)) && Erase(r) == Erase(sh) && r.kind == sh.kind && r.value == sh.value
  {
    hide *;
    assert allocated(Nodes(sh));
    HeldIsReach(n, sh);
    var c;
    ghost var m;
    c, m := CopyReach(n, Nodes(sh));
    CopyHeld(n, sh, c, m);
    cp, r := c, Image(sh, m);
  }

  lemma HeldIsReach(n: Node, sh: Shape)
    requires Held(n, sh) && Plain(sh)
    ensures IsReach(Nodes(sh), n)
  {
    TreeIsReach(sh);
  }

  lemma CopyHeld(n: Node, sh: Shape, c: Node, m: map<Node, Node>)
    requires Held(n, sh) && Isomorphic(m, Nodes(sh), n, c)
    ensures Nodes(sh) <= m.Keys && Held(c, Image(sh, m))
    ensures Erase(Image(sh, m)) == Erase(sh) && Image(sh, m).kind == sh.kind && Image(sh, m).value == sh.value
    ensures forall x :: x in Nodes(Image(sh, m)) ==> exists k :: k in m && m[k] == x
  {
    ImageErases(sh, m);
    ImageSound(sh, m);
    ImageIs(sh, m);
    forall x | x in Nodes(Image(sh, m)) ensures exists k :: k in m && m[k] == x {
      ImageNodes(sh, m, x);
    }
  }

  // ---- Pruning ----

  /** pruneKnownDefaultsInNewNode. */
  method PruneDefaults(path: Path, n: Node, ghost d: Shape) returns (ghost r: Shape)
    requires Held(n, d)
    modifies Nodes(d)`content
    ensures Held(n, r) && Nodes(r) <= Nodes(d) && r.kind == d.kind && Erase(r) == Prune(path, Erase(d))
    decreases d, 4
  {
    hide *;
    KindOf(n, d);
    HeldKids(n, d);
    if n.kind == MappingNode {
      r := PruneMapping(path, n, d);
    } else if n.kind == SequenceNode {
      r := PruneItems(path, n, d);
    } else {
      r := d;
      PruneScalar(path, d);
    }
  }

  lemma PruneScalar(path: Path, d: Shape)
    requires d.kind == ScalarNode
    ensures Prune(path, Erase(d)) == Erase(d)
  {}

  method PruneKid(path: Path, n: Node, ghost kids: seq<Shape>, ghost i: nat, ghost d: Shape) returns (ghost x: Shape)
    requires AllHeld(kids) && i < |kids| && n == kids[i].node && i < |d.kids| && kids[i] == d.kids[i]
    modifies Nodes(kids[i])`content
    ensures AllHeld(kids[i := x]) && Roots(kids[i := x]) == Roots(kids) && NodesOf(kids[i := x]) <= NodesOf(kids)
    ensures Nodes(x) <= Nodes(kids[i]) && Held(n, x) && x.kind == kids[i].kind && Erase(x) == Prune(path, Erase(kids[i]))
    decreases d, 1
  {
    hide *;
    KidHeld(kids, i);
    KidsApart(kids, i);
    x := PruneDefaults(path, n, kids[i]);
    forall j | 0 <= j < |kids| && j != i ensures Sound(kids[j]) && Is(kids[j]) {
      assert old(allocated(Nodes(kids[j])) && Is(kids[j]));
    }
    KidSubset(kids, i, x);
    KidReplaced(kids, i, n, x);
  }

  lemma KidsApart(kids: seq<Shape>, i: nat)
    requires AllHeld(kids) && i < |kids|
    ensures Apart(kids)
    ensures forall j :: 0 <= j < |kids| && j != i ==> Nodes(kids[i]) !! Nodes(kids[j]) && Sound(kids[j]) && Is(kids[j])
  {}

  lemma KidSubset(kids: seq<Shape>, i: nat, x: Shape)
    requires i < |kids| && Nodes(x) <= Nodes(kids[i])
    ensures Nodes(x) * NodesOf(kids) <= Nodes(kids[i]) && NodesOf(kids) + Nodes(x) == NodesOf(kids)
  {
    KidIn(kids, i);
  }

  ghost predicate PrunedUpTo(path: Path, kids: seq<Shape>, was: seq<Shape>, n: nat) {
    |kids| == |was|
    && (forall j :: 0 <= j < n <= |kids| ==> Erase(kids[j]) == Prune(path, Erase(was[j])))
    && (forall j :: n <= j < |kids| ==> kids[j] == was[j])
  }

  method PruneItems(path: Path, n: Node, ghost d: Shape) returns (ghost r: Shape)
    requires Held(n, d) && d.kind == SequenceNode
    modifies Nodes(d)`content
    ensures Held(n, r) && Nodes(r) <= Nodes(d) && r.kind == d.kind && Erase(r) == Prune(path, Erase(d))
    decreases d, 3
  {
    hide *;
    HeldKids(n, d);
    ghost var kids := d.kids;
    assert PrunedUpTo(path, kids, d.kids, 0) by {
      PrunedNone(path, kids);
    }
    for i := 0 to |n.content|
      invariant AllHeld(kids) && NodesOf(kids) <= NodesOf(d.kids) && n.content == Roots(kids)
      invariant |kids| == |d.kids| && PrunedUpTo(path, kids, d.kids, i)
    {
      KidIn(kids, i);
      PrunedNext(path, kids, d.kids, i);
      ghost var x := PruneKid(path, n.content[i], kids, i, d);
      PrunedMore(path, kids, d.kids, i, x);
      kids := kids[i := x];
    }
    r := Shape(n, SequenceNode, d.tag, d.value, kids);
    PrunedAll(path, kids, d, r);
    ItemsHeld(n, r);
  }

  lemma PrunedNone(path: Path, kids: seq<Shape>)
    ensures PrunedUpTo(path, kids, kids, 0)
  {}

  lemma PrunedNext(path: Path, kids: seq<Shape>, was: seq<Shape>, i: nat)
    requires PrunedUpTo(path, kids, was, i) && i < |kids|
    ensures i < |was| && kids[i] == was[i]
  {}

  lemma PrunedMore(path: Path, kids: seq<Shape>, was: seq<Shape>, i: nat, x: Shape)
    requires PrunedUpTo(path, kids, was, i) && i < |kids| && Erase(x) == Prune(path, Erase(kids[i]))
    ensures PrunedUpTo(path, kids[i := x], was, i + 1)
  {}

  lemma PrunedAll(path: Path, kids: seq<Shape>, d: Shape, r: Shape)
    requires PrunedUpTo(path, kids, d.kids, |kids|) && d.kind == SequenceNode == r.kind && r.kids == kids
    ensures Erase(r) == Prune(path, Erase(d))
  {}

  lemma ItemsHeld(n: Node, r: Shape)
    requires AllHeld(r.kids) && r.node == n && n.kind == SequenceNode == r.kind && n.content == Roots(r.kids)
    requires n !in NodesOf(r.kids)
    ensures Held(n, r) && Nodes(r) == {n} + NodesOf(r.kids)
  {
    KidsHeld(n, r);
  }

  lemma EmptyMeans(n: Node, sh: Shape)
    requires Held(n, sh)
    ensures IsEmptyCollection(Erase(sh)) <==> (n.kind == MappingNode || n.kind == SequenceNode) && |n.content| == 0
  {
    EraseIs(sh);
  }

  /** What happens to the value of one entry, and whether the entry stays. */
  method PruneEntry(at: Path, v: Node, ghost kids: seq<Shape>, ghost i: nat, ghost d: Shape) returns (keep: bool, ghost x: Shape)
    requires AllHeld(kids) && i < |kids| && v == kids[i].node && i < |d.kids| && kids[i] == d.kids[i]
    modifies Nodes(kids[i])`content
    ensures AllHeld(kids[i := x]) && Roots(kids[i := x]) == Roots(kids) && NodesOf(kids[i := x]) <= NodesOf(kids)
    ensures keep == (!IsKnownDefault(at, Erase(kids[i])) && !IsEmptyCollection(Prune(at, Erase(kids[i]))))
    ensures keep ==> x.node == v && Erase(x) == Prune(at, Erase(kids[i]))
    decreases d, 2
  {
    hide *;
    KidHeld(kids, i);
    assert allocated(NodesOf(kids));
    var value := ValueOf(v, kids[i]);
    if IsKnownDefault(at, value) {
      KidUnchanged(kids, i);
      return false, kids[i];
    }
    x := PruneKid(at, v, kids, i, d);
    EmptyMeans(v, x);
    HeldKids(v, x);
    keep := !((v.kind == MappingNode || v.kind == SequenceNode) && |v.content| == 0);
  }

  lemma KidUnchanged(kids: seq<Shape>, i: nat)
    requires i < |kids|
    ensures kids[i := kids[i]] == kids
  {}

  /** The entries kept of the first n. */
  ghost predicate EntriesPruned(path: Path, kids: seq<Shape>, sel: seq<nat>, d: Shape, n: nat) {
    && d.kind == MappingNode && |kids| == |d.kids| && 2 * n <= |kids|
    && Increasing(sel, n) && Increasing(sel, |kids| / 2)
    && (forall j :: 2 * n <= j < |kids| ==> kids[j] == d.kids[j])
    && Arranged(MappingNode, kids) && (forall j :: 0 <= j < |kids| / 2 ==> kids[2 * j] == d.kids[2 * j])
    && ErasePairs(Select(kids, sel)) == PrunePairs(path, Erase(d), n)
  }

  method PruneMapping(path: Path, n: Node, ghost d: Shape) returns (ghost r: Shape)
    requires Held(n, d) && d.kind == MappingNode
    modifies Nodes(d)`content
    ensures Held(n, r) && Nodes(r) <= Nodes(d) && r.kind == d.kind && Erase(r) == Prune(path, Erase(d))
    decreases d, 3
  {
    hide *;
    HeldKids(n, d);
    KindOf(n, d);
    ghost var kids := d.kids;
    ghost var sel: seq<nat> := [];
    var filtered: seq<Node?> := [];
    EntriesNone(path, d);
    for i := 0 to |n.content| / 2
      invariant AllHeld(kids) && NodesOf(kids) <= NodesOf(d.kids) && n.content == Roots(kids)
      invariant |kids| == |d.kids| && Increasing(sel, |kids| / 2) && EntriesPruned(path, kids, sel, d, i)
      invariant filtered == Roots(Select(kids, sel))
    {
      var k, v := n.content[2 * i], n.content[2 * i + 1];
      EntryNext(path, kids, sel, d, i);
      KidIn(kids, 2 * i);
      KidIn(kids, 2 * i + 1);
      KeyHeld(kids, 2 * i);
      var keep, x := PruneEntry(path + [k.value], v, kids, 2 * i + 1, d);
      EntryMore(path, kids, sel, d, i, x, keep);
      if keep {
        filtered := filtered + [k, v];
        sel := sel + [i];
      }
      kids := kids[2 * i + 1 := x];
    }
    EntriesAll(path, kids, sel, d);
    SelectHeld(kids, sel);
    ghost var kept := Select(kids, sel);
    assert allocated(NodesOf(kept));
    n.content := filtered;
    r := Shape(n, MappingNode, d.tag, d.value, kept);
    MappingHeld(n, r);
    EraseIs(r);
  }

  lemma EntriesNone(path: Path, d: Shape)
    requires Arranged(d.kind, d.kids) && d.kind == MappingNode
    ensures Increasing([], |d.kids| / 2) && EntriesPruned(path, d.kids, [], d, 0) && Roots(Select(d.kids, [])) == []
  {}

  lemma EntryNext(path: Path, kids: seq<Shape>, sel: seq<nat>, d: Shape, i: nat)
    requires EntriesPruned(path, kids, sel, d, i) && i < |kids| / 2
    ensures 2 * i + 1 < |kids| == |d.kids| && kids[2 * i + 1] == d.kids[2 * i + 1] && kids[2 * i].kind == ScalarNode
  {}

  lemma KeyHeld(kids: seq<Shape>, i: nat)
    requires AllHeld(kids) && i < |kids| && kids[i].kind == ScalarNode
    ensures kids[i].node.value == kids[i].value
  {}

  lemma EntryMore(path: Path, kids: seq<Shape>, sel: seq<nat>, d: Shape, i: nat, x: Shape, keep: bool)
    requires EntriesPruned(path, kids, sel, d, i) && i < |kids| / 2
    requires var at, v := path + [kids[2 * i].value], Erase(kids[2 * i + 1]);
             keep == (!IsKnownDefault(at, v) && !IsEmptyCollection(Prune(at, v))) && (keep ==> Erase(x) == Prune(at, v))
    ensures var more := kids[2 * i + 1 := x];
            var now := if keep then sel + [i] else sel;
            Increasing(now, |kids| / 2) && EntriesPruned(path, more, now, d, i + 1)
            && Roots(Select(more, now)) == Roots(Select(kids, sel)) + if keep then [kids[2 * i].node, x.node] else []
  {
    hide Erase, Prune, IsKnownDefault, IsEmptyCollection, PrunePairs, Select, Increasing, ErasePairs, Roots;
    IncreasingFits(kids, sel, i);
    var more := kids[2 * i + 1 := x];
    SelectUpdate(kids, sel, i, x);
    SelectMore(more, sel, i);
    var at, v := path + [kids[2 * i].value], Erase(kids[2 * i + 1]);
    PrunePairsStep(path, d, i, kids[2 * i].value, v);
    if keep {
      PairsAppend(Select(kids, sel), more[2 * i], x);
      RootsSplit(Select(kids, sel), more, 2 * i);
    }
  }

  lemma IncreasingFits(kids: seq<Shape>, sel: seq<nat>, i: nat)
    requires Increasing(sel, i) && i < |kids| / 2
    ensures Increasing(sel, |kids| / 2) && Increasing(sel, i + 1)
  {}

  lemma PrunePairsStep(path: Path, d: Shape, i: nat, key: string, v: Tree)
    requires d.kind == MappingNode && i < |d.kids| / 2 && d.kids[2 * i].value == key && Erase(d.kids[2 * i + 1]) == v
    ensures PrunePairs(path, Erase(d), i + 1)
         == PrunePairs(path, Erase(d), i)
            + if !IsKnownDefault(path + [key], v) && !IsEmptyCollection(Prune(path + [key], v))
              then [Pair(key, Prune(path + [key], v))] else []
  {
    hide Prune, IsKnownDefault, IsEmptyCollection;
  }

  lemma EntriesAll(path: Path, kids: seq<Shape>, sel: seq<nat>, d: Shape)
    requires |kids| == |d.kids| && EntriesPruned(path, kids, sel, d, |kids| / 2)
    ensures Increasing(sel, |kids| / 2) && Mapping(ErasePairs(Select(kids, sel))) == Prune(path, Erase(d))
    ensures Arranged(MappingNode, kids)
  {
    EraseIs(d);
  }

  lemma MappingHeld(n: Node, r: Shape)
    requires AllHeld(r.kids) && r.node == n && n.kind == MappingNode == r.kind && n.content == Roots(r.kids)
    requires n !in NodesOf(r.kids) && Arranged(MappingNode, r.kids)
    ensures Held(n, r) && Nodes(r) == {n} + NodesOf(r.kids)
  {
    KidsHeld(n, r);
  }

  // ---- Replacing a node by a copy ----

  ghost predicate SameLeaves(kids: seq<Shape>, was: seq<Shape>, n: nat) {
    |kids| == n <= |was|
    && forall i :: 0 <= i < n ==> Erase(kids[i]) == Erase(was[i]) && kids[i].kind == was[i].kind && kids[i].value == was[i].value
  }

  lemma SameLeavesMore(kids: seq<Shape>, was: seq<Shape>, n: nat, x: Shape)
    requires SameLeaves(kids, was, n) && n < |was|
    requires Erase(x) == Erase(was[n]) && x.kind == was[n].kind && x.value == was[n].value
    ensures SameLeaves(kids + [x], was, n + 1)
  {}

  lemma SameLeavesNone(was: seq<Shape>)
    ensures SameLeaves([], was, 0) && AllHeld([]) && Roots([]) == [] && NodesOf([]) == {}
  {}

  lemma SameErase(r: Shape, s: Shape)
    requires SameLeaves(r.kids, s.kids, |s.kids|) && r.kind == s.kind && Arranged(s.kind, s.kids)
    requires r.kind == ScalarNode ==> r.tag == s.tag && r.value == s.value
    ensures Erase(r) == Erase(s) && Arranged(r.kind, r.kids)
  {}

  lemma PlainKid(s: Shape, i: nat)
    requires Plain(s) && i < |s.kids|
    ensures Plain(s.kids[i])
  {}

  method CopyKids(nodes: seq<Node?>, ghost s: Shape) returns (copies: seq<Node?>, ghost kids: seq<Shape>)
    requires nodes == Roots(s.kids) && AllHeld(s.kids) && Plain(s)
    ensures AllHeld(kids) && fresh(NodesOf(kids)) && copies == Roots(kids) && SameLeaves(kids, s.kids, |s.kids|)
  {
    hide *;
    assert allocated(NodesOf(s.kids)) && allocated(Nodes(s));
    copies, kids := [], [];
    SameLeavesNone(s.kids);
    for i := 0 to |nodes|
      invariant AllHeld(kids) && fresh(NodesOf(kids)) && copies == Roots(kids) && SameLeaves(kids, s.kids, i)
    {
      KidIn(s.kids, i);
      KidHeld(s.kids, i);
      PlainKid(s, i);
      assert allocated(NodesOf(kids));
      var c, x := CopyTree(nodes[i], s.kids[i]);
      HeldKids(c, x);
      SameLeavesMore(kids, s.kids, i, x);
      HeldAppend(kids, c, x);
      copies, kids := copies + [c], kids + [x];
    }
  }

  /** copyNodeShallow: the node stays, and gets what the source holds. */
  method CopyShallow(dst: Node, src: Node, ghost s: Shape) returns (ghost r: Shape)
    requires Held(src, s) && Plain(s) && dst !in Nodes(s)
    modifies dst`kind, dst`tag, dst`value, dst`content
    ensures Held(dst, r) && fresh(Nodes(r) - {dst}) && Erase(r) == Erase(s) && r.kind == s.kind
  {
    hide *;
    HeldKids(src, s);
    KindOf(src, s);
    PlainContent(src, s);
    var copies: seq<Node?> := [];
    ghost var kids := [];
    SameLeavesNone(s.kids);
    if |src.content| > 0 {
      copies, kids := CopyKids(src.content, s);
    }
    assert allocated(NodesOf(kids)) && allocated(Nodes(s)) && dst !in NodesOf(kids);
    dst.kind, dst.tag, dst.value, dst.content := src.kind, src.tag, src.value, copies;
    r := Shape(dst, s.kind, s.tag, s.value, kids);
    SameErase(r, s);
    KidsHeld(dst, r);
    KidNodes(r);
  }

  lemma PlainContent(src: Node, s: Shape)
    requires Held(src, s) && Plain(s)
    ensures src.content == Roots(s.kids)
  {}

  // ---- Mappings ----

  method FindMapKeyIndex(n: Node, key: string, ghost d: Shape) returns (r: int)
    requires Held(n, d) && d.kind == MappingNode
    ensures r == if KeyIndex(ErasePairs(d.kids), key) < 0 then -1 else 2 * KeyIndex(ErasePairs(d.kids), key)
  {
    hide *;
    HeldKids(n, d);
    KindOf(n, d);
    assert allocated(NodesOf(d.kids));
    for i := 0 to |n.content| / 2
      invariant forall j :: 0 <= j < i ==> ErasePairs(d.kids)[j].key != key
    {
      PairAt(d.kids, i);
      KidIn(d.kids, 2 * i);
      if n.content[2 * i].value == key {
        IndexIs(ErasePairs(d.kids), i, key);
        return 2 * i;
      }
    }
    IndexIsNot(ErasePairs(d.kids), key);
    r := -1;
  }

  lemma PairAt(kids: seq<Shape>, i: nat)
    requires AllHeld(kids) && Arranged(MappingNode, kids) && i < |kids| / 2
    ensures 2 * i + 1 < |kids| && ErasePairs(kids)[i] == Pair(kids[2 * i].value, Erase(kids[2 * i + 1]))
    ensures kids[2 * i].node.value == kids[2 * i].value
  {}

  /** What one entry of the source does to the shape of the destination. */
  ghost predicate EntryMerged(d: Shape, r: Shape, v: Shape, e: int) {
    && |d.kids| <= |r.kids| && r.kind == MappingNode
    && (forall j :: 0 <= j < |d.kids| && j != 2 * e + 1 ==> r.kids[j] == d.kids[j])
    && (0 <= 2 * e + 1 < |d.kids| && UniqueKeys(Erase(v)) ==> KeepsNodes(d.kids[2 * e + 1], r.kids[2 * e + 1]))
  }

  /** The source has a value for the entry e of the destination. */
  method MergeExisting(dst: Node, e: nat, sv: Node, at: Path, ghost d: Shape, ghost v: Shape) returns (ghost r: Shape)
    requires Held(dst, d) && d.kind == MappingNode && e < |d.kids| / 2
    requires Held(sv, v) && Plain(v) && Nodes(d) !! Nodes(v)
    modifies NodesOf(d.kids)`kind, NodesOf(d.kids)`tag, NodesOf(d.kids)`value, NodesOf(d.kids)`content
    ensures Held(dst, r) && fresh(Nodes(r) - Nodes(d)) && EntryMerged(d, r, v, e)
    ensures ErasePairs(r.kids) == ErasePairs(d.kids)[e := Pair(d.kids[2 * e].value, Merge(ErasePairs(d.kids)[e].value, Erase(v), at))]
    decreases v, 6
  {
    hide *;
    HeldKids(dst, d);
    KindOf(dst, d);
    ghost var kids, i := d.kids, 2 * e + 1;
    KidIn(kids, i);
    KidHeld(kids, i);
    PairAt(kids, e);
    KidsApart(kids, i);
    var dv := dst.content[2 * e + 1];
    ghost var x := MergeNode(dv, sv, at, kids[i], v);
    forall j | 0 <= j < |kids| && j != i ensures Sound(kids[j]) && Is(kids[j]) {
      assert old(allocated(Nodes(kids[j])) && Is(kids[j]));
    }
    assert old(allocated(NodesOf(kids)));
    KidReplaced(kids, i, dv, x);
    r := d.(kids := kids[i := x]);
    PairsReplace(kids, e, x);
    ArrangedReplace(kids, e, x);
    MappingHeld(dst, r);
    EntryReplaced(d, r, v, e, x);
  }

  lemma ArrangedReplace(kids: seq<Shape>, e: nat, x: Shape)
    requires Arranged(MappingNode, kids) && e < |kids| / 2
    ensures Arranged(MappingNode, kids[2 * e + 1 := x])
  {}

  lemma EntryReplaced(d: Shape, r: Shape, v: Shape, e: nat, x: Shape)
    requires d.kind == MappingNode && 2 * e + 1 < |d.kids| && r == d.(kids := d.kids[2 * e + 1 := x])
    requires UniqueKeys(Erase(v)) ==> KeepsNodes(d.kids[2 * e + 1], x)
    ensures EntryMerged(d, r, v, e)
  {}

  /** The source has a value for a key that the destination lacks. */
  method AddEntry(dst: Node, sk: Node, sv: Node, at: Path, ghost d: Shape, ghost k: Shape, ghost v: Shape) returns (ghost r: Shape)
    requires Held(dst, d) && d.kind == MappingNode
    requires Held(sk, k) && k.kind == ScalarNode && Plain(k) && Held(sv, v) && Plain(v)
    modifies dst`content
    ensures Held(dst, r) && fresh(Nodes(r) - Nodes(d)) && EntryMerged(d, r, v, -1)
    ensures ErasePairs(r.kids)
         == ErasePairs(d.kids)
            + if IsKnownDefault(at, Prune(at, Erase(v))) then [] else [Pair(k.value, Prune(at, Erase(v)))]
  {
    hide *;
    assert allocated(Nodes(d)) && allocated(Nodes(k)) && allocated(NodesOf(d.kids));
    HeldKids(dst, d);
    KindOf(dst, d);
    var candidate, c := CopyTree(sv, v);
    assert allocated(Nodes(c));
    ghost var pruned := PruneDefaults(at, candidate, c);
    assert allocated(Nodes(pruned));
    var value := ValueOf(candidate, pruned);
    if IsKnownDefault(at, value) {
      r := d;
      NothingAdded(d, v);
      return;
    }
    assert allocated(Nodes(pruned));
    var key, kc := CopyTree(sk, k);
    HeldAppend(d.kids, key, kc);
    HeldAppend(d.kids + [kc], candidate, pruned);
    ghost var kids := d.kids + [kc] + [pruned];
    assert allocated(NodesOf(kids));
    dst.content := dst.content + [key, candidate];
    r := d.(kids := kids);
    PairsAppend(d.kids, kc, pruned);
    SomethingAdded(d, r, v, kc, pruned);
    MappingHeld(dst, r);
  }

  lemma NothingAdded(d: Shape, v: Shape)
    requires d.kind == MappingNode
    ensures EntryMerged(d, d, v, -1)
  {}

  lemma SomethingAdded(d: Shape, r: Shape, v: Shape, k: Shape, c: Shape)
    requires d.kind == MappingNode && Arranged(d.kind, d.kids) && r == d.(kids := d.kids + [k] + [c]) && k.kind == ScalarNode
    ensures EntryMerged(d, r, v, -1) && Arranged(r.kind, r.kids) && r.kids == d.kids + [k, c]
  {}

  method MergeOneEntry(dst: Node, sk: Node, sv: Node, path: Path, ghost d: Shape, ghost k: Shape, ghost v: Shape) returns (ghost r: Shape)
    requires Held(dst, d) && d.kind == MappingNode
    requires Held(sk, k) && k.kind == ScalarNode && Plain(k) && Held(sv, v) && Plain(v) && Nodes(d) !! Nodes(v)
    modifies Nodes(d)`kind, Nodes(d)`tag, Nodes(d)`value, Nodes(d)`content
    ensures Held(dst, r) && fresh(Nodes(r) - Nodes(d))
    ensures EntryMerged(d, r, v, KeyIndex(ErasePairs(d.kids), k.value))
    ensures ErasePairs(r.kids) == MergeEntry(ErasePairs(d.kids), Pair(k.value, Erase(v)), path)
    decreases v, 7
  {
    hide *;
    HeldKids(dst, d);
    HeldKids(sk, k);
    MergeEntryIs(ErasePairs(d.kids), k.value, Erase(v), path);
    assert allocated(Nodes(d)) && allocated(Nodes(k)) && allocated(Nodes(v));
    var at := path + [sk.value];
    var idx := FindMapKeyIndex(dst, sk.value, d);
    if idx >= 0 {
      PairKey(d.kids, idx / 2);
      assert idx / 2 == KeyIndex(ErasePairs(d.kids), k.value);
      label L:
      r := MergeExisting(dst, idx / 2, sv, at, d, v);
      forall x | x in Nodes(r) && x !in Nodes(d) ensures fresh(x) {
        assert fresh@L(x) && (old(allocated(x)) ==> old@L(allocated(x)));
      }
    } else {
      assert KeyIndex(ErasePairs(d.kids), k.value) == -1;
      label M:
      r := AddEntry(dst, sk, sv, at, d, k, v);
      forall x | x in Nodes(r) && x !in Nodes(d) ensures fresh(x) {
        assert fresh@M(x) && (old(allocated(x)) ==> old@M(allocated(x)));
      }
    }
  }

  lemma PairKey(kids: seq<Shape>, e: nat)
    requires e < |kids| / 2
    ensures ErasePairs(kids)[e].key == kids[2 * e].value
  {}

  lemma MergeEntryIs(d: seq<Pair>, key: string, v: Tree, path: Path)
    ensures -1 <= KeyIndex(d, key) < |d|
    ensures KeyIndex(d, key) >= 0 ==>
              d[KeyIndex(d, key)].key == key
              && MergeEntry(d, Pair(key, v), path)
              == d[KeyIndex(d, key) := Pair(key, Merge(d[KeyIndex(d, key)].value, v, path + [key]))]
    ensures KeyIndex(d, key) < 0 ==>
              MergeEntry(d, Pair(key, v), path)
              == d + if IsKnownDefault(path + [key], Prune(path + [key], v)) then [] else [Pair(key, Prune(path + [key], v))]
  {
    hide Merge, Prune, IsKnownDefault;
  }

  /** The entries of d after the first n entries of s: each has been changed at most once. */
  ghost predicate Untouched(d: Shape, cur: Shape, s: Shape, n: nat) {
    && |d.kids| <= |cur.kids| && n <= |s.kids| / 2
    && (forall e :: 0 <= e < |d.kids| / 2 ==> cur.kids[2 * e] == d.kids[2 * e])
    && (UniqueKeys(Erase(s)) ==>
          && (forall e :: 0 <= e < |d.kids| / 2 ==> KeepsNodes(d.kids[2 * e + 1], cur.kids[2 * e + 1]))
          && (forall e :: 0 <= e < |d.kids| / 2 && !HasKey(ErasePairs(s.kids), n, d.kids[2 * e].value) ==>
                cur.kids[2 * e + 1] == d.kids[2 * e + 1]))
  }

  lemma UntouchedNone(d: Shape, s: Shape)
    ensures Untouched(d, d, s, 0)
  {
    forall e | 0 <= e < |d.kids| / 2 ensures KeepsNodes(d.kids[2 * e + 1], d.kids[2 * e + 1]) {
      KeepsItself(d.kids[2 * e + 1]);
    }
  }

  lemma UniqueEntry(s: Shape, n: nat)
    requires s.kind == MappingNode && n < |s.kids| / 2 && UniqueKeys(Erase(s))
    ensures UniqueKeys(Erase(s.kids[2 * n + 1])) && !HasKey(ErasePairs(s.kids), n, s.kids[2 * n].value)
  {
    var p := ErasePairs(s.kids);
    assert Erase(s) == Mapping(p);
    assert p[n] == Pair(s.kids[2 * n].value, Erase(s.kids[2 * n + 1]));
    assert Distinct(p) && UniqueKeys(p[n].value);
  }

  lemma HasKeyNext(p: seq<Pair>, n: nat, key: string)
    requires n < |p|
    ensures HasKey(p, n + 1, key) <==> HasKey(p, n, key) || p[n].key == key
  {
    if p[n].key == key {
      assert HasKey(p, n + 1, key);
    }
  }

  lemma UntouchedNext(d: Shape, cur: Shape, next: Shape, s: Shape, n: nat)
    requires Untouched(d, cur, s, n) && n < |s.kids| / 2 && s.kind == MappingNode
    requires EntryMerged(cur, next, s.kids[2 * n + 1], KeyIndex(ErasePairs(cur.kids), s.kids[2 * n].value))
    ensures Untouched(d, next, s, n + 1)
  {
    hide KeepsNodes, UniqueKeys, HasKey, Erase, ErasePairs;
    var p, key := ErasePairs(s.kids), s.kids[2 * n].value;
    var f := KeyIndex(ErasePairs(cur.kids), key);
    PairKey(s.kids, n);
    if f >= 0 {
      PairKey(cur.kids, f);
    }
    if UniqueKeys(Erase(s)) {
      UniqueEntry(s, n);
      forall e | 0 <= e < |d.kids| / 2
        ensures KeepsNodes(d.kids[2 * e + 1], next.kids[2 * e + 1])
        ensures !HasKey(p, n + 1, d.kids[2 * e].value) ==> next.kids[2 * e + 1] == d.kids[2 * e + 1]
      {
        HasKeyNext(p, n, d.kids[2 * e].value);
        assert cur.kids[2 * e] == d.kids[2 * e];
      }
    }
  }

  lemma UntouchedAll(d: Shape, cur: Shape, s: Shape)
    requires Untouched(d, cur, s, |s.kids| / 2) && |d.kids| % 2 == 0 && d.node == cur.node
    ensures UniqueKeys(Erase(s)) ==> KeepsNodes(d, cur)
  {
    hide *;
    if UniqueKeys(Erase(s)) {
      forall i | 0 <= i < |d.kids| ensures i < |cur.kids| && KeepsNodes(d.kids[i], cur.kids[i]) {
        UntouchedAt(d, cur, s, i);
      }
      UntouchedSize(d, cur, s);
      KeepsAll(d, cur);
    }
  }

  lemma UntouchedSize(d: Shape, cur: Shape, s: Shape)
    requires Untouched(d, cur, s, |s.kids| / 2)
    ensures |d.kids| <= |cur.kids|
  {}

  lemma UntouchedEntry(d: Shape, cur: Shape, s: Shape, n: nat, e: nat)
    requires Untouched(d, cur, s, n) && UniqueKeys(Erase(s)) && e < |d.kids| / 2
    ensures |d.kids| <= |cur.kids| && cur.kids[2 * e] == d.kids[2 * e] && KeepsNodes(d.kids[2 * e + 1], cur.kids[2 * e + 1])
  {
    hide KeepsNodes, UniqueKeys, HasKey, Erase;
  }

  lemma UntouchedAt(d: Shape, cur: Shape, s: Shape, i: nat)
    requires Untouched(d, cur, s, |s.kids| / 2) && |d.kids| % 2 == 0
    requires UniqueKeys(Erase(s)) && i < |d.kids|
    ensures i < |cur.kids| && KeepsNodes(d.kids[i], cur.kids[i])
  {
    hide *;
    var e := i / 2;
    UntouchedEntry(d, cur, s, |s.kids| / 2, e);
    if i == 2 * e {
      KeepsItself(d.kids[i]);
    } else {
      assert i == 2 * e + 1;
    }
  }

  lemma KeepsAll(d: Shape, r: Shape)
    requires d.node == r.node && |d.kids| <= |r.kids| && forall i :: 0 <= i < |d.kids| ==> KeepsNodes(d.kids[i], r.kids[i])
    ensures KeepsNodes(d, r)
  {}

  /** The loop of mergeMappingPreserve. */
  method MergeMapping(dst: Node, src: Node, path: Path, ghost d: Shape, ghost s: Shape) returns (ghost r: Shape)
    requires Held(dst, d) && Held(src, s) && Plain(s) && Nodes(d) !! Nodes(s)
    requires d.kind == MappingNode && s.kind == MappingNode
    modifies Nodes(d)`kind, Nodes(d)`tag, Nodes(d)`value, Nodes(d)`content
    ensures Held(dst, r) && fresh(Nodes(r) - Nodes(d)) && r.kind == MappingNode
    ensures Erase(r) == Mapping(MergePairs(ErasePairs(d.kids), Erase(s), |s.kids| / 2, path))
    ensures UniqueKeys(Erase(s)) ==> KeepsNodes(d, r)
    decreases s, 3
  {
    hide *;
    assert allocated(Nodes(s)) && allocated(NodesOf(s.kids)) && allocated(Nodes(d));
    HeldKids(src, s);
    KindOf(src, s);
    HeldKids(dst, d);
    KindOf(dst, d);
    EraseIs(s);
    r := d;
    UntouchedNone(d, s);
    MergeNone(ErasePairs(d.kids), s, path);
    for i := 0 to |src.content| / 2
      invariant Held(dst, r) && fresh(Nodes(r) - Nodes(d)) && r.kind == MappingNode && Untouched(d, r, s, i)
      invariant AllHeld(s.kids) && Plain(s) && src.content == Roots(s.kids)
      invariant ErasePairs(r.kids) == MergePairs(ErasePairs(d.kids), Erase(s), i, path)
    {
      KidIn(s.kids, 2 * i);
      KidIn(s.kids, 2 * i + 1);
      KidHeld(s.kids, 2 * i);
      KidHeld(s.kids, 2 * i + 1);
      PlainKid(s, 2 * i);
      PlainKid(s, 2 * i + 1);
      EntryKinds(s, i);
      assert Nodes(r) !! Nodes(s) && allocated(Nodes(s));
      label L:
      ghost var next := MergeOneEntry(dst, src.content[2 * i], src.content[2 * i + 1], path, r, s.kids[2 * i], s.kids[2 * i + 1]);
      forall x | x in Nodes(next) && x !in Nodes(d) ensures fresh(x) {
        if x !in Nodes(r) {
          assert x in Nodes(next) - Nodes(r) && fresh@L(x);
          assert old(allocated(x)) ==> old@L(allocated(x));
        }
      }
      UntouchedNext(d, r, next, s, i);
      MappingStays(r, next, s.kids[2 * i + 1], KeyIndex(ErasePairs(r.kids), s.kids[2 * i].value));
      MergeNext(ErasePairs(d.kids), s, i, path);
      r := next;
    }
    HeldKids(dst, r);
    EraseIs(r);
    UntouchedAll(d, r, s);
  }

  lemma MappingStays(d: Shape, r: Shape, v: Shape, e: int)
    requires EntryMerged(d, r, v, e)
    ensures r.kind == MappingNode
  {}

  lemma MergeNone(d: seq<Pair>, s: Shape, path: Path)
    requires s.kind == MappingNode
    ensures MergePairs(d, Erase(s), 0, path) == d
  {}

  lemma MergeNext(d: seq<Pair>, s: Shape, i: nat, path: Path)
    requires s.kind == MappingNode && i < |s.kids| / 2
    ensures MergePairs(d, Erase(s), i + 1, path)
         == MergeEntry(MergePairs(d, Erase(s), i, path), Pair(s.kids[2 * i].value, Erase(s.kids[2 * i + 1])), path)
  {
    hide MergeEntry;
    EraseIs(s);
  }

  lemma EntryKinds(s: Shape, i: nat)
    requires Arranged(s.kind, s.kids) && s.kind == MappingNode && i < |s.kids| / 2
    ensures s.kids[2 * i].kind == ScalarNode && 2 * i + 1 < |s.kids|
  {}

  /** mergeNodePreserve: the tree at dst comes to hold the merged value, on the nodes that it had wherever mappings, keys
      and values stay. No node that existed changes its comments or style. */
  method MergeNode(dst: Node, src: Node, path: Path, ghost d: Shape, ghost s: Shape) returns (ghost r: Shape)
    requires Held(dst, d) && Held(src, s) && Plain(s) && Nodes(d) !! Nodes(s)
    modifies Nodes(d)`kind, Nodes(d)`tag, Nodes(d)`value, Nodes(d)`content
    ensures Held(dst, r) && fresh(Nodes(r) - Nodes(d)) && Erase(r) == Merge(Erase(d), Erase(s), path)
    ensures UniqueKeys(Erase(s)) ==> KeepsNodes(d, r)
    decreases s, 5
  {
    hide *;
    HeldKids(dst, d);
    HeldKids(src, s);
    KindOf(src, s);
    EraseIs(d);
    EraseIs(s);
    MergeIs(d, s, path);
    if src.kind == MappingNode {
      if dst.kind != MappingNode {
        assert allocated(Nodes(s)) && allocated(Nodes(d));
        ghost var now := CopyShallow(dst, src, s);
        EraseIs(now);
        HeldKids(dst, now);
        label L:
        r := MergeMapping(dst, src, path, now, s);
        HeldKids(dst, r);
        forall x | x in Nodes(r) && x !in Nodes(d) ensures fresh(x) {
          if x !in Nodes(now) {
            assert x in Nodes(r) - Nodes(now) && fresh@L(x);
            assert old(allocated(x)) ==> old@L(allocated(x));
          }
        }
        KeepsRoot(d, r);
      } else {
        r := MergeMapping(dst, src, path, d, s);
      }
    } else if src.kind == SequenceNode {
      r := MergeSequence(dst, src, path, d, s);
    } else {
      dst.kind, dst.tag, dst.value := src.kind, src.tag, src.value;
      r := Shape(dst, ScalarNode, s.tag, s.value, []);
      LeafHeld(dst, r);
      KeepsRoot(d, r);
    }
  }

  lemma LeafHeld(n: Node, r: Shape)
    requires r.node == n && r.kind == ScalarNode && r.kids == [] && n.kind == ScalarNode && n.tag == r.tag && n.value == r.value
    ensures Held(n, r) && Nodes(r) == {n} && Erase(r) == Scalar(r.tag, r.value)
  {}

  lemma KeepsRoot(d: Shape, r: Shape)
    requires d.node == r.node && (d.kind != MappingNode || r.kind != MappingNode)
    ensures KeepsNodes(d, r)
  {}

  lemma MergeIs(d: Shape, s: Shape, path: Path)
    ensures s.kind == MappingNode ==>
              Merge(Erase(d), Erase(s), path)
              == Mapping(MergePairs(if d.kind == MappingNode then ErasePairs(d.kids) else ErasePairs(s.kids),
                                    Erase(s), |s.kids| / 2, path))
    ensures s.kind == ScalarNode ==> Merge(Erase(d), Erase(s), path) == Erase(s)
  {
    hide MergePairs;
    EraseIs(d);
    EraseIs(s);
  }

  // ---- Keys that the source lacks ----

  method KeysToKeep(src: Node, ghost s: Shape) returns (keep: set<string>)
    requires Held(src, s) && s.kind == MappingNode
    ensures keep == KeptKeys(ErasePairs(s.kids))
  {
    hide *;
    HeldKids(src, s);
    KindOf(src, s);
    assert allocated(NodesOf(s.kids));
    keep := {};
    KeptNone(ErasePairs(s.kids));
    for i := 0 to |src.content| / 2
      invariant keep == KeptKeys(ErasePairs(s.kids)[..i])
    {
      PairAt(s.kids, i);
      KidIn(s.kids, 2 * i);
      KeptMore(ErasePairs(s.kids), i);
      var key := Trim(src.content[2 * i].value);
      if key != "" {
        keep := keep + {key};
      }
    }
    assert ErasePairs(s.kids)[..|src.content| / 2] == ErasePairs(s.kids);
  }

  lemma KeptNone(p: seq<Pair>)
    ensures KeptKeys(p[..0]) == {}
  {}

  lemma KeptMore(p: seq<Pair>, i: nat)
    requires i < |p|
    ensures KeptKeys(p[..i + 1]) == KeptKeys(p[..i]) + if Trim(p[i].key) == "" then {} else {Trim(p[i].key)}
  {
    hide Trim;
    var a, b := p[..i], p[..i + 1];
    assert forall j :: 0 <= j < i ==> a[j] == b[j];
    assert b[i] == p[i];
  }

  /** The mapping after its first e entries have been looked at: some are gone. */
  ghost predicate Dropping(content: seq<Node?>, kids: seq<Shape>, sel: seq<nat>, e: nat, s: seq<Pair>) {
    && 2 * e <= |kids| && Increasing(sel, e) && Increasing(sel, |kids| / 2)
    && content == Roots(Select(kids, sel)) + Roots(kids[2 * e..])
    && ErasePairs(Select(kids, sel)) == DropMissing(ErasePairs(kids)[..e], s)
  }

  lemma DroppingNone(kids: seq<Shape>, s: seq<Pair>)
    ensures Dropping(Roots(kids), kids, [], 0, s)
  {
    assert kids[0..] == kids;
    assert Select(kids, []) == [];
    assert ErasePairs(kids)[..0] == [];
  }

  lemma DropNext(p: seq<Pair>, e: nat, s: seq<Pair>)
    requires e < |p|
    ensures DropMissing(p[..e + 1], s) == DropMissing(p[..e], s) + if Trim(p[e].key) in KeptKeys(s) then [p[e]] else []
  {
    hide Trim, KeptKeys;
    assert p[..e + 1][..e] == p[..e];
  }

  lemma EntryOf(kids: seq<Shape>, e: nat)
    requires e < |kids| / 2
    ensures ErasePairs(kids)[e] == Pair(kids[2 * e].value, Erase(kids[2 * e + 1]))
  {}

  lemma DroppingNext(content: seq<Node?>, kids: seq<Shape>, sel: seq<nat>, e: nat, s: seq<Pair>)
    requires Dropping(content, kids, sel, e, s) && e < |kids| / 2
    ensures |content| >= 2 * |sel| + 2 && content[2 * |sel|] == kids[2 * e].node
    ensures if Trim(kids[2 * e].value) in KeptKeys(s) then Dropping(content, kids, sel + [e], e + 1, s)
            else Dropping(content[..2 * |sel|] + content[2 * |sel| + 2..], kids, sel, e + 1, s)
  {
    hide Trim, KeptKeys, DropMissing, Erase, Select, Increasing, ErasePairs, Roots;
    assert ErasePairs(kids)[e] == Pair(kids[2 * e].value, Erase(kids[2 * e + 1])) by {
      EntryOf(kids, e);
    }
    DropNext(ErasePairs(kids), e, s);
    SelectMore(kids, sel, e);
    PairsAppend(Select(kids, sel), kids[2 * e], kids[2 * e + 1]);
    RootsSplit(Select(kids, sel), kids, 2 * e);
  }

  lemma RootsSplit(front: seq<Shape>, kids: seq<Shape>, i: nat)
    requires i + 1 < |kids|
    ensures Roots(kids[i..]) == [kids[i].node, kids[i + 1].node] + Roots(kids[i + 2..])
    ensures Roots(front + [kids[i], kids[i + 1]]) == Roots(front) + [kids[i].node, kids[i + 1].node]
  {}

  lemma DroppingEnds(content: seq<Node?>, kids: seq<Shape>, sel: seq<nat>, e: nat, s: seq<Pair>)
    requires Dropping(content, kids, sel, e, s) && |kids| % 2 == 0
    ensures Increasing(sel, |kids| / 2)
    ensures |content| == 2 * |sel| + |kids| - 2 * e && 2 * e <= |kids|
    ensures 2 * e == |kids| ==> content == Roots(Select(kids, sel)) && ErasePairs(Select(kids, sel)) == DropMissing(ErasePairs(kids), s)
  {
    hide DropMissing, Erase;
    if 2 * e == |kids| {
      assert kids[2 * e..] == [];
      assert ErasePairs(kids)[..e] == ErasePairs(kids);
    }
  }

  /** pruneMissingMapKeys. */
  method PruneMissingKeys(n: Node, src: Node, ghost d: Shape, ghost s: Shape) returns (ghost r: Shape)
    requires Held(n, d) && Held(src, s) && d.kind == MappingNode && s.kind == MappingNode
    modifies n`content
    ensures Held(n, r) && Nodes(r) <= Nodes(d) && r.kind == MappingNode
    ensures ErasePairs(r.kids) == DropMissing(ErasePairs(d.kids), ErasePairs(s.kids))
  {
    hide *;
    HeldKids(n, d);
    KindOf(n, d);
    assert allocated(NodesOf(d.kids));
    var keep := KeysToKeep(src, s);
    ghost var p := ErasePairs(s.kids);
    ghost var sel: seq<nat> := [];
    ghost var e := 0;
    var i := 0;
    DroppingNone(d.kids, p);
    DroppingEnds(n.content, d.kids, sel, e, p);
    while i + 1 < |n.content|
      invariant AllHeld(d.kids) && i == 2 * |sel| && 0 <= e && Dropping(n.content, d.kids, sel, e, p)
      invariant |n.content| == i + |d.kids| - 2 * e
      decreases |n.content| - i
    {
      DroppingNext(n.content, d.kids, sel, e, p);
      EntryKinds(d, e);
      KeyHeld(d.kids, 2 * e);
      var keyNode := n.content[i];
      assert allocated(NodesOf(d.kids));
      if Trim(keyNode.value) !in keep {
        n.content := n.content[..i] + n.content[i + 2..];
      } else {
        i := i + 2;
        sel := sel + [e];
      }
      e := e + 1;
      DroppingEnds(n.content, d.kids, sel, e, p);
    }
    DroppingEnds(n.content, d.kids, sel, e, p);
    SelectHeld(d.kids, sel);
    r := Shape(n, MappingNode, d.tag, d.value, Select(d.kids, sel));
    MappingHeld(n, r);
  }

  // ---- Sequences ----

  ghost function Slot(bank: seq<Shape>, t: int): Node? {
    if 0 <= t < |bank| then bank[t].node else null
  }

  ghost predicate IsTaken(taken: seq<int>, bank: seq<Shape>, s: Shape) {
    |taken| == |s.kids| && forall j :: 0 <= j < |taken| ==> taken[j] == MatchOf(EraseItems(bank), EraseItems(s.kids), j)
  }

  /** No old element goes to two places. */
  ghost predicate TakenOnce(taken: seq<int>) {
    forall j, k :: 0 <= j < k < |taken| && taken[j] >= 0 ==> taken[j] != taken[k]
  }

  lemma TakenIsOnce(taken: seq<int>, bank: seq<Shape>, s: Shape)
    requires IsTaken(taken, bank, s)
    ensures TakenOnce(taken) && |taken| == |s.kids|
  {
    forall j, k | 0 <= j < k < |taken| && taken[j] >= 0 ensures taken[j] != taken[k] {
      MatchedOnce(EraseItems(bank), EraseItems(s.kids), j, k);
    }
  }

  /** reorderSequenceForMerge: each place gets the old element that the source element there takes, or null. */
  method ReorderSequence(dst: Node, src: Node, ghost d: Shape, ghost s: Shape) returns (taken: seq<int>)
    requires Held(dst, d) && Held(src, s) && d.kind == SequenceNode && s.kind == SequenceNode
    modifies dst`content
    ensures IsTaken(taken, d.kids, s) && |dst.content| == |taken|
    ensures forall j :: 0 <= j < |taken| ==> dst.content[j] == Slot(d.kids, taken[j])
  {
    hide Held, AllHeld, MatchOf, Match, Used, EraseItems, Erase, Roots, Is, Sound, Nodes, NodesOf;
    HeldKids(dst, d);
    HeldKids(src, s);
    var original := dst.content;
    assert allocated(NodesOf(s.kids)) && allocated(NodesOf(d.kids));
    var elements := ValuesOf(original, d);
    var targets := ValuesOf(src.content, s);
    var used: seq<bool> := seq(|original|, _ => false);
    var ordered: seq<Node?> := [];
    taken := [];
    UsedNone(elements, targets);
    for i := 0 to |targets|
      invariant |used| == |elements| && used == Used(elements, targets, i)
      invariant |ordered| == |taken| == i
      invariant forall j :: 0 <= j < i ==> taken[j] == MatchOf(elements, targets, j) && ordered[j] == Slot(d.kids, taken[j])
    {
      UsedStep(elements, targets, i);
      var idx := Match(elements, used, targets[i]);
      if idx >= 0 {
        KidIn(d.kids, idx);
        ordered := ordered + [original[idx]];
        used := used[idx := true];
      } else {
        ordered := ordered + [null];
      }
      taken := taken + [idx];
    }
    dst.content := ordered;
  }

  lemma UsedNone(original: seq<Tree>, targets: seq<Tree>)
    ensures Used(original, targets, 0) == seq(|original|, _ => false)
  {}

  lemma UsedStep(original: seq<Tree>, targets: seq<Tree>, i: nat)
    requires i < |targets|
    ensures var idx := MatchOf(original, targets, i);
            && idx == Match(original, Used(original, targets, i), targets[i]) && -1 <= idx < |original|
            && Used(original, targets, i + 1)
            == if idx >= 0 then Used(original, targets, i)[idx := true] else Used(original, targets, i)
  {
    hide Match;
  }

  /** An element of a sequence: merged, and without the keys that the source element lacks. */
  method MergeElementAt(e: Node, t: Node, path: Path, ghost d: Shape, ghost s: Shape) returns (ghost r: Shape)
    requires Held(e, d) && Held(t, s) && Plain(s) && Nodes(d) !! Nodes(s)
    modifies Nodes(d)`kind, Nodes(d)`tag, Nodes(d)`value, Nodes(d)`content
    ensures Held(e, r) && fresh(Nodes(r) - Nodes(d)) && Erase(r) == MergeElement(Erase(d), Erase(s), path)
    decreases s, 6
  {
    hide *;
    assert allocated(Nodes(s));
    HeldKids(e, d);
    HeldKids(t, s);
    r := MergeNode(e, t, path, d, s);
    HeldKids(e, r);
    EraseIs(r);
    EraseIs(s);
    ElementKinds(d, s, r, path);
    if e.kind == MappingNode && t.kind == MappingNode {
      r := PruneMissingKeys(e, t, r, s);
      EraseIs(r);
    }
  }

  lemma ElementKinds(d: Shape, s: Shape, r: Shape, path: Path)
    requires Erase(r) == Merge(Erase(d), Erase(s), path)
    ensures r.kind == MappingNode <==> s.kind == MappingNode
    ensures if s.kind == MappingNode
            then MergeElement(Erase(d), Erase(s), path) == Mapping(DropMissing(ErasePairs(r.kids), ErasePairs(s.kids)))
            else MergeElement(Erase(d), Erase(s), path) == Erase(r)
  {
    EraseIs(r);
    EraseIs(s);
    hide Merge, DropMissing;
  }

  /** The first |done| places have been filled; the others still hold the old elements that they took. */
  ghost predicate Filled(content: seq<Node?>, done: seq<Shape>, bank: seq<Shape>, taken: seq<int>) {
    && |done| <= |taken| == |content|
    && (forall j :: 0 <= j < |done| ==> content[j] == done[j].node)
    && (forall j :: |done| <= j < |taken| ==> content[j] == Slot(bank, taken[j]))
  }

  ghost predicate Pending(bank: seq<Shape>, taken: seq<int>, n: nat)
    reads NodesOf(bank)
  {
    forall j :: n <= j < |taken| ==> Still(bank, taken[j])
  }

  ghost predicate Still(bank: seq<Shape>, t: int)
    reads NodesOf(bank)
  {
    0 <= t < |bank| ==> Sound(bank[t]) && Is(bank[t])
  }

  /** What has been filled shares nodes only with the old element that it took. */
  ghost predicate Separate(done: seq<Shape>, bank: seq<Shape>, taken: seq<int>)
    requires |done| <= |taken|
  {
    forall j, e :: 0 <= j < |done| && 0 <= e < |bank| && taken[j] != e ==> Nodes(done[j]) !! Nodes(bank[e])
  }

  ghost function Elementwise(bank: seq<Shape>, t: int, s: Shape, path: Path): Tree {
    if 0 <= t < |bank| then MergeElement(Erase(bank[t]), Erase(s), path) else Erase(s)
  }

  lemma PendingNow(bank: seq<Shape>, taken: seq<int>, i: nat, t: nat)
    requires Pending(bank, taken, i) && i < |taken| && taken[i] == t < |bank|
    ensures Held(bank[t].node, bank[t])
  {}

  /** The old element of place i is apart from what has been filled and from what is still pending. */
  lemma TakenApart(done: seq<Shape>, bank: seq<Shape>, taken: seq<int>, t: nat)
    requires |done| < |taken| && taken[|done|] == t < |bank| && TakenOnce(taken) && Separate(done, bank, taken) && Apart(bank)
    ensures NodesOf(done) !! Nodes(bank[t])
    ensures forall j :: |done| < j < |taken| && 0 <= taken[j] < |bank| ==> Nodes(bank[taken[j]]) !! Nodes(bank[t])
  {
    hide Nodes;
    forall n | n in NodesOf(done) ensures n !in Nodes(bank[t]) {
      var j :| 0 <= j < |done| && n in Nodes(done[j]);
    }
  }

  lemma FilledNext(content: seq<Node?>, done: seq<Shape>, bank: seq<Shape>, taken: seq<int>, x: Shape)
    requires Filled(content, done, bank, taken) && |done| < |taken|
    ensures Filled(content[|done| := x.node], done + [x], bank, taken)
    ensures content[|done|] == Slot(bank, taken[|done|])
  {}

  lemma SeparateNext(done: seq<Shape>, bank: seq<Shape>, taken: seq<int>, x: Shape)
    requires |done| < |taken| && Separate(done, bank, taken) && Apart(bank)
    requires Nodes(x) * NodesOf(bank) <= if 0 <= taken[|done|] < |bank| then Nodes(bank[taken[|done|]]) else {}
    ensures Separate(done + [x], bank, taken)
  {
    hide Nodes;
    forall e | 0 <= e < |bank| && taken[|done|] != e ensures Nodes(x) !! Nodes(bank[e]) {
      KidIn(bank, e);
      if 0 <= taken[|done|] < |bank| {
        assert Nodes(bank[taken[|done|]]) !! Nodes(bank[e]);
      }
    }
  }

  lemma PendingNext(bank: seq<Shape>, taken: seq<int>, n: nat)
    requires Pending(bank, taken, n)
    ensures Pending(bank, taken, n + 1)
  {}

  lemma FilledPlace(content: seq<Node?>, done: seq<Shape>, bank: seq<Shape>, taken: seq<int>)
    requires Filled(content, done, bank, taken) && |done| < |taken|
    ensures |content| == |taken| && content[|done|] == Slot(bank, taken[|done|])
  {}

  /** A place that took no old element gets a copy. */
  method FillNew(dst: Node, src: Node, i: nat, taken: seq<int>, ghost d: Shape, ghost s: Shape, ghost done: seq<Shape>)
      returns (ghost x: Shape)
    requires |done| == i < |taken| == |s.kids| && !(0 <= taken[i] < |d.kids|) && Apart(d.kids)
    requires dst !in NodesOf(d.kids) && dst !in NodesOf(done)
    requires Filled(dst.content, done, d.kids, taken) && AllHeld(done) && Pending(d.kids, taken, i)
    requires Separate(done, d.kids, taken) && src.content == Roots(s.kids) && AllHeld(s.kids) && Plain(s)
    modifies dst`content
    ensures Filled(dst.content, done + [x], d.kids, taken) && AllHeld(done + [x]) && Pending(d.kids, taken, i + 1)
    ensures Separate(done + [x], d.kids, taken) && dst !in NodesOf(done + [x])
    ensures Erase(x) == Erase(s.kids[i])
    ensures forall n :: n in NodesOf(done + [x]) ==> n in NodesOf(done) || fresh(n)
  {
    hide *;
    assert allocated(NodesOf(done)) && allocated(NodesOf(d.kids)) && allocated(Nodes(s));
    KidIn(s.kids, i);
    KidHeld(s.kids, i);
    PlainKid(s, i);
    FilledPlace(dst.content, done, d.kids, taken);
    PendingNext(d.kids, taken, i);
    var c, y := CopyTree(src.content[i], s.kids[i]);
    HeldKids(c, y);
    FilledNext(dst.content, done, d.kids, taken, y);
    SeparateNext(done, d.kids, taken, y);
    HeldAppend(done, c, y);
    assert allocated(NodesOf(done + [y]));
    dst.content := dst.content[i := c];
    x := y;
  }

  /** A place that took an old element has it merged. */
  method FillOld(dst: Node, src: Node, i: nat, taken: seq<int>, path: Path, ghost d: Shape, ghost s: Shape, ghost done: seq<Shape>)
      returns (ghost x: Shape)
    requires |done| == i < |taken| == |s.kids| && 0 <= taken[i] < |d.kids| && Apart(d.kids) && TakenOnce(taken)
    requires dst !in NodesOf(d.kids) && dst !in NodesOf(done) && NodesOf(d.kids) !! Nodes(s)
    requires Filled(dst.content, done, d.kids, taken) && AllHeld(done) && Pending(d.kids, taken, i)
    requires Separate(done, d.kids, taken) && src.content == Roots(s.kids) && AllHeld(s.kids) && Plain(s)
    modifies NodesOf(d.kids)`kind, NodesOf(d.kids)`tag, NodesOf(d.kids)`value, NodesOf(d.kids)`content
    ensures Filled(dst.content, done + [x], d.kids, taken) && AllHeld(done + [x]) && Pending(d.kids, taken, i + 1)
    ensures Separate(done + [x], d.kids, taken) && dst !in NodesOf(done + [x])
    ensures Erase(x) == MergeElement(Erase(d.kids[taken[i]]), Erase(s.kids[i]), path) && x.node == d.kids[taken[i]].node
    ensures forall n :: n in NodesOf(done + [x]) ==> n in NodesOf(done) || n in NodesOf(d.kids) || fresh(n)
    decreases s, 1
  {
    hide Held, AllHeld, Nodes, NodesOf, Sound, Is, Plain, Filled, Separate, Erase, MergeElement, Roots, Apart, TakenOnce;
    ghost var bank, t := d.kids, taken[i];
    assert allocated(NodesOf(done)) && allocated(NodesOf(bank)) && allocated(Nodes(s));
    KidIn(s.kids, i);
    KidHeld(s.kids, i);
    PlainKid(s, i);
    KidIn(bank, t);
    FilledPlace(dst.content, done, bank, taken);
    PendingNow(bank, taken, i, t);
    TakenApart(done, bank, taken, t);
    KidNodes(s);
    var e := dst.content[i];
    ghost var y := MergeElementAt(e, src.content[i], path, bank[t], s.kids[i]);
    HeldKids(e, y);
    forall j | i + 1 <= j < |taken| ensures Still(bank, taken[j]) {
      assert old(Still(bank, taken[j]));
      if 0 <= taken[j] < |bank| {
        ghost var other := bank[taken[j]];
        assert Nodes(other) !! Nodes(bank[t]) && old(allocated(Nodes(other)));
        assert Sound(other) && Is(other);
      }
    }
    FilledNext(dst.content, done, bank, taken, y);
    assert dst.content[i := y.node] == dst.content;
    SeparateNext(done, bank, taken, y);
    HeldAppend(done, e, y);
    x := y;
  }

  /** What the filled places hold. */
  ghost predicate DoneRight(done: seq<Shape>, bank: seq<Shape>, taken: seq<int>, s: Shape, path: Path) {
    && |done| <= |taken| == |s.kids|
    && (forall j :: 0 <= j < |done| ==> Erase(done[j]) == Elementwise(bank, taken[j], s.kids[j], path))
    && (forall j :: 0 <= j < |done| && 0 <= taken[j] < |bank| ==> done[j].node == bank[taken[j]].node)
  }

  lemma DoneNext(done: seq<Shape>, bank: seq<Shape>, taken: seq<int>, s: Shape, path: Path, x: Shape)
    requires DoneRight(done, bank, taken, s, path) && |done| < |taken|
    requires Erase(x) == Elementwise(bank, taken[|done|], s.kids[|done|], path)
    requires 0 <= taken[|done|] < |bank| ==> x.node == bank[taken[|done|]].node
    ensures DoneRight(done + [x], bank, taken, s, path)
  {
    hide Elementwise, Erase;
  }

  lemma NothingDone(content: seq<Node?>, bank: seq<Shape>, taken: seq<int>, s: Shape, path: Path)
    requires AllHeld(bank) && |content| == |taken| == |s.kids| && forall j :: 0 <= j < |taken| ==> content[j] == Slot(bank, taken[j])
    ensures DoneRight([], bank, taken, s, path) && Filled(content, [], bank, taken) && AllHeld([]) && NodesOf([]) == {}
    ensures Pending(bank, taken, 0) && Separate([], bank, taken) && Apart(bank)
  {}

  lemma AllFilled(content: seq<Node?>, done: seq<Shape>, bank: seq<Shape>, taken: seq<int>)
    requires Filled(content, done, bank, taken) && |done| == |taken|
    ensures content == Roots(done)
  {}

  /** The loop over the places that both sequences have. */
  method FillSlots(dst: Node, src: Node, taken: seq<int>, path: Path, ghost d: Shape, ghost s: Shape) returns (ghost done: seq<Shape>)
    requires AllHeld(d.kids) && TakenOnce(taken) && dst !in NodesOf(d.kids) && NodesOf(d.kids) !! Nodes(s) && dst !in Nodes(s)
    requires Held(src, s) && Plain(s) && s.kind == SequenceNode && |dst.content| == |taken| == |s.kids|
    requires forall j :: 0 <= j < |taken| ==> dst.content[j] == Slot(d.kids, taken[j])
    modifies dst`content, NodesOf(d.kids)`kind, NodesOf(d.kids)`tag, NodesOf(d.kids)`value, NodesOf(d.kids)`content
    ensures AllHeld(done) && dst.content == Roots(done) && DoneRight(done, d.kids, taken, s, path) && |done| == |taken|
    ensures dst !in NodesOf(done) && forall n :: n in NodesOf(done) ==> n in NodesOf(d.kids) || fresh(n)
    decreases s, 2
  {
    hide *;
    HeldKids(src, s);
    assert allocated(Nodes(s)) && allocated(NodesOf(s.kids)) && allocated(NodesOf(d.kids));
    done := [];
    NothingDone(dst.content, d.kids, taken, s, path);
    for i := 0 to |src.content|
      invariant |done| == i <= |taken| && dst !in NodesOf(done)
      invariant Filled(dst.content, done, d.kids, taken) && AllHeld(done) && Pending(d.kids, taken, i)
      invariant Separate(done, d.kids, taken) && DoneRight(done, d.kids, taken, s, path)
      invariant src.content == Roots(s.kids) && AllHeld(s.kids) && Plain(s)
      invariant forall n :: n in NodesOf(done) ==> n in NodesOf(d.kids) || fresh(n)
    {
      assert allocated(Nodes(s)) && allocated(NodesOf(s.kids));
      FilledPlace(dst.content, done, d.kids, taken);
      ElementIs(d.kids, taken[i], s.kids[i], path);
      ghost var was := done;
      ghost var x;
      label L:
      if dst.content[i] == null {
        x := FillNew(dst, src, i, taken, d, s, done);
      } else {
        x := FillOld(dst, src, i, taken, path, d, s, done);
      }
      DoneNext(done, d.kids, taken, s, path, x);
      done := done + [x];
      forall n | n in NodesOf(done) && n !in NodesOf(d.kids) ensures fresh(n) {
        if n !in NodesOf(was) {
          assert fresh@L(n);
          assert old(allocated(n)) ==> old@L(allocated(n));
        }
      }
    }
    AllFilled(dst.content, done, d.kids, taken);
  }

  lemma ElementIs(bank: seq<Shape>, t: int, s: Shape, path: Path)
    ensures Slot(bank, t) == null <==> !(0 <= t < |bank|)
    ensures Elementwise(bank, t, s, path) == if 0 <= t < |bank| then MergeElement(Erase(bank[t]), Erase(s), path) else Erase(s)
  {}

  /** The elements of the merged sequence; each old element that is taken stays the same node. */
  method MergeItems(dst: Node, src: Node, path: Path, ghost d: Shape, ghost s: Shape) returns (ghost r: Shape)
    requires Held(dst, d) && Held(src, s) && Plain(s) && Nodes(d) !! Nodes(s)
    requires d.kind == SequenceNode && s.kind == SequenceNode
    modifies Nodes(d)`kind, Nodes(d)`tag, Nodes(d)`value, Nodes(d)`content
    ensures Held(dst, r) && r.kind == SequenceNode && forall n :: n in Nodes(r) && n !in Nodes(d) ==> fresh(n)
    ensures AreItems(r.kids, d, s, path)
    decreases s, 3
  {
    hide *;
    assert allocated(Nodes(s)) && allocated(NodesOf(d.kids)) && allocated(Nodes(d));
    HeldKids(dst, d);
    HeldKids(src, s);
    ghost var done;
    if |dst.content| == 0 || |src.content| == 0 {
      if |dst.content| < |src.content| {
        var copies;
        copies, done := CopyKids(src.content, s);
        assert allocated(NodesOf(done));
        dst.content := copies;
      } else {
        dst.content := dst.content[..|src.content|];
        done := [];
        SameLeavesNone(s.kids);
      }
      CopiesAreItems(done, d, s, path);
    } else {
      var taken := ReorderSequence(dst, src, d, s);
      TakenIsOnce(taken, d.kids, s);
      label L:
      done := FillSlots(dst, src, taken, path, d, s);
      FilledAreItems(done, d, s, taken, path);
      forall n | n in NodesOf(done) && n !in NodesOf(d.kids) ensures fresh(n) {
        assert fresh@L(n);
        assert old(allocated(n)) ==> old@L(allocated(n));
      }
    }
    r := Shape(dst, SequenceNode, d.tag, d.value, done);
    ItemsHeld(dst, r);
  }

  ghost predicate AreItems(done: seq<Shape>, d: Shape, s: Shape, path: Path) {
    && |done| == |s.kids|
    && (forall i :: 0 <= i < |s.kids| ==>
          Erase(done[i]) == MergeItem(EraseItems(d.kids), Sequence(EraseItems(s.kids)), i, path))
    && (forall i :: 0 <= i < |s.kids| && MatchOf(EraseItems(d.kids), EraseItems(s.kids), i) >= 0 ==>
          done[i].node == d.kids[MatchOf(EraseItems(d.kids), EraseItems(s.kids), i)].node)
  }

  lemma ItemIs(d: Shape, s: Shape, i: nat, path: Path)
    requires i < |s.kids|
    ensures var t := MatchOf(EraseItems(d.kids), EraseItems(s.kids), i);
            t < |d.kids|
            && MergeItem(EraseItems(d.kids), Sequence(EraseItems(s.kids)), i, path) == Elementwise(d.kids, t, s.kids[i], path)
  {
    hide MatchOf, Erase, MergeElement;
  }

  lemma CopiesAreItems(done: seq<Shape>, d: Shape, s: Shape, path: Path)
    requires SameLeaves(done, s.kids, |s.kids|) && (d.kids == [] || s.kids == [])
    ensures AreItems(done, d, s, path)
  {
    hide Erase, MergeItem, MatchOf;
    forall i | 0 <= i < |s.kids|
      ensures MatchOf(EraseItems(d.kids), EraseItems(s.kids), i) < 0
      ensures Erase(done[i]) == MergeItem(EraseItems(d.kids), Sequence(EraseItems(s.kids)), i, path)
    {
      ItemIs(d, s, i, path);
    }
  }

  lemma FilledAreItems(done: seq<Shape>, d: Shape, s: Shape, taken: seq<int>, path: Path)
    requires DoneRight(done, d.kids, taken, s, path) && |done| == |taken| && IsTaken(taken, d.kids, s)
    ensures AreItems(done, d, s, path)
  {
    hide Erase, MergeItem, MatchOf, Elementwise;
    forall i | 0 <= i < |s.kids|
      ensures Erase(done[i]) == MergeItem(EraseItems(d.kids), Sequence(EraseItems(s.kids)), i, path)
    {
      ItemIs(d, s, i, path);
    }
    forall i | 0 <= i < |s.kids| && MatchOf(EraseItems(d.kids), EraseItems(s.kids), i) >= 0
      ensures done[i].node == d.kids[MatchOf(EraseItems(d.kids), EraseItems(s.kids), i)].node
    {
      ItemIs(d, s, i, path);
    }
  }

  /** The case of a sequence in mergeNodePreserve: null stays null for an empty list. */
  method MergeSequence(dst: Node, src: Node, path: Path, ghost d: Shape, ghost s: Shape) returns (ghost r: Shape)
    requires Held(dst, d) && Held(src, s) && Plain(s) && Nodes(d) !! Nodes(s) && s.kind == SequenceNode
    modifies Nodes(d)`kind, Nodes(d)`tag, Nodes(d)`value, Nodes(d)`content
    ensures Held(dst, r) && fresh(Nodes(r) - Nodes(d)) && Erase(r) == Merge(Erase(d), Erase(s), path)
    ensures UniqueKeys(Erase(s)) ==> KeepsNodes(d, r)
    decreases s, 4
  {
    hide *;
    HeldKids(dst, d);
    HeldKids(src, s);
    KindOf(dst, d);
    EraseIs(d);
    if dst.kind == ScalarNode && dst.tag == NULL && |src.content| == 0 {
      r := d;
      KeepsItself(d);
      NullStays(d, s, path);
      return;
    }
    ghost var now := d;
    if dst.kind != SequenceNode {
      assert allocated(Nodes(s));
      dst.kind, dst.tag, dst.content := SequenceNode, "!!seq", [];
      now := Shape(dst, SequenceNode, "", "", []);
      SameLeavesNone([]);
      ItemsHeld(dst, now);
    }
    label L:
    r := MergeItems(dst, src, path, now, s);
    HeldKids(dst, r);
    KeepsRoot(d, r);
    SequenceIs(d, now, s, r, path);
    forall n | n in Nodes(r) && n !in Nodes(d) ensures fresh(n) {
      assert n !in Nodes(now) && fresh@L(n);
      assert old(allocated(n)) ==> old@L(allocated(n));
    }
  }

  lemma NullStays(d: Shape, s: Shape, path: Path)
    requires d.kind == ScalarNode && d.tag == NULL && s.kind == SequenceNode && s.kids == []
    ensures Merge(Erase(d), Erase(s), path) == Erase(d)
  {}

  lemma SequenceIs(d: Shape, now: Shape, s: Shape, r: Shape, path: Path)
    requires s.kind == SequenceNode == r.kind && !(d.kind == ScalarNode && d.tag == NULL && s.kids == [])
    requires Arranged(d.kind, d.kids) && now.kind == SequenceNode && now.kids == if d.kind == SequenceNode then d.kids else []
    requires AreItems(r.kids, now, s, path)
    ensures Erase(r) == Merge(Erase(d), Erase(s), path)
  {
    hide MergeItem, MatchOf;
    EraseIs(d);
    EraseIs(r);
    EraseIs(s);
    assert ItemsOf(Erase(d)) == EraseItems(now.kids);
    assert EraseItems(r.kids) == Merge(Erase(d), Erase(s), path).items;
  }

  // ---- The merge of two documents ----

  /** mergeMappingPreserve. Afterwards the destination reads as the source and has all its scalars but omittable ones,
      unless the source has blank keys in list elements; every key and value node of a mapping that stays one is still in its place. */
  method MergeMappingPreserve(dst: Node, src: Node, path: Path, ghost d: Shape, ghost s: Shape) returns (ghost r: Shape)
    requires Held(dst, d) && Held(src, s) && Plain(s) && Nodes(d) !! Nodes(s)
    modifies Nodes(d)`kind, Nodes(d)`tag, Nodes(d)`value, Nodes(d)`content
    ensures Held(dst, r) && fresh(Nodes(r) - Nodes(d)) && Erase(r) == MergeRoots(Erase(d), Erase(s), path)
    ensures UniqueKeys(Erase(s)) ==> KeepsNodes(d, r)
    ensures UniqueKeys(Erase(s)) && NoBlankKeys(Erase(s), false) ==>
              ReadsAs(Erase(r), Erase(s), path) && KeepsScalars(Erase(r), Erase(s), path)
  {
    hide *;
    HeldKids(dst, d);
    HeldKids(src, s);
    RootsMerged(d, s, path);
    if dst.kind != MappingNode || src.kind != MappingNode {
      assert allocated(Nodes(s));
      r := CopyShallow(dst, src, s);
      HeldKids(dst, r);
      KeepsRoot(d, r);
    } else {
      r := MergeMapping(dst, src, path, d, s);
    }
  }

  lemma RootsMerged(d: Shape, s: Shape, path: Path)
    ensures MergeRoots(Erase(d), Erase(s), path)
         == if d.kind == MappingNode && s.kind == MappingNode
            then Mapping(MergePairs(ErasePairs(d.kids), Erase(s), |s.kids| / 2, path)) else Erase(s)
    ensures UniqueKeys(Erase(s)) && NoBlankKeys(Erase(s), false) ==>
              ReadsAs(MergeRoots(Erase(d), Erase(s), path), Erase(s), path)
              && KeepsScalars(MergeRoots(Erase(d), Erase(s), path), Erase(s), path)
  {
    hide MergePairs, ReadsAs, NoBlankKeys, UniqueKeys, KeepsScalars;
    EraseIs(d);
    EraseIs(s);
    if UniqueKeys(Erase(s)) && NoBlankKeys(Erase(s), false) {
      MergeRootsFaithful(Erase(d), Erase(s), path);
      MergeKeepsScalars(Erase(d), Erase(s), path);
    }
  }
}
