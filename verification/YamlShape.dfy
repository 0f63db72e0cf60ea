/**
 * Alias-free trees of nodes in memory: a shape names the nodes of a tree and what they hold, so that the tree of values
 * that a node stands for can be spoken of while nodes are being changed.
 */
module YamlShape {
  import opened Wrappers
  import opened YamlTree
  import opened YamlNode

  /** The children of a mapping are its keys and values in turn, as in the content of the node. */
  datatype Shape = Shape(node: Node, kind: Kind, tag: string, value: string, kids: seq<Shape>)

  ghost function Nodes(sh: Shape): set<Node> {
    {sh.node} + set i, n | 0 <= i < |sh.kids| && n in Nodes(sh.kids[i]) :: n
  }

  ghost function NodesOf(kids: seq<Shape>): set<Node> {
    set i, n | 0 <= i < |kids| && n in Nodes(kids[i]) :: n
  }

  ghost function Roots(kids: seq<Shape>): (r: seq<Node?>)
    ensures |r| == |kids|
  {
    seq(|kids|, i requires 0 <= i < |kids| => kids[i].node)
  }

  ghost predicate Apart(kids: seq<Shape>) {
    forall i, j :: 0 <= i < j < |kids| ==> Nodes(kids[i]) !! Nodes(kids[j])
  }

  /** The children of a mapping or a sequence: the keys are scalars. */
  ghost predicate Arranged(kind: Kind, kids: seq<Shape>) {
    match kind
    case ScalarNode => kids == []
    case SequenceNode => true
    case MappingNode => |kids| % 2 == 0 && forall i :: 0 <= i < |kids| / 2 ==> kids[2 * i].kind == ScalarNode
    case _ => false
  }

  /** No node occurs twice. */
  ghost predicate Sound(sh: Shape) {
    && Arranged(sh.kind, sh.kids)
    && sh.node !in NodesOf(sh.kids)
    && Apart(sh.kids)
    && forall i :: 0 <= i < |sh.kids| ==> Sound(sh.kids[i])
  }

  /** The nodes hold what the shape says. A scalar may still carry the content that it had as a collection. */
  ghost predicate Is(sh: Shape)
    reads Nodes(sh)
  {
    && sh.node.kind == sh.kind
    && (sh.kind == ScalarNode ==> sh.node.tag == sh.tag && sh.node.value == sh.value)
    && (sh.kind != ScalarNode ==> sh.node.content == Roots(sh.kids))
    && forall i :: 0 <= i < |sh.kids| ==> Is(sh.kids[i])
  }

  ghost predicate Held(n: Node, sh: Shape)
    reads Nodes(sh)
  {
    sh.node == n && Sound(sh) && Is(sh)
  }

  ghost predicate AllHeld(kids: seq<Shape>)
    reads NodesOf(kids)
  {
    Apart(kids) && forall i :: 0 <= i < |kids| ==> Sound(kids[i]) && Is(kids[i])
  }

  /** A tree as the parser makes it: no aliases, and nothing below scalars. */
  ghost predicate Plain(sh: Shape)
    reads Nodes(sh)
  {
    forall n :: n in Nodes(sh) ==> n.alias == null && (n.kind == ScalarNode ==> n.content == [])
  }

  /** The tree of values that a shape stands for. */
  ghost function Erase(sh: Shape): Tree {
    match sh.kind
    case MappingNode =>
      Mapping(seq(|sh.kids| / 2, i requires 0 <= i < |sh.kids| / 2 => Pair(sh.kids[2 * i].value, Erase(sh.kids[2 * i + 1]))))
    case SequenceNode => Sequence(seq(|sh.kids|, i requires 0 <= i < |sh.kids| => Erase(sh.kids[i])))
    case _ => Scalar(sh.tag, sh.value)
  }

  ghost function ErasePairs(kids: seq<Shape>): (r: seq<Pair>)
    ensures |r| == |kids| / 2
  {
    seq(|kids| / 2, i requires 0 <= i < |kids| / 2 => Pair(kids[2 * i].value, Erase(kids[2 * i + 1])))
  }

  ghost function EraseItems(kids: seq<Shape>): (r: seq<Tree>)
    ensures |r| == |kids|
  {
    seq(|kids|, i requires 0 <= i < |kids| => Erase(kids[i]))
  }

  lemma EraseIs(sh: Shape)
    ensures sh.kind == MappingNode ==> Erase(sh) == Mapping(ErasePairs(sh.kids))
    ensures sh.kind == SequenceNode ==> Erase(sh) == Sequence(EraseItems(sh.kids))
    ensures sh.kind == ScalarNode ==> Erase(sh) == Scalar(sh.tag, sh.value)
  {}

  // ---- Families of shapes ----

  lemma KidNodes(sh: Shape)
    ensures Nodes(sh) == {sh.node} + NodesOf(sh.kids)
  {}

  lemma HeldKids(n: Node, sh: Shape)
    requires Held(n, sh)
    ensures sh.node == n && n.kind == sh.kind && Nodes(sh) == {n} + NodesOf(sh.kids) && n !in NodesOf(sh.kids)
    ensures AllHeld(sh.kids) && (sh.kind != ScalarNode ==> n.content == Roots(sh.kids))
    ensures sh.kind == ScalarNode ==> n.tag == sh.tag && n.value == sh.value && sh.kids == []
  {}

  lemma KidsHeld(n: Node, sh: Shape)
    requires sh.node == n && Arranged(sh.kind, sh.kids) && n !in NodesOf(sh.kids) && AllHeld(sh.kids)
    requires n.kind == sh.kind
    requires if sh.kind == ScalarNode then n.tag == sh.tag && n.value == sh.value else n.content == Roots(sh.kids)
    ensures Held(n, sh)
  {}

  lemma KidIn(kids: seq<Shape>, i: nat)
    requires i < |kids|
    ensures Nodes(kids[i]) <= NodesOf(kids) && kids[i].node in Nodes(kids[i]) && Roots(kids)[i] == kids[i].node
  {}

  lemma NodesAppend(kids: seq<Shape>, x: Shape)
    ensures NodesOf(kids + [x]) == NodesOf(kids) + Nodes(x)
  {
    var more := kids + [x];
    forall n | n in NodesOf(kids) + Nodes(x) ensures n in NodesOf(more) {
      if n in Nodes(x) {
        assert more[|kids|] == x;
      } else {
        var i :| 0 <= i < |kids| && n in Nodes(kids[i]);
        assert more[i] == kids[i];
      }
    }
  }

  lemma AllHeldAppend(kids: seq<Shape>, x: Shape)
    requires AllHeld(kids) && Sound(x) && Is(x) && Nodes(x) !! NodesOf(kids)
    ensures AllHeld(kids + [x])
  {
    forall i | 0 <= i < |kids| ensures Nodes(kids[i]) !! Nodes(x) {
      KidIn(kids, i);
    }
  }

  lemma HeldAppend(kids: seq<Shape>, n: Node, x: Shape)
    requires AllHeld(kids) && Held(n, x) && Nodes(x) !! NodesOf(kids)
    ensures AllHeld(kids + [x]) && NodesOf(kids + [x]) == NodesOf(kids) + Nodes(x)
    ensures Roots(kids + [x]) == Roots(kids) + [n]
  {
    AllHeldAppend(kids, x);
    NodesAppend(kids, x);
  }

  /** In place of the i-th child comes a shape that shares no node with the others. */
  lemma Replaced(kids: seq<Shape>, i: nat, x: Shape)
    requires i < |kids| && Apart(kids) && Nodes(x) * NodesOf(kids) <= Nodes(kids[i])
    ensures Apart(kids[i := x]) && NodesOf(kids[i := x]) <= NodesOf(kids) + Nodes(x)
  {
    var more := kids[i := x];
    forall j | 0 <= j < |kids| && j != i ensures Nodes(kids[j]) !! Nodes(x) {
      KidIn(kids, j);
    }
  }

  lemma KidReplaced(kids: seq<Shape>, i: nat, n: Node, x: Shape)
    requires i < |kids| && Apart(kids) && forall j :: 0 <= j < |kids| && j != i ==> Sound(kids[j]) && Is(kids[j])
    requires Held(n, x) && Nodes(x) * NodesOf(kids) <= Nodes(kids[i])
    ensures AllHeld(kids[i := x]) && NodesOf(kids[i := x]) <= NodesOf(kids) + Nodes(x)
    ensures n == kids[i].node ==> Roots(kids[i := x]) == Roots(kids)
  {
    Replaced(kids, i, x);
  }

  lemma PairsAppend(kids: seq<Shape>, k: Shape, v: Shape)
    requires |kids| % 2 == 0
    ensures ErasePairs(kids + [k, v]) == ErasePairs(kids) + [Pair(k.value, Erase(v))]
  {}

  lemma PairsReplace(kids: seq<Shape>, i: nat, x: Shape)
    requires 2 * i + 1 < |kids|
    ensures ErasePairs(kids[2 * i + 1 := x]) == ErasePairs(kids)[i := Pair(kids[2 * i].value, Erase(x))]
  {
    hide Erase;
  }

  // ---- Nodes that stay ----

  /** r has the nodes of d where it counts for comments: the root, and all keys and values of mappings that stay mappings,
      at every depth. */
  ghost predicate KeepsNodes(d: Shape, r: Shape) {
    && r.node == d.node
    && (d.kind == MappingNode && r.kind == MappingNode ==>
          |d.kids| <= |r.kids| && forall i :: 0 <= i < |d.kids| ==> KeepsNodes(d.kids[i], r.kids[i]))
  }

  lemma {:induction false} KeepsItself(d: Shape)
    ensures KeepsNodes(d, d)
  {
    forall i | 0 <= i < |d.kids| ensures KeepsNodes(d.kids[i], d.kids[i]) {
      KeepsItself(d.kids[i]);
    }
  }

  // ---- Some of the entries of a mapping ----

  ghost predicate Increasing(sel: seq<nat>, n: nat) {
    (forall i :: 0 <= i < |sel| ==> sel[i] < n) && forall i, j :: 0 <= i < j < |sel| ==> sel[i] < sel[j]
  }

  ghost function Select(kids: seq<Shape>, sel: seq<nat>): (r: seq<Shape>)
    requires Increasing(sel, |kids| / 2)
    ensures |r| == 2 * |sel|
  {
    seq(2 * |sel|, j requires 0 <= j < 2 * |sel| => kids[2 * sel[j / 2] + j % 2])
  }

  lemma SelectHeld(kids: seq<Shape>, sel: seq<nat>)
    requires Increasing(sel, |kids| / 2) && AllHeld(kids) && Arranged(MappingNode, kids)
    ensures AllHeld(Select(kids, sel)) && Arranged(MappingNode, Select(kids, sel))
    ensures NodesOf(Select(kids, sel)) <= NodesOf(kids)
  {
    hide Nodes, Sound, Is;
    var s := Select(kids, sel);
    forall i, j | 0 <= i < j < |s| ensures Nodes(s[i]) !! Nodes(s[j]) {
      assert i / 2 == j / 2 ==> i % 2 < j % 2;
      assert 2 * sel[i / 2] + i % 2 < 2 * sel[j / 2] + j % 2;
    }
    forall i | 0 <= i < |s| / 2 ensures s[2 * i].kind == ScalarNode {
      assert (2 * i) / 2 == i && s[2 * i] == kids[2 * sel[i]];
    }
  }

  lemma SelectMore(kids: seq<Shape>, sel: seq<nat>, e: nat)
    requires Increasing(sel, e) && e < |kids| / 2
    ensures Increasing(sel + [e], e + 1) && Increasing(sel, e + 1)
    ensures Increasing(sel + [e], |kids| / 2) && Increasing(sel, |kids| / 2)
    ensures Select(kids, sel + [e]) == Select(kids, sel) + [kids[2 * e], kids[2 * e + 1]]
  {
    var more, s := Select(kids, sel + [e]), Select(kids, sel) + [kids[2 * e], kids[2 * e + 1]];
    forall j | 0 <= j < 2 * |sel| + 2 ensures more[j] == s[j] {
      assert j < 2 * |sel| ==> j / 2 < |sel|;
    }
  }

  lemma SelectUpdate(kids: seq<Shape>, sel: seq<nat>, e: nat, x: Shape)
    requires Increasing(sel, e) && e < |kids| / 2
    ensures Increasing(sel, |kids| / 2) && Select(kids[2 * e + 1 := x], sel) == Select(kids, sel)
  {}

  // ---- Copies ----

  ghost function Image(sh: Shape, m: map<Node, Node>): Shape
    requires Nodes(sh) <= m.Keys
  {
    Shape(m[sh.node], sh.kind, sh.tag, sh.value,
          seq(|sh.kids|, i requires 0 <= i < |sh.kids| => Image(sh.kids[i], m)))
  }

  lemma {:induction false} ImageErases(sh: Shape, m: map<Node, Node>)
    requires Nodes(sh) <= m.Keys
    ensures Erase(Image(sh, m)) == Erase(sh)
  {
    forall i | 0 <= i < |sh.kids| ensures Erase(Image(sh.kids[i], m)) == Erase(sh.kids[i]) {
      ImageErases(sh.kids[i], m);
    }
  }

  lemma {:induction false} ImageNodes(sh: Shape, m: map<Node, Node>, x: Node)
    requires Nodes(sh) <= m.Keys && x in Nodes(Image(sh, m))
    ensures exists n :: n in Nodes(sh) && m[n] == x
  {
    var im := Image(sh, m);
    if x == im.node {
      assert sh.node in Nodes(sh);
    } else {
      var i :| 0 <= i < |im.kids| && x in Nodes(im.kids[i]);
      ImageNodes(sh.kids[i], m, x);
    }
  }

  lemma {:induction false} ImageSound(sh: Shape, m: map<Node, Node>)
    requires Nodes(sh) <= m.Keys && Sound(sh) && Injective(m)
    ensures Sound(Image(sh, m))
  {
    var im := Image(sh, m);
    forall i | 0 <= i < |sh.kids| ensures Sound(im.kids[i]) && im.node !in Nodes(im.kids[i]) {
      ImageSound(sh.kids[i], m);
      if im.node in Nodes(im.kids[i]) {
        ImageNodes(sh.kids[i], m, im.node);
      }
    }
    forall i, j | 0 <= i < j < |sh.kids| ensures Nodes(im.kids[i]) !! Nodes(im.kids[j]) {
      forall x | x in Nodes(im.kids[i]) && x in Nodes(im.kids[j]) ensures false {
        ImageNodes(sh.kids[i], m, x);
        ImageNodes(sh.kids[j], m, x);
      }
    }
  }

  lemma ImageRoots(sh: Shape, m: map<Node, Node>)
    requires Nodes(sh) <= m.Keys && Linked(m, sh.node) && sh.node.content == Roots(sh.kids)
    ensures m[sh.node].content == Roots(Image(sh, m).kids)
  {
    assert sh.node in Nodes(sh);
    hide Nodes, Image;
    ImageKids(sh, m);
    var c := m[sh.node].content;
    forall i | 0 <= i < |sh.kids| ensures c[i] == Image(sh, m).kids[i].node {
      assert MapsTo(m, sh.node.content[i], c[i]);
    }
  }

  lemma ImageKids(sh: Shape, m: map<Node, Node>)
    requires Nodes(sh) <= m.Keys
    ensures Image(sh, m).node == m[sh.node] && |Image(sh, m).kids| == |sh.kids|
    ensures forall i :: 0 <= i < |sh.kids| ==>
              Nodes(sh.kids[i]) <= m.Keys && sh.kids[i].node in m && Image(sh, m).kids[i] == Image(sh.kids[i], m)
              && Image(sh, m).kids[i].node == m[sh.kids[i].node]
  {}

  lemma {:induction false} ImageIs(sh: Shape, m: map<Node, Node>)
    requires Nodes(sh) <= m.Keys && Is(sh) && AllLinked(m, {})
    ensures Is(Image(sh, m))
  {
    assert Linked(m, sh.node);
    if sh.kind != ScalarNode {
      ImageRoots(sh, m);
    }
    forall i | 0 <= i < |sh.kids| ensures Is(Image(sh.kids[i], m)) {
      ImageIs(sh.kids[i], m);
    }
    hide Linked, Roots, AllLinked;
  }

  /** A plain tree is closed, and all of it is reachable from its root. */
  lemma {:induction false} TreeWithin(sh: Shape, v: set<Node>)
    requires Sound(sh) && Is(sh) && Plain(sh) && sh.node in v
    requires forall n :: n in Nodes(sh) && n in v ==> forall i :: 0 <= i < |n.content| ==> n.content[i] in v + {null}
    ensures Nodes(sh) <= v
  {
    hide *;
    RootBelow(sh);
    forall i | 0 <= i < |sh.kids| ensures Nodes(sh.kids[i]) <= v {
      KidRoot(sh, i);
      KidBelow(sh, i);
      TreeWithin(sh.kids[i], v);
    }
    KidsWithin(sh, v);
  }

  lemma RootBelow(sh: Shape)
    ensures sh.node in Nodes(sh)
  {}

  lemma KidsWithin(sh: Shape, v: set<Node>)
    requires sh.node in v && forall i :: 0 <= i < |sh.kids| ==> Nodes(sh.kids[i]) <= v
    ensures Nodes(sh) <= v
  {}

  lemma KidBelow(sh: Shape, i: nat)
    requires Sound(sh) && Is(sh) && Plain(sh) && i < |sh.kids|
    ensures Sound(sh.kids[i]) && Is(sh.kids[i]) && Plain(sh.kids[i])
    ensures Nodes(sh.kids[i]) <= Nodes(sh) && sh.node in Nodes(sh)
  {}

  lemma KidRoot(sh: Shape, i: nat)
    requires Sound(sh) && Is(sh) && Plain(sh) && i < |sh.kids|
    ensures i < |sh.node.content| && sh.node.content[i] == sh.kids[i].node
  {}

  lemma {:induction false} TreeClosed(sh: Shape)
    requires Sound(sh) && Is(sh) && Plain(sh)
    ensures Closed(Nodes(sh))
    decreases sh
  {
    forall n | n in Nodes(sh)
      ensures n.alias == null && forall i :: 0 <= i < |n.content| ==> n.content[i] in Nodes(sh) + {null}
    {
      if n == sh.node {
        if sh.kind != ScalarNode {
          forall i | 0 <= i < |n.content| ensures n.content[i] in Nodes(sh) {
            assert sh.kids[i].node in Nodes(sh.kids[i]);
          }
        }
      } else {
        var k :| 0 <= k < |sh.kids| && n in Nodes(sh.kids[k]);
        TreeClosed(sh.kids[k]);
      }
    }
  }

  lemma TreeIsReach(sh: Shape)
    requires Sound(sh) && Is(sh) && Plain(sh)
    ensures IsReach(Nodes(sh), sh.node)
  {
    TreeClosed(sh);
    forall v: set<Node> | v <= Nodes(sh) && sh.node in v && Closed(v) ensures v == Nodes(sh) {
      TreeWithin(sh, v);
    }
  }
}
