/** YAML nodes as the parser links them, possibly shared and cyclic, and the deep copy of such a graph. */
module YamlNode {

  datatype Kind = UnknownNode | DocumentNode | SequenceNode | MappingNode | ScalarNode | AliasNode

  class Node {
    var kind: Kind
    var tag: string
    var value: string
    /** Style, anchor and comments. */
    var dress: string
    var alias: Node?
    var content: seq<Node?>

    constructor (kind: Kind, tag: string, value: string, dress: string)
      ensures this.kind == kind && this.tag == tag && this.value == value && this.dress == dress
      ensures alias == null && content == []
    {
      this.kind, this.tag, this.value, this.dress := kind, tag, value, dress;
      alias, content := null, [];
    }
  }

  /** Every edge of a node of u leads to a node of u. */
  ghost predicate Closed(u: set<Node>)
    reads u
  {
    forall n :: n in u ==> n.alias in u + {null} && forall i :: 0 <= i < |n.content| ==> n.content[i] in u + {null}
  }

  /** u holds the nodes reachable from n: the least closed set that has n. */
  ghost predicate IsReach(u: set<Node>, n: Node)
    reads u
  {
    n in u && Closed(u) && forall v: set<Node> :: v <= u && n in v && Closed(v) ==> v == u
  }

  ghost predicate MapsTo(m: map<Node, Node>, n: Node?, c: Node?) {
    if n == null then c == null else n in m && c == m[n]
  }

  /** The first edges, as many as there are in to, have been led to copies. */
  ghost predicate Copied(m: map<Node, Node>, from: seq<Node?>, to: seq<Node?>) {
    |to| <= |from| && forall i :: 0 <= i < |to| ==> MapsTo(m, from[i], to[i])
  }

  ghost predicate SameFields(n: Node, c: Node)
    reads n, c
  {
    c.kind == n.kind && c.tag == n.tag && c.value == n.value && c.dress == n.dress
  }

  /** The copy of k has the content of k with its edges led to copies. */
  ghost predicate Linked(m: map<Node, Node>, k: Node)
    requires k in m
    reads k, m[k]
  {
    var c := m[k];
    && SameFields(k, c)
    && MapsTo(m, k.alias, c.alias)
    && |c.content| == |k.content| && Copied(m, k.content, c.content)
  }

  ghost predicate AllLinked(m: map<Node, Node>, except: set<Node>)
    reads m.Keys, m.Values
  {
    forall k :: k in m && k !in except ==> Linked(m, k)
  }

  ghost predicate Injective(m: map<Node, Node>) {
    forall a, b :: a in m && b in m && a != b ==> m[a] != m[b]
  }

  /** m maps the graph below n one to one onto the graph below cp, with every edge. */
  ghost predicate Isomorphic(m: map<Node, Node>, u: set<Node>, n: Node, cp: Node)
    reads m.Keys, m.Values
  {
    m.Keys == u && n in m && m[n] == cp && Injective(m) && AllLinked(m, {})
  }

  ghost predicate Extends(m: map<Node, Node>, before: map<Node, Node>) {
    forall k :: k in before ==> k in m && m[k] == before[k]
  }

  /** A copy of part of a closed graph, complete but for the nodes of open. */
  ghost predicate Copying(m: map<Node, Node>, u: set<Node>, avoid: set<Node>, open: set<Node>)
    reads u, m.Keys, m.Values
  {
    Closed(u) && m.Keys <= u <= avoid && m.Values !! avoid && Injective(m) && AllLinked(m, open)
  }

  /** How many nodes are still to be copied. */
  ghost function Room(u: set<Node>, m: map<Node, Node>): nat {
    |u - m.Keys|
  }

  ghost predicate Grew(m: map<Node, Node>, before: map<Node, Node>, u: set<Node>) {
    Extends(m, before) && Room(u, m) <= Room(u, before)
  }

  class Copier {
    var seen: map<Node, Node>

    constructor ()
      ensures seen == map[]
    {
      seen := map[];
    }

    /** deepCopyNodeSeen. The nodes of open are those whose copying is under way: their copies still lack edges. */
    method Copy(n: Node?, ghost u: set<Node>, ghost avoid: set<Node>, ghost open: set<Node>) returns (cp: Node?)
      requires Copying(seen, u, avoid, open) && open <= seen.Keys && n in u + {null}
      modifies this
      ensures Copying(seen, u, avoid, open) && Grew(seen, old(seen), u) && MapsTo(seen, n, cp)
      decreases Room(u, seen), 2
    {
      if n == null {
        return null;
      }
      if n in seen {
        return seen[n];
      }
      cp := CopyNew(n, u, avoid, open);
    }

    method CopyNew(n: Node, ghost u: set<Node>, ghost avoid: set<Node>, ghost open: set<Node>) returns (c: Node)
      requires Copying(seen, u, avoid, open) && open <= seen.Keys && n in u && n !in seen
      modifies this
      ensures Copying(seen, u, avoid, open) && Grew(seen, old(seen), u) && MapsTo(seen, n, c)
      decreases Room(u, seen), 1
    {
      hide Copying, Grew, Linked, AllLinked, Injective, Room, Copied, MapsTo;
      c := new Node(n.kind, n.tag, n.value, n.dress);
      EnterCopy(seen, n, c, u, avoid, open);
      seen := seen[n := c];
      ghost var before := seen;
      var alias, content := CopyEdges(n, u, avoid, open + {n});
      GrewOn(old(seen), before, seen, u);
      MapsToStays(before, seen, u, n, c);
      SetEdges(n, c, alias, content, u, avoid, open);
    }

    method SetEdges(n: Node, c: Node, alias: Node?, content: seq<Node?>, ghost u: set<Node>, ghost avoid: set<Node>, ghost open: set<Node>)
      requires Copying(seen, u, avoid, open + {n}) && MapsTo(seen, n, c) && SameFields(n, c)
      requires MapsTo(seen, n.alias, alias) && |content| == |n.content| && Copied(seen, n.content, content)
      modifies c`alias, c`content
      ensures Copying(seen, u, avoid, open)
    {
      hide Linked;
      assert c in seen.Values && c !in u;
      c.alias, c.content := alias, content;
      forall k | k in seen && k !in open + {n} ensures Linked(seen, k) {
        assert old(Linked(seen, k)) && seen[k] != c;
      }
      NowLinked(seen, n, c);
    }

    method CopyEdges(n: Node, ghost u: set<Node>, ghost avoid: set<Node>, ghost open: set<Node>) returns (alias: Node?, content: seq<Node?>)
      requires Copying(seen, u, avoid, open) && open <= seen.Keys && n in u
      modifies this
      ensures Copying(seen, u, avoid, open) && Grew(seen, old(seen), u)
      ensures MapsTo(seen, n.alias, alias) && |content| == |n.content| && Copied(seen, n.content, content)
      decreases Room(u, seen), 4
    {
      hide *;
      EdgesWithin(seen, u, avoid, open, n);
      alias := Copy(n.alias, u, avoid, open);
      ghost var before := seen;
      KeysStay(old(seen), before, u, open);
      content := CopyContent(n, u, avoid, open);
      GrewOn(old(seen), before, seen, u);
      MapsToStays(before, seen, u, n.alias, alias);
    }

    method CopyContent(n: Node, ghost u: set<Node>, ghost avoid: set<Node>, ghost open: set<Node>) returns (content: seq<Node?>)
      requires Copying(seen, u, avoid, open) && open <= seen.Keys && n in u
      modifies this
      ensures Copying(seen, u, avoid, open) && Grew(seen, old(seen), u)
      ensures |content| == |n.content| && Copied(seen, n.content, content)
      decreases Room(u, seen), 3
    {
      hide *;
      EdgesWithin(seen, u, avoid, open, n);
      NoneCopied(seen, n.content);
      GrewNone(seen, u);
      content := [];
      for i := 0 to |n.content|
        invariant Copying(seen, u, avoid, open) && open <= seen.Keys && Grew(seen, old(seen), u)
        invariant Room(u, seen) <= Room(u, old(seen))
        invariant |content| == i && Copied(seen, n.content, content)
      {
        ghost var before := seen;
        var x := Copy(n.content[i], u, avoid, open);
        GrewOn(old(seen), before, seen, u);
        KeysStay(before, seen, u, open);
        CopiedMore(before, seen, u, n.content, content, x);
        content := content + [x];
      }
    }
  }

  lemma KeysStay(m: map<Node, Node>, more: map<Node, Node>, u: set<Node>, open: set<Node>)
    requires Grew(more, m, u) && open <= m.Keys
    ensures open <= more.Keys
  {}

  lemma GrewNone(m: map<Node, Node>, u: set<Node>)
    ensures Grew(m, m, u)
  {}

  lemma GrewOn(a: map<Node, Node>, b: map<Node, Node>, c: map<Node, Node>, u: set<Node>)
    requires Grew(b, a, u) && Grew(c, b, u)
    ensures Grew(c, a, u) && Room(u, c) <= Room(u, b) <= Room(u, a)
  {}

  lemma MapsToStays(m: map<Node, Node>, more: map<Node, Node>, u: set<Node>, n: Node?, c: Node?)
    requires MapsTo(m, n, c) && Grew(more, m, u)
    ensures MapsTo(more, n, c)
  {}

  lemma SmallerSet<T>(a: set<T>, b: set<T>)
    requires a < b
    ensures |a| < |b|
  {
    assert b == a + (b - a);
    assert |b - a| != 0 by {
      assert b - a == {} ==> a == b;
    }
  }

  lemma LinkedStays(m: map<Node, Node>, more: map<Node, Node>, k: Node)
    requires k in m && Linked(m, k) && Extends(more, m)
    ensures Linked(more, k)
  {}

  lemma NoneCopied(m: map<Node, Node>, from: seq<Node?>)
    ensures Copied(m, from, [])
  {}

  lemma CopiedMore(m: map<Node, Node>, more: map<Node, Node>, u: set<Node>, from: seq<Node?>, to: seq<Node?>, x: Node?)
    requires Copied(m, from, to) && Grew(more, m, u) && |to| < |from| && MapsTo(more, from[|to|], x)
    ensures Copied(more, from, to + [x])
  {}

  lemma EdgesWithin(m: map<Node, Node>, u: set<Node>, avoid: set<Node>, open: set<Node>, n: Node)
    requires Copying(m, u, avoid, open) && n in u
    ensures n.alias in u + {null} && forall i :: 0 <= i < |n.content| ==> n.content[i] in u + {null}
  {}

  /** A node whose copying starts is left out of what is linked. */
  lemma EnteredLinked(m: map<Node, Node>, n: Node, c: Node, open: set<Node>)
    requires n !in m && AllLinked(m, open)
    ensures AllLinked(m[n := c], open + {n})
  {
    forall k | k in m && k !in open ensures Linked(m[n := c], k) {
      LinkedStays(m, m[n := c], k);
    }
  }

  lemma EnteredInjective(m: map<Node, Node>, n: Node, c: Node, u: set<Node>)
    requires Injective(m) && n !in m && c !in m.Values && c !in u && m.Values !! u
    ensures Injective(m[n := c]) && m[n := c].Values !! u && m[n := c].Values <= m.Values + {c}
  {
    assert forall a :: a in m ==> m[a] in m.Values;
  }

  lemma EnterCopy(m: map<Node, Node>, n: Node, c: Node, u: set<Node>, avoid: set<Node>, open: set<Node>)
    requires Copying(m, u, avoid, open) && n in u && open <= m.Keys && n !in m && c !in m.Values && c !in avoid
    ensures Copying(m[n := c], u, avoid, open + {n}) && Grew(m[n := c], m, u)
    ensures Room(u, m[n := c]) < Room(u, m) && MapsTo(m[n := c], n, c) && open + {n} <= m[n := c].Keys
  {
    hide Closed, Injective, AllLinked, Room;
    EnteredLinked(m, n, c, open);
    EnteredInjective(m, n, c, avoid);
    RoomTaken(m, n, c, u);
  }

  lemma RoomTaken(m: map<Node, Node>, n: Node, c: Node, u: set<Node>)
    requires n in u && n !in m
    ensures Room(u, m[n := c]) < Room(u, m)
  {
    assert n in u - m.Keys && n !in u - m[n := c].Keys;
    assert u - m[n := c].Keys <= u - m.Keys;
    SmallerSet(u - m[n := c].Keys, u - m.Keys);
  }

  lemma NowLinked(m: map<Node, Node>, n: Node, c: Node)
    requires n in m && m[n] == c && SameFields(n, c)
    requires MapsTo(m, n.alias, c.alias) && |c.content| == |n.content| && Copied(m, n.content, c.content)
    ensures Linked(m, n)
  {}

  /** Every node has a least closed set: the nodes allocated are closed, and a closed set that is not least can shrink. */
  lemma ReachExists(n: Node)
    ensures exists u :: IsReach(u, n)
  {
    var all := set o: Node {:trigger allocated(o)} | allocated(o);
    forall o: Node | o in all && o.alias != null ensures o.alias in all {
      var target: Node := o.alias;
      assert allocated(o) && allocated(target);
    }
    forall o: Node, i | o in all && 0 <= i < |o.content| && o.content[i] != null ensures o.content[i] in all {
      var target: Node := o.content[i];
      assert allocated(o) && allocated(target);
    }
    Shrinks(all, n);
  }

  lemma {:induction false} Shrinks(u: set<Node>, n: Node)
    requires Closed(u) && n in u
    ensures exists r :: IsReach(r, n)
    decreases |u|
  {
    if v: set<Node> :| v <= u && n in v && Closed(v) && v != u {
      SmallerSet(v, u);
      Shrinks(v, n);
    } else {
      assert IsReach(u, n);
    }
  }

  /** deepCopyNode terminates on every graph, shared or cyclic, and returns a fresh copy of the part reachable from n with
      its sharing. Nothing that existed is changed. */
  method DeepCopy(n: Node?) returns (cp: Node?, ghost u: set<Node>, ghost m: map<Node, Node>)
    ensures if n == null then cp == null && m == map[] else cp != null && IsReach(u, n) && Isomorphic(m, u, n, cp)
    ensures forall k :: k in m ==> fresh(m[k])
  {
    if n == null {
      return null, {}, map[];
    }
    ReachExists(n);
    u :| IsReach(u, n);
    cp, m := CopyReach(n, u);
  }

  /** The same for a node whose reachable nodes are known. */
  method CopyReach(n: Node, ghost u: set<Node>) returns (cp: Node, ghost m: map<Node, Node>)
    requires IsReach(u, n)
    ensures IsReach(u, n) && Isomorphic(m, u, n, cp)
    ensures forall k :: k in m ==> fresh(m[k])
  {
    hide *;
    var copier := new Copier();
    cp, m := CopyAll(copier, n, u);
  }

  method CopyAll(copier: Copier, n: Node, ghost u: set<Node>) returns (cp: Node, ghost m: map<Node, Node>)
    requires IsReach(u, n) && copier.seen == map[]
    modifies copier
    ensures Isomorphic(m, u, n, cp)
    ensures forall k :: k in m ==> fresh(m[k])
  {
    hide *;
    ghost var avoid := set o: Node {:trigger allocated(o)} | allocated(o);
    CopyStart(u, avoid, n);
    var c := copier.Copy(n, u, avoid, {});
    m := copier.seen;
    CopyComplete(m, u, avoid, n, c);
    cp := c;
  }

  lemma CopyStart(u: set<Node>, avoid: set<Node>, n: Node)
    requires IsReach(u, n) && u <= avoid
    ensures Copying(map[], u, avoid, {}) && n in u
  {}

  lemma CopyComplete(m: map<Node, Node>, u: set<Node>, avoid: set<Node>, n: Node, c: Node?)
    requires IsReach(u, n) && Copying(m, u, avoid, {}) && MapsTo(m, n, c)
    ensures c != null && Isomorphic(m, u, n, c) && forall k :: k in m ==> m[k] !in avoid
  {
    ClosedKeys(m, u, avoid);
    assert forall k :: k in m ==> m[k] in m.Values;
  }

  lemma ClosedKeys(m: map<Node, Node>, u: set<Node>, avoid: set<Node>)
    requires Copying(m, u, avoid, {})
    ensures Closed(m.Keys)
  {
    forall n | n in m.Keys
      ensures n.alias in m.Keys + {null} && forall i :: 0 <= i < |n.content| ==> n.content[i] in m.Keys + {null}
    {
      assert Linked(m, n);
      forall i | 0 <= i < |n.content| ensures n.content[i] in m.Keys + {null} {
        assert MapsTo(m, n.content[i], m[n].content[i]);
      }
    }
  }
}
