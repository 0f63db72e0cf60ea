/** A bounded map that evicts its least recently used entry, kept as a map over a doubly linked list. */
module BoundedLru {
  import opened Wrappers
  import opened Bytes
  import opened Eviction

  datatype Pair<K, V> = Pair(key: K, value: V)

  // ---- The plain recency list ----

  /** Position of a key; |list| when it is not there. */
  function Find<K(==), V>(list: seq<Pair<K, V>>, key: K): (i: nat)
    ensures i <= |list|
    ensures i < |list| ==> list[i].key == key
    ensures forall j :: 0 <= j < i ==> list[j].key != key
  {
    if list == [] || list[0].key == key then 0
    else
      var i := 1 + Find(list[1..], key);
      assert forall j :: 1 <= j < i ==> list[j] == list[1..][j - 1];
      i
  }

  function Without<T>(list: seq<T>, i: nat): seq<T>
    requires i < |list|
  {
    list[..i] + list[i + 1..]
  }

  lemma WithoutLast<T>(list: seq<T>)
    requires list != []
    ensures Without(list, |list| - 1) == DropLast(list)
  {}

  /** A lookup moves the entry that it finds to the front. */
  function Touched<T>(list: seq<T>, i: nat): seq<T>
    requires i < |list|
  {
    [list[i]] + Without(list, i)
  }

  function DropLast<T>(list: seq<T>): seq<T>
    requires list != []
  {
    list[..|list| - 1]
  }

  function Last<T>(list: seq<T>): T
    requires list != []
  {
    list[|list| - 1]
  }

  /** An insertion evicts the last entry when the list outgrows its capacity. */
  function Inserted<T>(list: seq<T>, capacity: nat, pair: T): seq<T> {
    var longer := [pair] + list;
    if |longer| > capacity then DropLast(longer) else longer
  }

  function Evicted<T>(list: seq<T>, capacity: nat, pair: T): seq<T> {
    var longer := [pair] + list;
    if |longer| > capacity then [Last(longer)] else []
  }

  ghost predicate DistinctKeys<K, V>(list: seq<Pair<K, V>>) {
    forall i, j :: 0 <= i < j < |list| ==> list[i].key != list[j].key
  }

  /** Moving an entry to the front changes no entry. */
  lemma TouchedConserves<K, V>(list: seq<Pair<K, V>>, i: nat)
    requires i < |list| && DistinctKeys(list)
    ensures multiset(Touched(list, i)) == multiset(list) && DistinctKeys(Touched(list, i))
    ensures |Touched(list, i)| == |list|
  {
    var moved := Touched(list, i);
    assert list == list[..i] + [list[i]] + list[i + 1..];
    assert multiset(list[..i] + [list[i]] + list[i + 1..]) == multiset(list[..i]) + multiset{list[i]} + multiset(list[i + 1..]);
    forall j, l | 0 <= j < l < |moved| ensures moved[j].key != moved[l].key {
      assert moved[l] == if l <= i then list[l - 1] else list[l];
      assert moved[j] == if j == 0 then list[i] else if j <= i then list[j - 1] else list[j];
    }
  }

  /** And no two others change places. */
  lemma TouchedKeeps<K, V>(list: seq<Pair<K, V>>, i: nat)
    requires i < |list| && DistinctKeys(list)
    ensures multiset(Touched(list, i)) == multiset(list) && DistinctKeys(Touched(list, i))
    ensures Find(Touched(list, i), list[i].key) == 0
    ensures forall a, b :: 0 <= a < b < |list| && a != i && b != i ==>
              Find(Touched(list, i), list[a].key) < Find(Touched(list, i), list[b].key)
  {
    var moved := Touched(list, i);
    TouchedConserves(list, i);
    forall a | 0 <= a < |list|
      ensures Find(moved, list[a].key) == if a == i then 0 else if a < i then a + 1 else a
    {
      var to := if a == i then 0 else if a < i then a + 1 else a;
      assert moved[to] == list[a];
      FindIs(moved, to);
    }
  }

  lemma FindIs<K, V>(list: seq<Pair<K, V>>, i: nat)
    requires i < |list| && DistinctKeys(list)
    ensures Find(list, list[i].key) == i
  {}

  lemma InsertedConserves<T>(list: seq<T>, capacity: nat, pair: T)
    ensures multiset(Inserted(list, capacity, pair)) + multiset(Evicted(list, capacity, pair)) == multiset(list) + multiset{pair}
  {
    var kept, gone := Inserted(list, capacity, pair), Evicted(list, capacity, pair);
    assert [pair] + list == kept + gone;
    assert multiset(kept + gone) == multiset(kept) + multiset(gone);
    assert multiset([pair] + list) == multiset{pair} + multiset(list);
  }

  /** An insertion keeps the capacity, evicts at most the last entry, never the new one, and loses nothing else. */
  lemma InsertedKeeps<K, V>(list: seq<Pair<K, V>>, capacity: nat, pair: Pair<K, V>)
    requires capacity >= 1 && |list| <= capacity && DistinctKeys(list)
    requires forall j :: 0 <= j < |list| ==> list[j].key != pair.key
    ensures |Inserted(list, capacity, pair)| <= capacity && DistinctKeys(Inserted(list, capacity, pair))
    ensures Inserted(list, capacity, pair)[0] == pair
    ensures Evicted(list, capacity, pair) == if |list| == capacity then [list[|list| - 1]] else []
    ensures multiset(Inserted(list, capacity, pair)) + multiset(Evicted(list, capacity, pair)) == multiset(list) + multiset{pair}
  {
    InsertedConserves(list, capacity, pair);
    var kept := Inserted(list, capacity, pair);
    forall i, j | 0 <= i < j < |kept| ensures kept[i].key != kept[j].key {
      assert kept[j] == list[j - 1];
      assert kept[i] == if i == 0 then pair else list[i - 1];
    }
  }

  // ---- The linked list ----

  class Element<K, V> {
    const content: Option<Pair<K, V>>
    var next: Element?<K, V>
    var prev: Element?<K, V>

    constructor (content: Option<Pair<K, V>>)
      ensures this.content == content && next == null && prev == null
    {
      this.content, next, prev := content, null, null;
    }
  }

  ghost predicate Linked<K, V>(ring: seq<Element<K, V>>)
    reads ring
  {
    forall i :: 0 <= i < |ring| - 1 ==> ring[i].next == ring[i + 1] && ring[i + 1].prev == ring[i]
  }

  /** A ring through a sentinel: its successor is the front, its predecessor the back. */
  class List<K, V> {
    const root: Element<K, V>
    ghost var nodes: seq<Element<K, V>>

    ghost function Ring(): seq<Element<K, V>>
      reads this
    {
      [root] + nodes + [root]
    }

    ghost predicate Valid()
      reads this, root, nodes
    {
      && root !in nodes
      && DistinctNodes(nodes)
      && Linked(Ring())
    }

    lemma NodesDistinct()
      requires Valid()
      ensures DistinctNodes(nodes) && root !in nodes
    {}

    constructor ()
      ensures Valid() && nodes == [] && fresh(root)
    {
      var sentinel := new Element(None);
      root, nodes := sentinel, [];
      new;
      root.next, root.prev := root, root;
    }

    method Back() returns (e: Element<K, V>)
      requires Valid()
      ensures e == if nodes == [] then root else nodes[|nodes| - 1]
    {
      var n := |nodes|;
      assert Ring()[n + 1].prev == Ring()[n];
      e := root.prev;
    }

    /** Links an element in behind the sentinel. */
    method PushFront(e: Element<K, V>)
      requires Valid() && e !in nodes && e != root
      modifies this, root, nodes, e
      ensures Valid() && nodes == [e] + old(nodes)
    {
      ghost var ring := Ring();
      assert ring[0].next == ring[1];
      var first := root.next;
      e.prev := root;
      e.next := first;
      root.next := e;
      first.prev := e;
      nodes := [e] + nodes;
      ghost var now := Ring();
      assert now == [root, e] + ring[1..];
      forall i | 0 <= i < |now| - 1 ensures now[i].next == now[i + 1] && now[i + 1].prev == now[i] {
        if i >= 2 {
          assert now[i] == ring[i - 1] == old(nodes)[i - 2] && now[i + 1] == ring[i];
          assert old(ring[i - 1].next == ring[i] && ring[i].prev == ring[i - 1]);
          assert i < |ring| - 1 ==> ring[i] == old(nodes)[i - 1];
        }
      }
    }

    /** Unlinks an element; `k` is its position. */
    method Remove(e: Element<K, V>, ghost k: nat)
      requires Valid() && k < |nodes| && nodes[k] == e
      modifies this`nodes, root, nodes
      ensures Valid() && nodes == Without(old(nodes), k)
    {
      ghost var ring := Ring();
      assert ring[k + 1] == e && ring[k].next == ring[k + 1] && ring[k + 1].next == ring[k + 2];
      var before, after := e.prev, e.next;
      before.next := after;
      after.prev := before;
      e.next, e.prev := null, null;
      nodes := Without(nodes, k);
      ghost var now := Ring();
      assert now == ring[..k + 1] + ring[k + 2..];
      assert ring[k + 2] == if k + 1 < |old(nodes)| then old(nodes)[k + 1] else root;
      assert ring[k] == if k > 0 then old(nodes)[k - 1] else root;
      forall i | 0 <= i < |now| - 1 ensures now[i].next == now[i + 1] && now[i + 1].prev == now[i] {
        var j := if i <= k then i else i + 1;
        assert now[i] == ring[j] && ring[j] == if j > 0 then old(nodes)[j - 1] else root;
        if i != k {
          assert now[i + 1] == ring[j + 1] && ring[j + 1] == if j + 1 <= |old(nodes)| then old(nodes)[j] else root;
          assert old(ring[j].next == ring[j + 1] && ring[j + 1].prev == ring[j]);
        }
      }
    }

    /** Moves an element to the front; `k` is its position. */
    method MoveToFront(e: Element<K, V>, ghost k: nat)
      requires Valid() && k < |nodes| && nodes[k] == e
      modifies this, root, nodes
      ensures Valid() && nodes == Touched(old(nodes), k)
    {
      assert Ring()[0].next == Ring()[1];
      if root.next == e {
        assert k == 0;
        assert nodes == Touched(nodes, 0);
        return;
      }
      Remove(e, k);
      PushFront(e);
    }
  }

  /** A list whose elements did not change stays valid. */
  twostate lemma StaysValid<K, V>(list: List<K, V>)
    requires old(list.Valid()) && unchanged(list) && unchanged(list.root)
    requires forall x :: x in list.nodes ==> unchanged(x)
    ensures list.Valid()
  {
    var ring := list.Ring();
    assert ring == old(list.Ring());
    assert forall i :: 0 <= i < |ring| ==> ring[i] == if 1 <= i <= |list.nodes| then list.nodes[i - 1] else list.root;
    forall i | 0 <= i < |ring| - 1 ensures ring[i].next == ring[i + 1] && ring[i + 1].prev == ring[i] {
      assert ring[i] == list.root || ring[i] in list.nodes;
      assert ring[i + 1] == list.root || ring[i + 1] in list.nodes;
      assert old(ring[i].next == ring[i + 1] && ring[i + 1].prev == ring[i]);
    }
  }

  // ---- The cache ----

  /** The elements hold the pairs of the list; the map leads from every key of the list to the element at its position,
      and from no other key. */
  ghost predicate Coherent<K, V>(entries: map<K, Element<K, V>>, nodes: seq<Element<K, V>>, list: seq<Pair<K, V>>) {
    && |nodes| == |list| == |entries|
    && (forall i :: 0 <= i < |list| ==>
         nodes[i].content == Some(list[i]) && list[i].key in entries && entries[list[i].key] == nodes[i])
    && (forall k :: k in entries ==> Listed(list, k))
  }

  ghost predicate Listed<K, V>(list: seq<Pair<K, V>>, key: K) {
    exists i :: 0 <= i < |list| && list[i].key == key
  }

  /** Whatever was created is in the list or was evicted, and then passed to the callback once. */
  ghost predicate Accounted<T>(created: multiset<T>, list: seq<T>, gone: seq<T>, hasCallback: bool, callbacks: seq<T>) {
    created == multiset(list) + multiset(gone) && callbacks == (if hasCallback then gone else [])
  }

  lemma AccountedTouched<T>(created: multiset<T>, list: seq<T>, gone: seq<T>, hasCallback: bool, callbacks: seq<T>, moved: seq<T>)
    requires Accounted(created, list, gone, hasCallback, callbacks) && multiset(moved) == multiset(list)
    ensures Accounted(created, moved, gone, hasCallback, callbacks)
  {}

  lemma AccountedInserted<T>(created: multiset<T>, list: seq<T>, gone: seq<T>, hasCallback: bool, callbacks: seq<T>, x: T)
    requires Accounted(created, list, gone, hasCallback, callbacks)
    ensures Accounted(created + multiset{x}, [x] + list, gone, hasCallback, callbacks)
  {
    assert multiset([x] + list) == multiset{x} + multiset(list);
  }

  lemma AccountedEvicted<T>(created: multiset<T>, list: seq<T>, gone: seq<T>, hasCallback: bool, callbacks: seq<T>, x: T)
    requires Accounted(created, list, gone, hasCallback, callbacks) && list != [] && x == Last(list)
    ensures Accounted(created, DropLast(list), gone + [x], hasCallback, if hasCallback then callbacks + [x] else callbacks)
  {
    assert list == list[..|list| - 1] + [x];
    assert multiset(gone + [x]) == multiset(gone) + multiset{x};
    assert multiset(list[..|list| - 1] + [x]) == multiset(list[..|list| - 1]) + multiset{x};
  }

  ghost predicate DistinctNodes<K, V>(nodes: seq<Element<K, V>>) {
    forall i, j :: 0 <= i < j < |nodes| ==> nodes[i] != nodes[j]
  }

  lemma CoherentKeys<K, V>(entries: map<K, Element<K, V>>, nodes: seq<Element<K, V>>, list: seq<Pair<K, V>>, key: K)
    requires Coherent(entries, nodes, list) && DistinctNodes(nodes)
    ensures DistinctKeys(list) && |nodes| == |list| == |entries|
    ensures (key in entries) == (Find(list, key) < |list|)
    ensures key in entries ==> entries[key] == nodes[Find(list, key)] && entries[key].content == Some(list[Find(list, key)])
  {
    forall i, j | 0 <= i < j < |list| ensures list[i].key != list[j].key {
      assert entries[list[i].key] == nodes[i] && entries[list[j].key] == nodes[j];
    }
  }

  lemma CoherentTouched<K, V>(entries: map<K, Element<K, V>>, nodes: seq<Element<K, V>>, list: seq<Pair<K, V>>, i: nat)
    requires Coherent(entries, nodes, list) && i < |list|
    ensures Coherent(entries, Touched(nodes, i), Touched(list, i))
  {
    var nodes', list' := Touched(nodes, i), Touched(list, i);
    forall j | 0 <= j < |list'| 
      ensures nodes'[j].content == Some(list'[j]) && list'[j].key in entries && entries[list'[j].key] == nodes'[j]
    {
      var from := if j == 0 then i else if j <= i then j - 1 else j;
      assert list'[j] == list[from] && nodes'[j] == nodes[from];
    }
    forall k | k in entries ensures Listed(list', k) {
      var j :| 0 <= j < |list| && list[j].key == k;
      var to := if j == i then 0 else if j < i then j + 1 else j;
      assert list'[to] == list[j];
    }
  }

  lemma CoherentInserted<K, V>(entries: map<K, Element<K, V>>, nodes: seq<Element<K, V>>, list: seq<Pair<K, V>>, e: Element<K, V>, pair: Pair<K, V>)
    requires Coherent(entries, nodes, list) && pair.key !in entries && e.content == Some(pair)
    ensures Coherent(entries[pair.key := e], [e] + nodes, [pair] + list)
  {
    var entries', list' := entries[pair.key := e], [pair] + list;
    SizeSet(entries, pair.key, e);
    forall k | k in entries' ensures Listed(list', k) {
      if k == pair.key {
        assert list'[0].key == k;
      } else {
        var j :| 0 <= j < |list| && list[j].key == k;
        assert list'[j + 1].key == k;
      }
    }
  }

  lemma ListedFront<K, V>(list: seq<Pair<K, V>>, key: K)
    requires list != [] && Listed(list, key) && key != Last(list).key
    ensures Listed(DropLast(list), key)
  {
    var i :| 0 <= i < |list| && list[i].key == key;
    assert DropLast(list)[i].key == key;
  }

  lemma CoherentEvicted<K, V>(entries: map<K, Element<K, V>>, nodes: seq<Element<K, V>>, list: seq<Pair<K, V>>)
    requires Coherent(entries, nodes, list) && list != [] && DistinctKeys(list)
    ensures |nodes| == |list| && nodes[|nodes| - 1].content == Some(Last(list))
    ensures Coherent(entries - {Last(list).key}, DropLast(nodes), DropLast(list))
  {
    hide Listed;
    var last := |list| - 1;
    SizeRemove(entries, list[last].key);
    forall j | 0 <= j < last ensures list[j].key != list[last].key {}
    forall k | k in entries && k != list[last].key ensures Listed(DropLast(list), k) {
      ListedFront(list, k);
    }
  }

  class BoundedLRU<K(==, !new), V(==, !new)> {
    const capacity: nat
    const hasCallback: bool
    const order: List<K, V>
    var entries: map<K, Element<K, V>>
    /** The calls of the eviction callback, oldest first. */
    var callbacks: seq<Pair<K, V>>
    /** The recency list that the map and the linked list stand for, most recent entry first. */
    ghost var list: seq<Pair<K, V>>
    ghost var created: multiset<Pair<K, V>>
    ghost var gone: seq<Pair<K, V>>

    ghost predicate Conserved()
      reads this
    {
      Accounted(created, list, gone, hasCallback, callbacks)
    }

    ghost predicate Valid()
      reads this, order, order.root, order.nodes
    {
      && order.Valid() && Coherent(entries, order.nodes, list)
      && 1 <= capacity && |list| <= capacity && Conserved()
    }

    constructor (capacity: int, hasCallback: bool)
      ensures Valid() && list == [] && gone == [] && fresh(order) && fresh(order.root)
      ensures this.capacity == (if capacity < 1 then 1 else capacity) && this.hasCallback == hasCallback
    {
      this.capacity := if capacity < 1 then 1 else capacity;
      this.hasCallback := hasCallback;
      order := new List();
      entries, callbacks, list, created, gone := map[], [], [], multiset{}, [];
    }

    /** Moves the entry of a key that is there to the front. */
    method Touch(key: K) returns (value: V)
      requires Valid() && key in entries
      modifies this`list, order, order.root, order.nodes
      ensures Valid() && var i := Find(old(list), key);
              i < |old(list)| && value == old(list)[i].value && list == Touched(old(list), i)
      ensures forall x :: x in order.nodes ==> x in old(order.nodes)
    {
      hide List.Valid, List.Ring, Linked, Coherent, DistinctNodes, Accounted;
      order.NodesDistinct();
      CoherentKeys(entries, order.nodes, list, key);
      ghost var i := Find(list, key);
      TouchedConserves(list, i);
      CoherentTouched(entries, order.nodes, list, i);
      var element := entries[key];
      value := element.content.value.value;
      AccountedTouched(created, list, gone, hasCallback, callbacks, Touched(list, i));
      label before:
      list := Touched(list, i);
      StaysValid@before(order);
      order.MoveToFront(element, i);
    }

    /** Get: the value of a key that is there, which becomes the most recent. */
    method Get(key: K) returns (value: Option<V>)
      requires Valid()
      modifies this`list, order, order.root, order.nodes
      ensures Valid() && var i := Find(old(list), key);
              if i < |old(list)| then value == Some(old(list)[i].value) && list == Touched(old(list), i)
              else value == None && list == old(list)
    {
      hide List.Valid, List.Ring, Linked, Coherent, DistinctNodes, Accounted;
      order.NodesDistinct();
      CoherentKeys(entries, order.nodes, list, key);
      if key in entries {
        var found := Touch(key);
        return Some(found);
      }
      value := None;
    }

    /** GetOrAdd: as Get, or inserts what the caller's function creates, here `made`, evicting the last entry when the
        list outgrows the capacity. */
    method GetOrAdd(key: K, made: V) returns (value: V)
      requires Valid()
      modifies this, order, order.root, order.nodes
      ensures Valid() && var i := Find(old(list), key);
              if i < |old(list)| then
                value == old(list)[i].value && list == Touched(old(list), i) && created == old(created) && gone == old(gone)
              else
                var pair := Pair(key, made);
                value == made && list == Inserted(old(list), capacity, pair)
                && created == old(created) + multiset{pair} && gone == old(gone) + Evicted(old(list), capacity, pair)
    {
      hide List.Valid, List.Ring, Linked, Coherent, DistinctNodes, Accounted, Touched;
      order.NodesDistinct();
      CoherentKeys(entries, order.nodes, list, key);
      if key in entries {
        value := Touch(key);
        return;
      }
      value := made;
      Insert(key, value);
      if |entries| > capacity {
        EvictLast();
      }
    }

    /** The insertion itself; the limit is enforced after it. */
    method Insert(key: K, value: V)
      requires Valid() && Find(list, key) == |list|
      modifies this`entries, this`list, this`created, order, order.root, order.nodes
      ensures order.Valid() && Coherent(entries, order.nodes, list) && Conserved()
      ensures list == [Pair(key, value)] + old(list) && DistinctKeys(list)
      ensures created == old(created) + multiset{Pair(key, value)} && gone == old(gone) && |entries| == |list|
      ensures fresh((set x | x in order.nodes) - old(set x | x in order.nodes))
    {
      hide List.Valid, List.Ring, Linked, Coherent, DistinctNodes, Accounted;
      order.NodesDistinct();
      CoherentKeys(entries, order.nodes, list, key);
      ghost var pair := Pair(key, value);
      var element := new Element(Some(Pair(key, value)));
      CoherentInserted(entries, order.nodes, list, element, pair);
      AccountedInserted(created, list, gone, hasCallback, callbacks, pair);
      label before:
      entries := entries[key := element];
      list, created := [pair] + list, created + multiset{pair};
      StaysValid@before(order);
      order.PushFront(element);
    }

    lemma ConservedMeans()
      ensures Conserved() == Accounted(created, list, gone, hasCallback, callbacks)
    {}

    /** Evicts the least recently used entry. */
    method EvictLast()
      requires order.Valid() && Coherent(entries, order.nodes, list) && Conserved()
      requires list != [] && DistinctKeys(list)
      modifies this`entries, this`list, this`gone, this`callbacks, order, order.root, (set x | x in order.nodes)
      ensures order.Valid() && Coherent(entries, order.nodes, list) && Conserved()
      ensures list == DropLast(old(list)) && gone == old(gone) + [Last(old(list))] && created == old(created)
    {
      hide *;
      ConservedMeans();
      CoherentEvicted(entries, order.nodes, list);
      WithoutLast(order.nodes);
      var oldest := order.Back();
      var evicted := oldest.content.value;
      AccountedEvicted(created, list, gone, hasCallback, callbacks, evicted);
      order.Remove(oldest, |order.nodes| - 1);
      Forget(evicted);
    }

    /** What is known of the entry just unlinked is dropped. */
    method Forget(evicted: Pair<K, V>)
      requires order.Valid() && list != [] && evicted == Last(list)
      requires Coherent(entries - {evicted.key}, order.nodes, DropLast(list))
      requires Accounted(created, DropLast(list), gone + [evicted], hasCallback, if hasCallback then callbacks + [evicted] else callbacks)
      modifies this`entries, this`list, this`gone, this`callbacks
      ensures order.Valid() && Coherent(entries, order.nodes, list) && Conserved()
      ensures list == DropLast(old(list)) && gone == old(gone) + [evicted] && created == old(created)
    {
      hide *;
      label before:
      entries, callbacks := entries - {evicted.key}, if hasCallback then callbacks + [evicted] else callbacks;
      gone, list := gone + [evicted], DropLast(list);
      StaysValid@before(order);
      ConservedMeans();
    }

    method Len() returns (n: nat)
      requires Valid()
      ensures n == |list|
    {
      n := |entries|;
    }
  }
}
