/** Filtering and stable ordering of sequences by a rank: what a loop that picks items rank by rank computes. */
module StableOrder {

  function Filter<T>(keep: T -> bool, items: seq<T>): seq<T> {
    if items == [] then []
    else (if keep(items[0]) then [items[0]] else []) + Filter(keep, items[1..])
  }

  lemma {:induction false} FilterConcat<T>(keep: T -> bool, a: seq<T>, b: seq<T>)
    ensures Filter(keep, a + b) == Filter(keep, a) + Filter(keep, b)
  {
    if a == [] {
      assert a + b == b;
    } else {
      FilterConcat(keep, a[1..], b);
      var head := if keep(a[0]) then [a[0]] else [];
      assert (a + b)[0] == a[0] && (a + b)[1..] == a[1..] + b;
      assert head + (Filter(keep, a[1..]) + Filter(keep, b)) == (head + Filter(keep, a[1..])) + Filter(keep, b);
    }
  }

  lemma FilterSnoc<T>(keep: T -> bool, items: seq<T>, i: nat)
    requires i < |items|
    ensures Filter(keep, items[..i + 1]) == Filter(keep, items[..i]) + if keep(items[i]) then [items[i]] else []
  {
    assert items[..i + 1] == items[..i] + [items[i]];
    FilterConcat(keep, items[..i], [items[i]]);
  }

  lemma {:induction false} FilterMembers<T>(keep: T -> bool, items: seq<T>)
    ensures forall x :: x in Filter(keep, items) ==> x in items && keep(x)
    ensures forall x :: x in items && keep(x) ==> x in Filter(keep, items)
  {
    if items != [] {
      FilterMembers(keep, items[1..]);
      assert items == [items[0]] + items[1..];
    }
  }

  /** Filtering a filtered sequence, when the second test is all or nothing on what the first one keeps. */
  lemma {:induction false} FilterFiltered<T>(outer: T -> bool, inner: T -> bool, items: seq<T>)
    ensures (forall x :: x in items && outer(x) ==> inner(x)) ==>
      Filter(outer, Filter(inner, items)) == Filter(outer, items)
    ensures (forall x :: x in items && outer(x) ==> !inner(x)) ==>
      Filter(outer, Filter(inner, items)) == []
  {
    if items != [] {
      FilterFiltered(outer, inner, items[1..]);
      var head := if inner(items[0]) then [items[0]] else [];
      FilterConcat(outer, head, Filter(inner, items[1..]));
      assert items[0] in items;
      assert forall x :: x in items[1..] ==> x in items;
    }
  }

  /** First item that passes the test. */
  function First<T>(keep: T -> bool, items: seq<T>): seq<T> {
    if items == [] then [] else if keep(items[0]) then [items[0]] else First(keep, items[1..])
  }

  lemma {:induction false} FirstOfFilter<T>(keep: T -> bool, items: seq<T>)
    ensures First(keep, Filter(keep, items)) == First(keep, items)
  {
    if items != [] {
      FirstOfFilter(keep, items[1..]);
      if keep(items[0]) {
        assert Filter(keep, items)[0] == items[0];
      } else {
        assert Filter(keep, items) == Filter(keep, items[1..]);
      }
    }
  }

  /** The test that picks one rank. */
  function HasRank<T>(rank: T -> nat, r: nat): T -> bool {
    x => rank(x) == r
  }

  function OfRank<T>(rank: T -> nat, items: seq<T>, r: nat): seq<T> {
    Filter(HasRank(rank, r), items)
  }

  lemma OfRankSnoc<T>(rank: T -> nat, items: seq<T>, i: nat, r: nat)
    requires i < |items|
    ensures OfRank(rank, items[..i + 1], r) == OfRank(rank, items[..i], r) + if rank(items[i]) == r then [items[i]] else []
  {
    FilterSnoc(HasRank(rank, r), items, i);
  }

  /** The items of ranks below n, rank by rank, each rank in the order of `items`. */
  function Below<T>(rank: T -> nat, items: seq<T>, n: nat): seq<T> {
    if n == 0 then [] else Below(rank, items, n - 1) + OfRank(rank, items, n - 1)
  }

  /** A test that holds only of items of one rank picks from Below what it picks from all items, or nothing. */
  lemma {:induction false} FilterBelow<T>(rank: T -> nat, items: seq<T>, n: nat, keep: T -> bool, home: nat)
    requires forall x :: x in items && keep(x) ==> rank(x) == home
    ensures Filter(keep, Below(rank, items, n)) == if home < n then Filter(keep, items) else []
  {
    if n > 0 {
      FilterBelow(rank, items, n - 1, keep, home);
      FilterConcat(keep, Below(rank, items, n - 1), OfRank(rank, items, n - 1));
      FilterFiltered(keep, HasRank(rank, n - 1), items);
    }
  }

  lemma {:induction false} BelowMembers<T>(rank: T -> nat, items: seq<T>, n: nat)
    ensures forall x :: x in Below(rank, items, n) ==> x in items && rank(x) < n
    ensures forall x :: x in items && rank(x) < n ==> x in Below(rank, items, n)
  {
    if n > 0 {
      BelowMembers(rank, items, n - 1);
      FilterMembers(HasRank(rank, n - 1), items);
    }
  }

  ghost predicate SortedBy<T>(rank: T -> nat, items: seq<T>) {
    forall i, j :: 0 <= i <= j < |items| ==> rank(items[i]) <= rank(items[j])
  }

  lemma SortedConcat<T>(rank: T -> nat, a: seq<T>, b: seq<T>, m: int)
    requires SortedBy(rank, a) && SortedBy(rank, b)
    requires forall x :: x in a ==> rank(x) <= m
    requires forall x :: x in b ==> m <= rank(x)
    ensures SortedBy(rank, a + b)
  {
    forall i, j | 0 <= i <= j < |a + b| ensures rank((a + b)[i]) <= rank((a + b)[j]) {
      if i < |a| <= j {
        assert a[i] in a && b[j - |a|] in b;
      }
    }
  }

  lemma {:induction false} BelowSorted<T>(rank: T -> nat, items: seq<T>, n: nat)
    ensures SortedBy(rank, Below(rank, items, n))
  {
    if n > 0 {
      var low, top := Below(rank, items, n - 1), OfRank(rank, items, n - 1);
      BelowSorted(rank, items, n - 1);
      BelowMembers(rank, items, n - 1);
      FilterMembers(HasRank(rank, n - 1), items);
      assert forall i :: 0 <= i < |top| ==> top[i] in top;
      SortedConcat(rank, low, top, n - 1);
    }
  }

  /** A test that is the disjoint union of two others keeps what the two keep. */
  lemma {:induction false} FilterUnion<T>(all: T -> bool, one: T -> bool, other: T -> bool, items: seq<T>)
    requires forall x :: x in items ==> all(x) == (one(x) || other(x)) && !(one(x) && other(x))
    ensures multiset(Filter(all, items)) == multiset(Filter(one, items)) + multiset(Filter(other, items))
  {
    if items != [] {
      assert items[0] in items;
      assert forall x :: x in items[1..] ==> x in items;
      FilterUnion(all, one, other, items[1..]);
    }
  }

  function RankBelow<T>(rank: T -> nat, n: nat): T -> bool {
    x => rank(x) < n
  }

  lemma {:induction false} BelowContents<T>(rank: T -> nat, items: seq<T>, n: nat)
    ensures multiset(Below(rank, items, n)) == multiset(Filter(RankBelow(rank, n), items))
  {
    if n == 0 {
      FilterNone(RankBelow(rank, 0), items);
    } else {
      BelowContents(rank, items, n - 1);
      FilterUnion(RankBelow(rank, n), RankBelow(rank, n - 1), HasRank(rank, n - 1), items);
    }
  }

  lemma {:induction false} FilterAll<T>(keep: T -> bool, items: seq<T>)
    requires forall x :: x in items ==> keep(x)
    ensures Filter(keep, items) == items
  {
    if items != [] {
      assert items[0] in items;
      FilterAll(keep, items[1..]);
    }
  }

  lemma {:induction false} FilterNone<T>(keep: T -> bool, items: seq<T>)
    requires forall x :: x in items ==> !keep(x)
    ensures Filter(keep, items) == []
  {
    if items != [] {
      assert items[0] in items;
      FilterNone(keep, items[1..]);
    }
  }

  /** Going through all ranks loses, adds and changes no item. */
  lemma BelowPermutes<T>(rank: T -> nat, items: seq<T>, n: nat)
    requires forall x :: x in items ==> rank(x) < n
    ensures multiset(Below(rank, items, n)) == multiset(items)
  {
    BelowContents(rank, items, n);
    FilterAll(RankBelow(rank, n), items);
  }

  lemma {:induction false} BelowCongruent<T>(rank: T -> nat, a: seq<T>, b: seq<T>, n: nat)
    requires forall r: nat :: r < n ==> OfRank(rank, a, r) == OfRank(rank, b, r)
    ensures Below(rank, a, n) == Below(rank, b, n)
  {
    if n > 0 {
      BelowCongruent(rank, a, b, n - 1);
    }
  }

  /** Ordering twice is ordering once. */
  lemma BelowTwice<T>(rank: T -> nat, items: seq<T>, n: nat)
    ensures Below(rank, Below(rank, items, n), n) == Below(rank, items, n)
  {
    forall r: nat | r < n ensures OfRank(rank, Below(rank, items, n), r) == OfRank(rank, items, r) {
      FilterBelow(rank, items, n, HasRank(rank, r), r);
    }
    BelowCongruent(rank, Below(rank, items, n), items, n);
  }

  function Sum<T>(weight: T -> nat, items: seq<T>): nat {
    if items == [] then 0 else weight(items[0]) + Sum(weight, items[1..])
  }

  lemma {:induction false} SumConcat<T>(weight: T -> nat, a: seq<T>, b: seq<T>)
    ensures Sum(weight, a + b) == Sum(weight, a) + Sum(weight, b)
  {
    if a == [] {
      assert a + b == b;
    } else {
      SumConcat(weight, a[1..], b);
      assert (a + b)[1..] == a[1..] + b;
    }
  }

  /** A permutation weighs what the original weighs. */
  lemma {:induction false} SumPermuted<T>(weight: T -> nat, a: seq<T>, b: seq<T>)
    requires multiset(a) == multiset(b)
    ensures Sum(weight, a) == Sum(weight, b)
  {
    if a == [] {
      assert |multiset(b)| == 0;
    } else {
      assert a[0] in multiset(b);
      var i :| 0 <= i < |b| && b[i] == a[0];
      assert a == [a[0]] + a[1..];
      assert b == b[..i] + ([b[i]] + b[i + 1..]);
      assert multiset(b[..i] + b[i + 1..]) == multiset(b) - multiset{b[i]};
      SumPermuted(weight, a[1..], b[..i] + b[i + 1..]);
      SumConcat(weight, b[..i], [b[i]] + b[i + 1..]);
      SumConcat(weight, b[..i], b[i + 1..]);
    }
  }

  // ---- Ordering by a list of wanted names ----

  /** Position of the first wanted name that an item carries; |desired| for an item that is not listed. */
  function Rank<T, N>(named: (T, N) -> bool, desired: seq<N>, item: T): (r: nat)
    ensures r <= |desired|
    ensures r < |desired| ==> named(item, desired[r])
    ensures forall i :: 0 <= i < r ==> !named(item, desired[i])
  {
    if desired == [] || named(item, desired[0]) then 0
    else
      var r := 1 + Rank(named, desired[1..], item);
      assert forall i :: 1 <= i < r ==> desired[i] == desired[1..][i - 1];
      r
  }

  function RankBy<T, N>(named: (T, N) -> bool, desired: seq<N>): T -> nat {
    item => Rank(named, desired, item)
  }

  /** The listed items in the wanted order, then the others. */
  function Arrange<T, N>(named: (T, N) -> bool, desired: seq<N>, items: seq<T>): seq<T> {
    Below(RankBy(named, desired), items, |desired| + 1)
  }

  /** Arranging loses, adds and changes no item. */
  lemma ArrangePermutes<T, N>(named: (T, N) -> bool, desired: seq<N>, items: seq<T>)
    ensures multiset(Arrange(named, desired, items)) == multiset(items)
  {
    BelowPermutes(RankBy(named, desired), items, |desired| + 1);
  }

  /** Arranged items are sorted by the first wanted name they carry, unlisted items last. */
  lemma ArrangeSorted<T, N>(named: (T, N) -> bool, desired: seq<N>, items: seq<T>)
    ensures SortedBy(RankBy(named, desired), Arrange(named, desired, items))
  {
    BelowSorted(RankBy(named, desired), items, |desired| + 1);
  }

  /** Items that a test keeps, and that all have one rank, keep their order. */
  lemma ArrangeStable<T, N>(named: (T, N) -> bool, desired: seq<N>, items: seq<T>, keep: T -> bool)
    requires forall x, y :: x in items && y in items && keep(x) && keep(y) ==> Rank(named, desired, x) == Rank(named, desired, y)
    ensures Filter(keep, Arrange(named, desired, items)) == Filter(keep, items)
  {
    var home: nat := 0;
    if exists x :: x in items && keep(x) {
      var x :| x in items && keep(x);
      home := Rank(named, desired, x);
    }
    FilterBelow(RankBy(named, desired), items, |desired| + 1, keep, home);
  }

  lemma ArrangeTwice<T, N>(named: (T, N) -> bool, desired: seq<N>, items: seq<T>)
    ensures Arrange(named, desired, Arrange(named, desired, items)) == Arrange(named, desired, items)
  {
    BelowTwice(RankBy(named, desired), items, |desired| + 1);
  }

  /** What the passes below need to know of the rank. */
  lemma RankFacts<T, N>(named: (T, N) -> bool, desired: seq<N>, items: seq<T>) returns (rank: T -> nat)
    ensures Below(rank, items, |desired| + 1) == Arrange(named, desired, items)
    ensures forall i :: 0 <= i < |items| ==> rank(items[i]) <= |desired|
    ensures forall i, d :: 0 <= i < |items| && 0 <= d < |desired| && d <= rank(items[i]) ==>
      named(items[i], desired[d]) == (rank(items[i]) == d)
  {
    rank := RankBy(named, desired);
  }

  /** One pass over the items for one wanted name: the items of its rank are appended and marked. */
  method PickNamed<T, N>(named: (T, N) -> bool, name: N, items: seq<T>, used: array<bool>, picked: seq<T>,
                         ghost rank: T -> nat, ghost d: nat)
    returns (ordered: seq<T>)
    requires used.Length == |items|
    requires forall i :: 0 <= i < |items| ==> used[i] == (rank(items[i]) < d)
    requires forall i :: 0 <= i < |items| && d <= rank(items[i]) ==> named(items[i], name) == (rank(items[i]) == d)
    modifies used
    ensures forall i :: 0 <= i < |items| ==> used[i] == (rank(items[i]) < d + 1)
    ensures ordered == picked + OfRank(rank, items, d)
  {
    ordered := picked;
    for index := 0 to |items|
      invariant forall i :: 0 <= i < index ==> used[i] == (rank(items[i]) < d + 1)
      invariant forall i :: index <= i < |items| ==> used[i] == (rank(items[i]) < d)
      invariant ordered == picked + OfRank(rank, items[..index], d)
    {
      OfRankSnoc(rank, items, index, d);
      if !used[index] && named(items[index], name) {
        ordered := ordered + [items[index]];
        used[index] := true;
      }
    }
    assert items[..|items|] == items;
  }

  /** The passes over the items and their used marks: wanted names first, one after the other, then what is left. */
  method PickInOrder<T, N>(named: (T, N) -> bool, desired: seq<N>, items: seq<T>) returns (ordered: seq<T>)
    ensures ordered == Arrange(named, desired, items)
  {
    ghost var rank := RankFacts(named, desired, items);
    var used := new bool[|items|](_ => false);
    ordered := [];
    for d := 0 to |desired|
      invariant forall i :: 0 <= i < |items| ==> used[i] == (rank(items[i]) < d)
      invariant ordered == Below(rank, items, d)
    {
      ordered := PickNamed(named, desired[d], items, used, ordered, rank, d);
    }
    for index := 0 to |items|
      invariant forall i :: 0 <= i < |items| ==> used[i] == (rank(items[i]) < |desired|)
      invariant ordered == Below(rank, items, |desired|) + OfRank(rank, items[..index], |desired|)
    {
      OfRankSnoc(rank, items, index, |desired|);
      if !used[index] {
        ordered := ordered + [items[index]];
      }
    }
    assert items[..|items|] == items;
  }
}
