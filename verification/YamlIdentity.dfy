/** When two list elements are taken for the same one, in terms of their entries alone. */
module YamlIdentity {
  import opened Wrappers
  import opened YamlTree
  import TextForms

  // ---- Strings ----

  lemma SpaceIs(c: char)
    ensures IsSpace(c) <==> TextForms.IsSpacePoint(c as nat)
  {}

  ghost predicate AllSpace(s: string) {
    forall i :: 0 <= i < |s| ==> TextForms.IsSpacePoint(s[i] as nat)
  }

  ghost predicate SolidEnds(s: string) {
    s != [] ==> !TextForms.IsSpacePoint(s[0] as nat) && !TextForms.IsSpacePoint(s[|s| - 1] as nat)
  }

  lemma {:induction false} TrimLeftOf(left: string, rest: string)
    requires AllSpace(left) && (rest != [] ==> !TextForms.IsSpacePoint(rest[0] as nat))
    ensures TrimLeft(left + rest) == rest
    decreases |left|
  {
    var all := left + rest;
    if all != [] {
      SpaceIs(all[0]);
    }
    if left == [] {
      assert all == rest;
    } else {
      assert all[1..] == left[1..] + rest;
      TrimLeftOf(left[1..], rest);
    }
  }

  lemma {:induction false} TrimRightOf(rest: string, right: string)
    requires AllSpace(right) && (rest != [] ==> !TextForms.IsSpacePoint(rest[|rest| - 1] as nat))
    ensures TrimRight(rest + right) == rest
    decreases |right|
  {
    var all := rest + right;
    if all != [] {
      SpaceIs(all[|all| - 1]);
    }
    if right == [] {
      assert all == rest;
    } else {
      assert all[..|all| - 1] == rest + right[..|right| - 1];
      TrimRightOf(rest, right[..|right| - 1]);
    }
  }

  /** Trimming takes the white space off both ends, and nothing else. */
  lemma TrimOf(left: string, core: string, right: string)
    requires AllSpace(left) && SolidEnds(core) && AllSpace(right)
    ensures Trim(left + core + right) == core
  {
    hide TrimLeft, TrimRight, TextForms.IsSpacePoint;
    if core == [] {
      TrimLeftOf(left + right, []);
      TrimRightOf([], []);
      assert left + core + right == left + right + [] && [] + [] == core;
    } else {
      assert left + core + right == left + (core + right);
      TrimLeftOf(left, core + right);
      TrimRightOf(core, right);
    }
  }

  lemma {:induction false} TrimLeftSplits(s: string) returns (left: string)
    ensures AllSpace(left) && s == left + TrimLeft(s)
    ensures TrimLeft(s) != [] ==> !TextForms.IsSpacePoint(TrimLeft(s)[0] as nat)
  {
    hide IsSpace, TextForms.IsSpacePoint;
    if s == [] {
      left := [];
    } else {
      SpaceIs(s[0]);
      if IsSpace(s[0]) {
        left := TrimLeftSplits(s[1..]);
        left := [s[0]] + left;
      } else {
        left := [];
      }
    }
  }

  lemma {:induction false} TrimRightSplits(s: string) returns (right: string)
    ensures AllSpace(right) && s == TrimRight(s) + right
    ensures TrimRight(s) != [] ==> !TextForms.IsSpacePoint(TrimRight(s)[|TrimRight(s)| - 1] as nat)
  {
    hide IsSpace, TextForms.IsSpacePoint;
    if s == [] {
      right := [];
    } else {
      var last := |s| - 1;
      SpaceIs(s[last]);
      if IsSpace(s[last]) {
        right := TrimRightSplits(s[..last]);
        right := right + [s[last]];
      } else {
        right := [];
      }
    }
  }

  lemma TrimSplits(s: string) returns (left: string, right: string)
    ensures AllSpace(left) && AllSpace(right) && SolidEnds(Trim(s)) && s == left + Trim(s) + right
  {
    hide TrimLeft, TrimRight, TextForms.IsSpacePoint;
    left := TrimLeftSplits(s);
    right := TrimRightSplits(TrimLeft(s));
    assert Trim(s) != [] ==> Trim(s)[0] == TrimLeft(s)[0];
  }

  /** Each capital letter becomes the small one. */
  lemma LowerIs(s: string, i: nat, k: nat)
    requires i < |s| && k < 26
    ensures |Lower(s)| == |s|
    ensures s[i] == "ABCDEFGHIJKLMNOPQRSTUVWXYZ"[k] ==> Lower(s)[i] == "abcdefghijklmnopqrstuvwxyz"[k]
    ensures s[i] !in "ABCDEFGHIJKLMNOPQRSTUVWXYZ" ==> Lower(s)[i] == s[i]
  {
    var upper, lower := "ABCDEFGHIJKLMNOPQRSTUVWXYZ", "abcdefghijklmnopqrstuvwxyz";
    assert forall c: char :: c in upper <==> 'A' <= c <= 'Z';
    assert upper[k] == 'A' + k as char && lower[k] == 'a' + k as char;
  }

  // ---- The entry that identifies a mapping ----

  /** The keys that identify a list element, the first ones first. */
  const NAMES: seq<string> := ["id", "name", "alias", "api-key", "api_key", "apikey", "key", "provider", "model"]

  ghost predicate Called(p: Pair, name: string) {
    p.value.Scalar? && Lower(Trim(p.key)) == name
  }

  ghost predicate IsFirstCalled(pairs: seq<Pair>, i: nat, name: string) {
    i < |pairs| && Called(pairs[i], name) && forall j :: 0 <= j < i ==> !Called(pairs[j], name)
  }

  ghost predicate Telling(p: Pair) {
    p.value.Scalar? && Trim(p.value.value) != ""
  }

  /** The first entry of this name tells something. */
  ghost predicate Tells(pairs: seq<Pair>, i: nat, name: string) {
    IsFirstCalled(pairs, i, name) && Telling(pairs[i])
  }

  /** Entry i identifies the mapping by `name`: the first of the usual names whose first entry is not blank; without one, the
      first entry that is a scalar and not blank. */
  ghost predicate Identifies(pairs: seq<Pair>, i: nat, name: string) {
    || (exists r :: 0 <= r < |NAMES| && NAMES[r] == name && Tells(pairs, i, name) && NoneTells(pairs, r))
    || (NoneTells(pairs, |NAMES|) && i < |pairs| && Telling(pairs[i]) && name == Lower(Trim(pairs[i].key))
        && forall j :: 0 <= j < i ==> !Telling(pairs[j]))
  }

  /** None of the first r names. */
  ghost predicate NoneTells(pairs: seq<Pair>, r: nat)
    requires r <= |NAMES|
  {
    forall q, i :: 0 <= q < r && 0 <= i < |pairs| ==> !Tells(pairs, i, NAMES[q])
  }

  lemma {:induction false} ScalarValueIs(pairs: seq<Pair>, i: nat, name: string)
    requires IsFirstCalled(pairs, i, name)
    ensures ScalarValue(pairs, name) == Trim(pairs[i].value.value)
  {
    hide Lower, Trim;
    if i > 0 {
      assert !Called(pairs[0], name);
      assert forall j :: 0 <= j < i - 1 ==> pairs[1..][j] == pairs[j + 1];
      ScalarValueIs(pairs[1..], i - 1, name);
    }
  }

  lemma {:induction false} ScalarValueFrom(pairs: seq<Pair>, name: string) returns (i: nat)
    requires ScalarValue(pairs, name) != ""
    ensures Tells(pairs, i, name)
  {
    hide Lower, Trim;
    if Called(pairs[0], name) {
      i := 0;
    } else {
      i := ScalarValueFrom(pairs[1..], name);
      assert forall j :: 1 <= j < i + 1 ==> pairs[j] == pairs[1..][j - 1];
      i := i + 1;
    }
  }

  lemma TellsIs(pairs: seq<Pair>, name: string)
    ensures ScalarValue(pairs, name) != "" <==> exists i: nat :: Tells(pairs, i, name)
    ensures forall i: nat :: Tells(pairs, i, name) ==> ScalarValue(pairs, name) == Trim(pairs[i].value.value)
  {
    hide Lower, Trim, ScalarValue;
    if ScalarValue(pairs, name) != "" {
      var i := ScalarValueFrom(pairs, name);
    }
    forall i: nat | Tells(pairs, i, name) ensures ScalarValue(pairs, name) == Trim(pairs[i].value.value) {
      ScalarValueIs(pairs, i, name);
    }
  }

  lemma {:induction false} KeyedIs(pairs: seq<Pair>, keys: seq<string>, r: nat, i: nat)
    requires r < |keys| && Tells(pairs, i, keys[r])
    requires forall q, j :: 0 <= q < r && 0 <= j < |pairs| ==> !Tells(pairs, j, keys[q])
    ensures KeyedIdentity(pairs, keys) == keys[r] + "=" + Trim(pairs[i].value.value)
  {
    hide Trim, Tells, ScalarValue;
    TellsIs(pairs, keys[0]);
    if r > 0 {
      forall j: nat ensures !Tells(pairs, j, keys[0]) {
        if Tells(pairs, j, keys[0]) {
          TellingIs(pairs, j, keys[0]);
        }
      }
      KeyedIs(pairs, keys[1..], r - 1, i);
    } else {
      TellingIs(pairs, i, keys[r]);
    }
  }

  lemma TellingIs(pairs: seq<Pair>, i: nat, name: string)
    requires Tells(pairs, i, name)
    ensures i < |pairs| && Telling(pairs[i])
  {}

  lemma {:induction false} NoKeyed(pairs: seq<Pair>, keys: seq<string>)
    requires forall q, j :: 0 <= q < |keys| && 0 <= j < |pairs| ==> !Tells(pairs, j, keys[q])
    ensures KeyedIdentity(pairs, keys) == ""
  {
    hide Trim, Tells, ScalarValue;
    if keys != [] {
      forall j: nat ensures !Tells(pairs, j, keys[0]) {
        if Tells(pairs, j, keys[0]) {
          TellingIs(pairs, j, keys[0]);
        }
      }
      TellsIs(pairs, keys[0]);
      NoKeyed(pairs, keys[1..]);
    }
  }

  lemma {:induction false} FirstScalarIs(pairs: seq<Pair>, i: nat)
    requires i < |pairs| && Telling(pairs[i]) && forall j :: 0 <= j < i ==> !Telling(pairs[j])
    ensures FirstScalarIdentity(pairs) == Lower(Trim(pairs[i].key)) + "=" + Trim(pairs[i].value.value)
  {
    hide Lower, Trim;
    if i > 0 {
      assert !Telling(pairs[0]);
      assert forall j :: 0 <= j < i - 1 ==> pairs[1..][j] == pairs[j + 1];
      FirstScalarIs(pairs[1..], i - 1);
    }
  }

  lemma {:induction false} NoScalar(pairs: seq<Pair>)
    requires forall j :: 0 <= j < |pairs| ==> !Telling(pairs[j])
    ensures FirstScalarIdentity(pairs) == ""
  {
    hide Lower, Trim;
    if pairs != [] {
      assert !Telling(pairs[0]);
      NoScalar(pairs[1..]);
    }
  }

  lemma NamesAre()
    ensures IDENTITY_KEYS == NAMES
  {}

  /** The identity of a mapping is the name and value of the entry that identifies it. */
  lemma IdentityIs(pairs: seq<Pair>, i: nat, name: string)
    requires Identifies(pairs, i, name)
    ensures i < |pairs| && pairs[i].value.Scalar? && Trim(pairs[i].value.value) != ""
    ensures Identity(Mapping(pairs)) == name + "=" + Trim(pairs[i].value.value)
  {
    hide Lower, Trim, IsFirstCalled, KeyedIdentity, FirstScalarIdentity, IDENTITY_KEYS, NAMES;
    NamesAre();
    if NoneTells(pairs, |NAMES|) && i < |pairs| && name == Lower(Trim(pairs[i].key)) && Telling(pairs[i]) && forall j :: 0 <= j < i ==> !Telling(pairs[j]) {
      NoKeyed(pairs, NAMES);
      FirstScalarIs(pairs, i);
    } else {
      var r :| 0 <= r < |NAMES| && NAMES[r] == name && Tells(pairs, i, name) && NoneTells(pairs, r);
      TellingIs(pairs, i, name);
      KeyedIs(pairs, NAMES, r, i);
    }
  }

  /** A mapping without a scalar entry that is not blank has no identity. */
  lemma NoIdentity(pairs: seq<Pair>)
    requires forall j :: 0 <= j < |pairs| ==> !Telling(pairs[j])
    ensures Identity(Mapping(pairs)) == ""
  {
    hide Lower, Trim, IsFirstCalled, KeyedIdentity, FirstScalarIdentity, IDENTITY_KEYS;
    NoKeyed(pairs, IDENTITY_KEYS);
    NoScalar(pairs);
  }

  /** Elements are the same exactly when names and trimmed values are equal, if no name has an equals sign in it. */
  lemma SameIdentityIff(e: seq<Pair>, i: nat, name: string, target: seq<Pair>, j: nat, wanted: string)
    requires Identifies(e, i, name) && Identifies(target, j, wanted) && '=' !in name && '=' !in wanted
    ensures i < |e| && e[i].value.Scalar? && j < |target| && target[j].value.Scalar?
    ensures SameIdentity(Mapping(e), Mapping(target))
       <==> name == wanted && Trim(e[i].value.value) == Trim(target[j].value.value)
  {
    hide Trim, Identifies, Identity;
    IdentityIs(e, i, name);
    IdentityIs(target, j, wanted);
    var v, w := Trim(e[i].value.value), Trim(target[j].value.value);
    if name + "=" + v == wanted + "=" + w {
      Separated(name, v, wanted, w);
    }
  }

  lemma Separated(a: string, v: string, b: string, w: string)
    requires '=' !in a && '=' !in b && a + "=" + v == b + "=" + w
    ensures a == b && v == w
  {
    var s := a + "=" + v;
    assert s[|a|] == '=' && s[|b|] == '=';
    assert forall k :: 0 <= k < |a| ==> s[k] == a[k] && a[k] in a;
    assert forall k :: 0 <= k < |b| ==> s[k] == b[k] && b[k] in b;
    assert |a| == |b|;
    assert a == s[..|a|] && b == s[..|a|] && v == s[|a| + 1..] && w == s[|a| + 1..];
  }

  const ODD: Pair := Pair("id=a", Scalar(STR, "b"))
  const PLAIN: Pair := Pair("id", Scalar(STR, "a=b"))

  lemma OddIdentity()
    ensures Identity(Mapping([ODD])) == "id=a=b"
  {
    hide Trim, Identity, Identifies;
    Solid("id=a");
    Solid("b");
    assert Lower("id=a") == "id=a";
    forall r, i | 0 <= r < |NAMES| && 0 <= i < 1 ensures !Tells([ODD], i, NAMES[r]) {
      assert "id=a"[2] == '=';
      assert NAMES[r] != "id=a";
    }
    OnlyEntry(ODD);
    IdentityIs([ODD], 0, "id=a");
    assert "id=a" + "=" + "b" == "id=a=b";
  }

  lemma OnlyEntry(p: Pair)
    requires NoneTells([p], |NAMES|) && Telling(p)
    ensures Identifies([p], 0, Lower(Trim(p.key)))
  {
    hide Trim, Lower, Tells;
  }

  lemma PlainIdentity()
    ensures Identity(Mapping([PLAIN])) == "id=a=b"
  {
    hide Trim, Identity, Identifies;
    Solid("id");
    Solid("a=b");
    assert Lower("id") == "id";
    assert IsFirstCalled([PLAIN], 0, "id") && Tells([PLAIN], 0, "id");
    IdComesFirst([PLAIN], 0);
    IdentityIs([PLAIN], 0, "id");
    assert "id" + "=" + "a=b" == "id=a=b";
  }

  /** With an equals sign in a key, elements that have no entry in common may be taken for the same. */
  lemma IdentitiesCollide()
    ensures ODD.key != PLAIN.key && ODD.value != PLAIN.value && SameIdentity(Mapping([ODD]), Mapping([PLAIN]))
  {
    hide Identity;
    OddIdentity();
    PlainIdentity();
    assert ODD.key[2] == '=';
    assert |"b"| != |"a=b"|;
  }

  lemma Solid(s: string)
    requires SolidEnds(s)
    ensures Trim(s) == s
  {
    TrimOf([], s, []);
    assert [] + s + [] == s;
  }

  /** An "id" that is not blank identifies its mapping whatever the other entries are. */
  lemma IdComesFirst(pairs: seq<Pair>, i: nat)
    requires Tells(pairs, i, "id")
    ensures Identifies(pairs, i, "id")
  {
    hide Tells;
    assert NAMES[0] == "id" && NoneTells(pairs, 0);
  }

  /** Scalars are the same up to the white space around them and their tags, blank ones never. */
  lemma SameScalarIff(e: Tree, target: Tree, left: string, core: string, right: string)
    requires e.Scalar? && target.Scalar?
    requires target.value == left + core + right && AllSpace(left) && SolidEnds(core) && AllSpace(right)
    ensures SameIdentity(e, target) <==> core != "" && exists l, r :: AllSpace(l) && AllSpace(r) && e.value == l + core + r
  {
    hide Trim, AllSpace, SolidEnds;
    TrimOf(left, core, right);
    var before, after := TrimSplits(e.value);
    if l, r :| AllSpace(l) && AllSpace(r) && e.value == l + core + r {
      TrimOf(l, core, r);
    }
  }

  // ---- Structural equality ----

  /** Everything but white space around keys and scalars, and the tags. */
  function Plain(t: Tree): Tree {
    match t
    case Scalar(_, v) => Scalar("", Trim(v))
    case Sequence(items) => Sequence(seq(|items|, i requires 0 <= i < |items| => Plain(items[i])))
    case Mapping(pairs) =>
      Mapping(seq(|pairs|, i requires 0 <= i < |pairs| => Pair(Trim(pairs[i].key), Plain(pairs[i].value))))
  }

  /** Values are structurally equal exactly when only white space and tags tell them apart. */
  lemma {:induction false} StructurallyEqualIff(a: Tree, b: Tree)
    ensures StructurallyEqual(a, b) <==> Plain(a) == Plain(b)
  {
    hide Trim;
    match (a, b)
    case (Sequence(s), Sequence(t)) =>
      var p, q := Plain(a).items, Plain(b).items;
      forall i | 0 <= i < |s| && i < |t| ensures StructurallyEqual(s[i], t[i]) <==> p[i] == q[i] {
        StructurallyEqualIff(s[i], t[i]);
      }
      assert p == q <==> |p| == |q| && forall i :: 0 <= i < |s| ==> p[i] == q[i];
    case (Mapping(s), Mapping(t)) =>
      var p, q := Plain(a).pairs, Plain(b).pairs;
      forall i | 0 <= i < |s| && i < |t|
        ensures Trim(s[i].key) == Trim(t[i].key) && StructurallyEqual(s[i].value, t[i].value) <==> p[i] == q[i]
      {
        StructurallyEqualIff(s[i].value, t[i].value);
      }
      assert p == q <==> |p| == |q| && forall i :: 0 <= i < |s| ==> p[i] == q[i];
    case _ =>
  }
}
