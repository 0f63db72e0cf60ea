/**
 * YAML documents as values: scalars with their tags, sequences, and mappings with their entries in order. Which values
 * count as zero or as known defaults, how defaults are pruned from a new value, and how elements of two sequences are
 * matched.
 */
module YamlTree {
  import opened Wrappers

  datatype Tree =
    | Scalar(tag: string, value: string)
    | Sequence(items: seq<Tree>)
    | Mapping(pairs: seq<Pair>)

  datatype Pair = Pair(key: string, value: Tree)

  type Path = seq<string>

  const BOOL := "!!bool"
  const INT := "!!int"
  const FLOAT := "!!float"
  const STR := "!!str"
  const NULL := "!!null"

  // ---- Strings ----

  predicate IsSpace(c: char) {
    '\t' <= c <= '\r' || c == ' ' || c == '\U{0085}' || c == '\U{00A0}' || c == '\U{1680}'
    || '\U{2000}' <= c <= '\U{200A}' || c == '\U{2028}' || c == '\U{2029}' || c == '\U{202F}' || c == '\U{205F}'
    || c == '\U{3000}'
  }

  function TrimLeft(s: string): string {
    if s != [] && IsSpace(s[0]) then TrimLeft(s[1..]) else s
  }

  function TrimRight(s: string): string {
    if s != [] && IsSpace(s[|s| - 1]) then TrimRight(s[..|s| - 1]) else s
  }

  function Trim(s: string): string {
    TrimRight(TrimLeft(s))
  }

  /** Lower case, on the letters A to Z only. */
  function Lower(s: string): string {
    seq(|s|, i requires 0 <= i < |s| => if 'A' <= s[i] <= 'Z' then s[i] - 'A' + 'a' else s[i])
  }

  function Join(path: Path): string {
    if path == [] then "" else if |path| == 1 then path[0] else path[0] + "." + Join(path[1..])
  }

  // ---- Mappings ----

  /** The index of the first entry with this key, -1 when there is none. */
  function KeyIndex(pairs: seq<Pair>, key: string): (r: int)
    ensures -1 <= r < |pairs|
    ensures r >= 0 ==> pairs[r].key == key
    ensures forall j :: 0 <= j < (if r >= 0 then r else |pairs|) ==> pairs[j].key != key
  {
    if pairs == [] then -1
    else
      var last := |pairs| - 1;
      var r := KeyIndex(pairs[..last], key);
      if r >= 0 then r
      else if pairs[last].key == key then assert forall j :: 0 <= j < last ==> pairs[..last][j] == pairs[j]; last
      else assert forall j :: 0 <= j < last ==> pairs[..last][j] == pairs[j]; -1
  }

  function Lookup(pairs: seq<Pair>, key: string): Option<Tree> {
    var i := KeyIndex(pairs, key);
    if i < 0 then None else Some(pairs[i].value)
  }

  function Keys(pairs: seq<Pair>): (r: seq<string>)
    ensures |r| == |pairs|
  {
    seq(|pairs|, i requires 0 <= i < |pairs| => pairs[i].key)
  }

  ghost predicate Distinct(pairs: seq<Pair>) {
    forall i, j :: 0 <= i < j < |pairs| ==> pairs[i].key != pairs[j].key
  }

  /** No mapping of the tree has the same key twice. */
  ghost predicate UniqueKeys(t: Tree) {
    match t
    case Scalar(_, _) => true
    case Sequence(items) => forall i :: 0 <= i < |items| ==> UniqueKeys(items[i])
    case Mapping(pairs) => Distinct(pairs) && forall i :: 0 <= i < |pairs| ==> UniqueKeys(pairs[i].value)
  }

  lemma IndexIs(pairs: seq<Pair>, i: nat, key: string)
    requires i < |pairs| && pairs[i].key == key && forall j :: 0 <= j < i ==> pairs[j].key != key
    ensures KeyIndex(pairs, key) == i
  {}

  lemma IndexIsNot(pairs: seq<Pair>, key: string)
    requires forall j :: 0 <= j < |pairs| ==> pairs[j].key != key
    ensures KeyIndex(pairs, key) == -1
  {}

  // ---- Zero values and known defaults ----

  predicate IsZero(t: Tree) {
    match t
    case Scalar(tag, value) =>
      if tag == BOOL then value == "false"
      else if tag == INT || tag == FLOAT then value == "0" || value == "0.0"
      else if tag == STR then value == ""
      else tag == NULL
    case Sequence(items) => forall i :: 0 <= i < |items| ==> IsZero(items[i])
    case Mapping(pairs) => forall i :: 0 <= i < |pairs| ==> IsZero(pairs[i].value)
  }

  const PPROF_ADDR := "127.0.0.1:8316"
  const PANEL_REPOSITORY := "https://github.com/marlon-costa-dc/Cli-Proxy-API-Management-Center"

  predicate IsWeight(path: Path, t: Tree) {
    path != [] && path[|path| - 1] == "weight" && t.Scalar? && t.tag == INT
  }

  predicate IsNamedDefault(path: Path, t: Tree) {
    path != [] && t.Scalar?
    && var full := Join(path);
       || (t.tag == STR && (|| (full == "pprof.addr" && t.value == PPROF_ADDR)
                            || (full == "remote-management.panel-github-repository" && t.value == PANEL_REPOSITORY)
                            || (full == "plugins.dir" && t.value == "plugins")
                            || (full == "routing.strategy" && t.value == "round-robin")))
       || (t.tag == INT && full == "error-logs-max-files" && t.value == "10")
  }

  predicate IsKnownDefault(path: Path, t: Tree) {
    !IsWeight(path, t) && (IsZero(t) || IsNamedDefault(path, t))
  }

  // ---- Pruning ----

  predicate IsEmptyCollection(t: Tree) {
    match t
    case Scalar(_, _) => false
    case Sequence(items) => items == []
    case Mapping(pairs) => pairs == []
  }

  /** A new value without its default-valued descendants. */
  function Prune(path: Path, t: Tree): (r: Tree)
    decreases t, 0
  {
    match t
    case Scalar(_, _) => t
    case Sequence(items) => Sequence(seq(|items|, i requires 0 <= i < |items| => Prune(path, items[i])))
    case Mapping(pairs) => Mapping(PrunePairs(path, t, |pairs|))
  }

  /** The entries kept of the first n. */
  function PrunePairs(path: Path, t: Tree, n: nat): (r: seq<Pair>)
    requires t.Mapping? && n <= |t.pairs|
    decreases t, 0, n
  {
    if n == 0 then []
    else
      var kept, p := PrunePairs(path, t, n - 1), t.pairs[n - 1];
      if IsKnownDefault(path + [p.key], p.value) then kept
      else
        var value := Prune(path + [p.key], p.value);
        if IsEmptyCollection(value) then kept else kept + [Pair(p.key, value)]
  }

  // ---- Matching the elements of two sequences ----

  const IDENTITY_KEYS: seq<string> := ["id", "name", "alias", "api-key", "api_key", "apikey", "key", "provider", "model"]

  /** The trimmed value of the first scalar entry with this key, up to case and white space. */
  function ScalarValue(pairs: seq<Pair>, key: string): string {
    if pairs == [] then ""
    else if pairs[0].value.Scalar? && Lower(Trim(pairs[0].key)) == key then Trim(pairs[0].value.value)
    else ScalarValue(pairs[1..], key)
  }

  function KeyedIdentity(pairs: seq<Pair>, keys: seq<string>): string {
    if keys == [] then ""
    else
      var v := ScalarValue(pairs, keys[0]);
      if v != "" then keys[0] + "=" + v else KeyedIdentity(pairs, keys[1..])
  }

  function FirstScalarIdentity(pairs: seq<Pair>): string {
    if pairs == [] then ""
    else if pairs[0].value.Scalar? && Trim(pairs[0].value.value) != ""
    then Lower(Trim(pairs[0].key)) + "=" + Trim(pairs[0].value.value)
    else FirstScalarIdentity(pairs[1..])
  }

  function Identity(t: Tree): string {
    if !t.Mapping? then ""
    else
      var keyed := KeyedIdentity(t.pairs, IDENTITY_KEYS);
      if keyed != "" then keyed else FirstScalarIdentity(t.pairs)
  }

  predicate StructurallyEqual(a: Tree, b: Tree) {
    match (a, b)
    case (Scalar(_, v), Scalar(_, w)) => Trim(v) == Trim(w)
    case (Sequence(s), Sequence(t)) =>
      |s| == |t| && forall i :: 0 <= i < |s| ==> StructurallyEqual(s[i], t[i])
    case (Mapping(s), Mapping(t)) =>
      && |s| == |t|
      && forall i :: 0 <= i < |s| ==> Trim(s[i].key) == Trim(t[i].key) && StructurallyEqual(s[i].value, t[i].value)
    case _ => false
  }

  /** What is looked for first: the same identity, or the same trimmed scalar. */
  predicate SameIdentity(e: Tree, target: Tree) {
    match target
    case Mapping(_) => e.Mapping? && Identity(target) != "" && Identity(e) == Identity(target)
    case Scalar(_, v) => e.Scalar? && Trim(v) != "" && Trim(e.value) == Trim(v)
    case Sequence(_) => false
  }

  /** The first unused element from index i on that satisfies the test: -1 when there is none. */
  function FirstFrom(original: seq<Tree>, used: seq<bool>, test: Tree -> bool, i: nat): (r: int)
    requires |used| == |original| && i <= |original|
    ensures r == -1 || (i <= r < |original| && !used[r] && test(original[r]))
    ensures forall j :: i <= j < (if r < 0 then |original| else r) ==> used[j] || !test(original[j])
    decreases |original| - i
  {
    if i == |original| then -1 else if !used[i] && test(original[i]) then i else FirstFrom(original, used, test, i + 1)
  }

  function Match(original: seq<Tree>, used: seq<bool>, target: Tree): (r: int)
    requires |used| == |original|
    ensures r == -1 || (0 <= r < |original| && !used[r])
  {
    var r := FirstFrom(original, used, e => SameIdentity(e, target), 0);
    if r >= 0 then r else FirstFrom(original, used, e => StructurallyEqual(e, target), 0)
  }

  /** An unused element with the same identity is preferred to one that is only structurally equal, and among several the
      first is taken. */
  lemma MatchPrefersIdentity(original: seq<Tree>, used: seq<bool>, target: Tree, e: nat)
    requires |used| == |original| && e < |original| && !used[e]
    ensures SameIdentity(original[e], target) ==>
              0 <= Match(original, used, target) <= e && SameIdentity(original[Match(original, used, target)], target)
    ensures StructurallyEqual(original[e], target) ==>
              0 <= Match(original, used, target) < |original|
              && (SameIdentity(original[Match(original, used, target)], target)
                  || (Match(original, used, target) <= e && StructurallyEqual(original[Match(original, used, target)], target)))
  {
    hide SameIdentity, StructurallyEqual;
    var byIdentity := FirstFrom(original, used, x => SameIdentity(x, target), 0);
    var byStructure := FirstFrom(original, used, x => StructurallyEqual(x, target), 0);
    assert Match(original, used, target) == if byIdentity >= 0 then byIdentity else byStructure;
  }

  /** The elements marked as used after the first n targets have been matched. */
  function Used(original: seq<Tree>, targets: seq<Tree>, n: nat): (r: seq<bool>)
    requires n <= |targets|
    ensures |r| == |original|
    decreases n, 0
  {
    if n == 0 then seq(|original|, _ => false)
    else
      var before, i := Used(original, targets, n - 1), MatchOf(original, targets, n - 1);
      if i >= 0 then before[i := true] else before
  }

  /** The element that the i-th target takes, -1 for none. */
  function MatchOf(original: seq<Tree>, targets: seq<Tree>, i: nat): (r: int)
    requires i < |targets|
    ensures r == -1 || (0 <= r < |original| && !Used(original, targets, i)[r])
    decreases i, 1
  {
    Match(original, Used(original, targets, i), targets[i])
  }

  lemma {:induction false} UsedStays(original: seq<Tree>, targets: seq<Tree>, n: nat, m: nat, i: nat)
    requires n <= m <= |targets| && i < |original| && Used(original, targets, n)[i]
    ensures Used(original, targets, m)[i]
    decreases m
  {
    if n < m {
      UsedStays(original, targets, n, m - 1, i);
    }
  }

  /** Each old element is taken at most once. */
  lemma MatchedOnce(original: seq<Tree>, targets: seq<Tree>, i: nat, j: nat)
    requires i < j < |targets| && MatchOf(original, targets, i) >= 0
    ensures MatchOf(original, targets, i) != MatchOf(original, targets, j)
  {
    UsedStays(original, targets, i + 1, j, MatchOf(original, targets, i));
  }

  /** A target that takes nothing had nothing left to take: every old element that it resembles went to an earlier one. */
  lemma {:induction false} UsedMeansTaken(original: seq<Tree>, targets: seq<Tree>, n: nat, i: nat)
    requires n <= |targets| && i < |original| && Used(original, targets, n)[i]
    ensures exists k :: 0 <= k < n && MatchOf(original, targets, k) == i
    decreases n
  {
    var k := n - 1;
    if MatchOf(original, targets, k) != i {
      UsedMeansTaken(original, targets, k, i);
    }
  }

  lemma UnmatchedHadNoChoice(original: seq<Tree>, targets: seq<Tree>, i: nat, e: nat)
    requires i < |targets| && e < |original| && MatchOf(original, targets, i) == -1
    requires SameIdentity(original[e], targets[i]) || StructurallyEqual(original[e], targets[i])
    ensures exists k :: 0 <= k < i && MatchOf(original, targets, k) == e
  {
    UsedMeansTaken(original, targets, i, e);
  }
}
