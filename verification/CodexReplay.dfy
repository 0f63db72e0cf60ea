/** The Codex replay cache: cumulative turns per agent, trimmed at turn boundaries, appended by compare-and-swap. */
module CodexReplay {
  import opened Wrappers
  import opened Bytes
  import opened HomeRegister

  const MAX_TURNS: nat := 256
  const MAX_BYTES: nat := 16 * 0x10_0000

  /** A replay item: its serialized bytes, and its turn id when it is a turn-boundary marker. */
  datatype Item = Item(raw: bytes, turnId: Option<bytes>)

  predicate IsMarker(item: Item) {
    item.turnId.Some?
  }

  function Markers(items: seq<Item>): nat {
    if items == [] then 0 else (if IsMarker(items[0]) then 1 else 0) + Markers(items[1..])
  }

  function TotalBytes(items: seq<Item>): nat {
    if items == [] then 0 else |items[0].raw| + TotalBytes(items[1..])
  }

  /** Turns start at the first item and at every later marker. */
  function Turns(items: seq<Item>): nat {
    if items == [] then 1 else 1 + Markers(items[1..])
  }

  predicate Fits(items: seq<Item>) {
    Turns(items) <= MAX_TURNS && TotalBytes(items) <= MAX_BYTES
  }

  /** Start of the second turn; |items| when there is only one. */
  function SecondTurn(items: seq<Item>): (i: nat)
    ensures i <= |items| && (items != [] ==> 0 < i)
    ensures i < |items| ==> IsMarker(items[i])
    ensures forall j :: 0 < j < i ==> !IsMarker(items[j])
  {
    if |items| <= 1 then |items|
    else if IsMarker(items[1]) then 1
    else
      var i := 1 + SecondTurn(items[1..]);
      assert forall j :: 1 < j < i ==> items[j] == items[1..][j - 1];
      i
  }

  /** trimCodexReasoningReplayItems: whole turns are dropped from the front until the rest fits. */
  function Trim(items: seq<Item>): (r: seq<Item>)
    decreases |items|
  {
    if Fits(items) then items else if items == [] then [] else Trim(items[SecondTurn(items)..])
  }

  // ---- Trimming ----

  predicate IsStart(items: seq<Item>, k: nat) {
    k == 0 || (k < |items| && IsMarker(items[k]))
  }

  /** The rest is the longest fitting suffix that starts a turn; nothing is left when not even the last turn fits. */
  lemma {:induction false} TrimIsLongest(items: seq<Item>) returns (k: nat)
    ensures k <= |items| && Trim(items) == items[k..]
    ensures Fits(items[k..])
    ensures k == |items| || IsStart(items, k)
    ensures forall j :: 0 <= j < k && IsStart(items, j) ==> !Fits(items[j..])
    decreases |items|
  {
    assert items[0..] == items;
    if Fits(items) {
      k := 0;
    } else if items == [] {
      k := 0;
    } else {
      var second := SecondTurn(items);
      var rest := items[second..];
      var m := TrimIsLongest(rest);
      k := second + m;
      assert rest[m..] == items[k..];
      EarlierStartsTooLong(items, second, m);
    }
  }

  lemma EarlierStartsTooLong(items: seq<Item>, second: nat, m: nat)
    requires second <= |items| && !Fits(items) && second + m <= |items|
    requires forall j :: 0 < j < second ==> !IsMarker(items[j])
    requires forall j :: 0 <= j < m && IsStart(items[second..], j) ==> !Fits(items[second..][j..])
    ensures forall j :: 0 <= j < second + m && IsStart(items, j) ==> !Fits(items[j..])
  {
    hide Fits;
    var rest := items[second..];
    assert items[0..] == items;
    forall j | 0 <= j < second + m && IsStart(items, j) ensures !Fits(items[j..]) {
      if j >= second {
        assert rest[j - second..] == items[j..];
        assert IsStart(rest, j - second);
      }
    }
  }

  /** Trimming twice is trimming once. */
  lemma TrimTwice(items: seq<Item>)
    ensures Fits(Trim(items)) && Trim(Trim(items)) == Trim(items)
  {
    var k := TrimIsLongest(items);
  }

  // ---- Appending a turn ----

  /** Stored items that do not start with a marker are discarded. */
  function Anchored(items: seq<Item>): (r: seq<Item>)
    ensures r == [] || IsMarker(r[0])
  {
    if items != [] && !IsMarker(items[0]) then [] else items
  }

  function LeadingId(turn: seq<Item>): bytes {
    if turn != [] && IsMarker(turn[0]) then turn[0].turnId.value else []
  }

  predicate HasTurn(items: seq<Item>, id: bytes) {
    exists i :: 0 <= i < |items| && items[i].turnId == Some(id)
  }

  /** appendCodexReasoningReplayTurn. */
  function Append(existing: seq<Item>, turn: seq<Item>): seq<Item> {
    var kept, id := Anchored(existing), LeadingId(turn);
    if id != [] && HasTurn(kept, id) then Trim(kept) else Trim(kept + turn)
  }

  /** A turn as normalization leaves it: it fits, and its first item is a marker with an id. */
  ghost predicate ProperTurn(turn: seq<Item>) {
    Fits(turn) && Led(turn)
  }

  ghost predicate Led(turn: seq<Item>) {
    turn != [] && turn[0].turnId.Some? && turn[0].turnId.value != []
  }

  /** Some item is a marker of the turn that starts with the marker `first`. */
  ghost predicate Holds(items: seq<Item>, first: Item) {
    exists i :: 0 <= i < |items| && items[i].turnId == first.turnId
  }

  lemma ProperLeads(turn: seq<Item>)
    requires Led(turn)
    ensures IsMarker(turn[0]) && LeadingId(turn) != [] && Some(LeadingId(turn)) == turn[0].turnId
    ensures forall items :: Holds(items, turn[0]) == HasTurn(items, LeadingId(turn))
  {}

  /** What an append leaves starts with a marker, or is empty. */
  lemma AppendAnchors(existing: seq<Item>, turn: seq<Item>)
    requires turn == [] || IsMarker(turn[0])
    ensures Anchored(Append(existing, turn)) == Append(existing, turn)
  {
    var kept := Anchored(existing);
    var _ := TrimIsLongest(kept);
    var _ := TrimIsLongest(kept + turn);
  }

  /** A turn not yet there survives its append whole; only turns before it are trimmed. */
  lemma AppendedTurnSurvives(existing: seq<Item>, turn: seq<Item>) returns (k: nat)
    requires ProperTurn(turn) && !Holds(Anchored(existing), turn[0])
    ensures k <= |Anchored(existing)| && Append(existing, turn) == Anchored(existing)[k..] + turn
    ensures Holds(Append(existing, turn), turn[0])
  {
    ProperLeads(turn);
    hide Trim, Fits, Holds;
    k := LastTurnKept(Anchored(existing), turn);
    StartsWithTurn(Anchored(existing)[k..], turn);
  }

  lemma LastTurnKept(kept: seq<Item>, turn: seq<Item>) returns (k: nat)
    requires Fits(turn) && turn != [] && IsMarker(turn[0])
    ensures k <= |kept| && Trim(kept + turn) == kept[k..] + turn
  {
    hide Trim, Fits;
    var all := kept + turn;
    k := TrimIsLongest(all);
    assert all[|kept|..] == turn && all[|kept|] == turn[0];
    assert IsStart(all, |kept|);
    assert all[k..] == kept[k..] + turn;
  }

  lemma StartsWithTurn(front: seq<Item>, turn: seq<Item>)
    requires turn != []
    ensures Holds(front + turn, turn[0])
  {
    assert (front + turn)[|front|] == turn[0];
  }

  /** Appending a turn a second time changes nothing, except when the stored items held the turn and it was among
      those that the first append trimmed. */
  lemma AppendTwice(existing: seq<Item>, turn: seq<Item>)
    requires ProperTurn(turn)
    ensures Append(Append(existing, turn), turn) == Append(existing, turn)
       <==> !(Holds(Anchored(existing), turn[0]) && !Holds(Trim(Anchored(existing)), turn[0]))
  {
    ProperLeads(turn);
    hide Trim, Fits, Holds;
    var kept, id, once := Anchored(existing), LeadingId(turn), Append(existing, turn);
    AppendAnchors(existing, turn);
    if HasTurn(kept, id) {
      TrimTwice(kept);
      if !HasTurn(once, id) {
        var _ := AppendedTurnSurvives(once, turn);
      }
    } else {
      var _ := AppendedTurnSurvives(existing, turn);
      TrimTwice(kept + turn);
    }
  }

  /** What an append leaves fits. */
  lemma AppendFits(existing: seq<Item>, turn: seq<Item>)
    ensures Fits(Append(existing, turn))
  {
    var kept := Anchored(existing);
    TrimTwice(kept);
    TrimTwice(kept + turn);
  }

  /** Over items that fit, as those that an append or a store leaves do, appending a turn a second time changes nothing. */
  lemma StoredAppendTwice(existing: seq<Item>, turn: seq<Item>)
    requires Fits(existing) && ProperTurn(turn)
    ensures Append(Append(existing, turn), turn) == Append(existing, turn)
  {
    AppendTwice(existing, turn);
    assert Fits([]);
  }

  /** Over items that fit and start with a marker, appending a turn that is there already, wherever, changes nothing. */
  lemma PresentTurnIgnored(existing: seq<Item>, turn: seq<Item>)
    requires Fits(existing) && ProperTurn(turn)
    requires existing != [] && existing[0].turnId.Some?
    requires exists i :: 0 <= i < |existing| && existing[i].turnId == turn[0].turnId
    ensures Append(existing, turn) == existing
  {
    ProperLeads(turn);
    assert Holds(existing, turn[0]);
  }

  /** And a turn that is not there follows them if both fit together. */
  lemma NewTurnFollows(existing: seq<Item>, turn: seq<Item>)
    requires Fits(existing + turn) && ProperTurn(turn)
    requires existing != [] ==> existing[0].turnId.Some?
    requires forall i :: 0 <= i < |existing| ==> existing[i].turnId != turn[0].turnId
    ensures Append(existing, turn) == existing + turn
  {
    ProperLeads(turn);
    assert !Holds(existing, turn[0]);
  }

  /** What fits: at most 256 turns, the first item and every later marker starting one, and at most 16 MiB. */
  lemma FitsIs(items: seq<Item>)
    ensures Fits(items) <==>
      |set i | 0 < i < |items| && items[i].turnId.Some?| + 1 <= 256 && TotalLength(seq(|items|, i requires 0 <= i < |items| => items[i].raw)) <= 16777216
  {
    var later := set i | 0 < i < |items| && items[i].turnId.Some?;
    if items != [] {
      MarkersAre(items, 1);
      assert later == set i | 1 <= i < |items| && items[i].turnId.Some?;
    } else {
      assert forall i :: i !in later;
      assert later == {};
    }
    BytesAre(items);
  }

  lemma {:induction false} BytesAre(items: seq<Item>)
    ensures TotalBytes(items) == TotalLength(seq(|items|, i requires 0 <= i < |items| => items[i].raw))
    decreases |items|
  {
    if items != [] {
      var n := |items| - 1;
      var raws := seq(|items|, i requires 0 <= i < |items| => items[i].raw);
      BytesAre(items[..n]);
      assert raws[..n] == seq(n, i requires 0 <= i < n => items[..n][i].raw);
      MarkersConcat(items[..n], [items[n]]);
      assert items == items[..n] + [items[n]] && [items[n]][1..] == [];
    }
  }

  lemma {:induction false} MarkersAre(items: seq<Item>, from: nat)
    requires from <= |items|
    ensures |set i | from <= i < |items| && items[i].turnId.Some?| == Markers(items[from..])
    decreases |items| - from
  {
    var here := set i | from <= i < |items| && items[i].turnId.Some?;
    if from < |items| {
      MarkersAre(items, from + 1);
      var later := set i | from + 1 <= i < |items| && items[i].turnId.Some?;
      assert items[from..][1..] == items[from + 1..];
      assert here == later + if items[from].turnId.Some? then {from} else {};
    } else {
      assert here == {};
    }
  }

  /** Stored items that start with a marker only lose turns at the front. */
  lemma AppendTrimsFront(existing: seq<Item>, turn: seq<Item>) returns (k: nat)
    requires existing == [] || IsMarker(existing[0])
    ensures var all := if Led(turn) && Holds(existing, turn[0]) then existing else existing + turn;
            k <= |all| && Append(existing, turn) == all[k..]
            && (k == |all| || IsStart(all, k)) && Fits(all[k..])
            && forall j :: 0 <= j < k && IsStart(all, j) ==> !Fits(all[j..])
  {
    if Led(turn) {
      ProperLeads(turn);
    }
    k := TrimIsLongest(if Led(turn) && Holds(existing, turn[0]) then existing else existing + turn);
  }

  /** A turn that does not start with a marker, stored first, is lost to the next append. */
  lemma UnmarkedTurnIsLost(turn: seq<Item>, next: seq<Item>)
    requires turn != [] && !IsMarker(turn[0]) && Fits(turn)
    ensures Append([], turn) == turn && Append(turn, next) == Trim(next)
  {
    assert [] + turn == turn && [] + next == next;
  }

  // ---- Runs of appends ----

  lemma {:induction false} MarkersConcat(a: seq<Item>, b: seq<Item>)
    ensures Markers(a + b) == Markers(a) + Markers(b) && TotalBytes(a + b) == TotalBytes(a) + TotalBytes(b)
  {
    if a == [] {
      assert a + b == b;
    } else {
      assert (a + b)[1..] == a[1..] + b;
      MarkersConcat(a[1..], b);
    }
  }

  lemma FitsFront(a: seq<Item>, b: seq<Item>)
    requires Fits(a + b)
    ensures Fits(a)
  {
    MarkersConcat(a, b);
    if a != [] {
      assert (a + b)[1..] == a[1..] + b;
      MarkersConcat(a[1..], b);
    }
  }

  /** Dropping turns that could not stay anyway does not change what trimming leaves. */
  lemma {:induction false} TrimFrom(items: seq<Item>, k: nat)
    requires k <= |items| && (k == |items| || IsStart(items, k))
    requires forall j :: 0 <= j < k && IsStart(items, j) ==> !Fits(items[j..])
    ensures Trim(items[k..]) == Trim(items)
    decreases k
  {
    hide Fits;
    assert items[0..] == items;
    if k > 0 {
      var second := SecondTurn(items);
      var rest := items[second..];
      assert second <= k;
      forall j | 0 <= j < k - second && IsStart(rest, j) ensures !Fits(rest[j..]) {
        assert IsStart(items, second + j) && rest[j..] == items[second + j..];
      }
      TrimFrom(rest, k - second);
      assert rest[k - second..] == items[k..];
    }
  }

  /** Trimming before another turn is appended changes nothing in the end. */
  lemma TrimOfTrim(a: seq<Item>, b: seq<Item>)
    requires b == [] || IsMarker(b[0])
    ensures Trim(Trim(a) + b) == Trim(a + b)
  {
    hide Trim, Fits;
    var k := TrimIsLongest(a);
    var all := a + b;
    forall j | 0 <= j < k && IsStart(all, j) ensures !Fits(all[j..]) {
      assert IsStart(a, j) && all[j..] == a[j..] + b;
      if Fits(all[j..]) {
        FitsFront(a[j..], b);
      }
    }
    assert all[k..] == a[k..] + b;
    TrimFrom(all, k);
  }

  /** The appends one after the other. */
  function Fold(start: seq<Item>, turns: seq<seq<Item>>): seq<Item> {
    if turns == [] then start else Append(Fold(start, turns[..|turns| - 1]), turns[|turns| - 1])
  }

  function Concat(turns: seq<seq<Item>>): seq<Item> {
    if turns == [] then [] else Concat(turns[..|turns| - 1]) + turns[|turns| - 1]
  }

  /** The turns are as normalization leaves them, and none is there yet when it is appended. */
  ghost predicate NewTurns(start: seq<Item>, turns: seq<seq<Item>>) {
    forall j :: 0 <= j < |turns| ==> ProperTurn(turns[j]) && !Holds(start + Concat(turns[..j]), turns[j][0])
  }

  /** A run of appends of different turns stores the longest fitting suffix of everything appended that starts a turn (which
      is what trimming gives), however the trimming was spread over the run. */
  lemma {:induction false} RunStoresLongestSuffix(start: seq<Item>, turns: seq<seq<Item>>)
    requires Anchored(start) == start && Fits(start) && NewTurns(start, turns)
    ensures Fold(start, turns) == Trim(start + Concat(turns))
    decreases |turns|
  {
    hide Fits, Trim, NewTurns, Holds, Append;
    if turns == [] {
      assert start + Concat(turns) == start;
      TrimFitting(start);
    } else {
      var n := |turns| - 1;
      var before, turn := turns[..n], turns[n];
      NewTurnsFront(start, turns);
      RunStoresLongestSuffix(start, before);
      var all := start + Concat(before);
      AppendNew(start, before, turn);
      TrimOfTrim(all, turn);
      assert all + turn == start + Concat(turns);
    }
  }

  lemma NewTurnsFront(start: seq<Item>, turns: seq<seq<Item>>)
    requires NewTurns(start, turns) && turns != []
    ensures var n := |turns| - 1;
            && NewTurns(start, turns[..n]) && ProperTurn(turns[n]) && IsMarker(turns[n][0])
            && !Holds(start + Concat(turns[..n]), turns[n][0])
  {
    hide Holds;
    var n := |turns| - 1;
    assert forall j :: 0 <= j < n ==> turns[..n][j] == turns[j] && turns[..n][..j] == turns[..j];
  }

  lemma AppendNew(start: seq<Item>, before: seq<seq<Item>>, turn: seq<Item>)
    requires Anchored(start) == start && NewTurns(start, before)
    requires ProperTurn(turn) && !Holds(start + Concat(before), turn[0])
    ensures Append(Trim(start + Concat(before)), turn) == Trim(Trim(start + Concat(before)) + turn)
  {
    ProperLeads(turn);
    hide Fits, Trim;
    var all := start + Concat(before);
    ConcatStartsWithMarker(start, before);
    var k := TrimIsLongest(all);
    assert forall i :: 0 <= i < |all[k..]| ==> all[k..][i] == all[i + k];
  }

  lemma TrimFitting(items: seq<Item>)
    requires Fits(items)
    ensures Trim(items) == items
  {}

  lemma {:induction false} ConcatStartsWithMarker(start: seq<Item>, turns: seq<seq<Item>>)
    requires Anchored(start) == start && forall j :: 0 <= j < |turns| ==> ProperTurn(turns[j])
    ensures start + Concat(turns) == [] || IsMarker((start + Concat(turns))[0])
    decreases |turns|
  {
    if turns != [] {
      var n := |turns| - 1;
      ConcatStartsWithMarker(start, turns[..n]);
      assert start + Concat(turns) == start + Concat(turns[..n]) + turns[n];
    }
  }

  // ---- The operations ----

  method TrimItems(input: seq<Item>) returns (items: seq<Item>)
    ensures items == Trim(input)
  {
    items := input;
    while true
      invariant Trim(items) == Trim(input)
      decreases |items|
    {
      var turnStarts, totalBytes := CountTurns(items);
      if |turnStarts| <= MAX_TURNS && totalBytes <= MAX_BYTES {
        return;
      }
      if |turnStarts| <= 1 {
        return [];
      }
      items := items[turnStarts[1]..];
    }
  }

  /** One pass over the items: where turns start, and how many bytes there are. */
  method CountTurns(items: seq<Item>) returns (turnStarts: seq<nat>, totalBytes: nat)
    ensures |turnStarts| == Turns(items) && totalBytes == TotalBytes(items)
    ensures if |turnStarts| == 1 then SecondTurn(items) == |items| else |turnStarts| > 1 && turnStarts[1] == SecondTurn(items) < |items|
  {
    turnStarts, totalBytes := [0], 0;
    for index := 0 to |items|
      invariant totalBytes + TotalBytes(items[index..]) == TotalBytes(items)
      invariant |turnStarts| + Markers(items[if index == 0 && items != [] then 1 else index..]) == Turns(items)
      invariant |turnStarts| >= 1
      invariant if |turnStarts| == 1 then forall j :: 0 < j < index ==> !IsMarker(items[j])
                else 0 < turnStarts[1] < index && IsMarker(items[turnStarts[1]]) && forall j :: 0 < j < turnStarts[1] ==> !IsMarker(items[j])
    {
      assert items[index..][1..] == items[index + 1..];
      totalBytes := totalBytes + |items[index].raw|;
      if index > 0 && IsMarker(items[index]) {
        turnStarts := turnStarts + [index];
      }
    }
  }

  /** How items are stored: the marshalled list of their bytes. Whether an item is a marker, and for which turn, is read off
      its bytes. */
  datatype Codec = Codec(turnId: bytes -> Option<bytes>, marshal: seq<bytes> -> bytes, unmarshal: bytes -> Option<seq<bytes>>)

  /** Unmarshalling inverts marshalling. */
  ghost predicate Faithful(codec: Codec) {
    forall raws :: codec.unmarshal(codec.marshal(raws)) == Some(raws)
  }

  function ItemsOf(codec: Codec, raws: seq<bytes>): (r: seq<Item>)
    ensures |r| == |raws|
  {
    seq(|raws|, i requires 0 <= i < |raws| => Item(raws[i], codec.turnId(raws[i])))
  }

  function Encode(codec: Codec, items: seq<Item>): bytes {
    codec.marshal(seq(|items|, i requires 0 <= i < |items| => items[i].raw))
  }

  function Decode(codec: Codec, value: bytes): Option<seq<Item>> {
    match codec.unmarshal(value)
    case None => None
    case Some(raws) => Some(ItemsOf(codec, raws))
  }

  /** The items in a stored value: none in an absent one. */
  function Items(codec: Codec, value: Option<bytes>): Option<seq<Item>> {
    if value == None then Some([]) else Decode(codec, value.value)
  }

  /** The turn ids are those that the bytes carry. */
  ghost predicate Genuine(codec: Codec, items: seq<Item>) {
    forall i :: 0 <= i < |items| ==> items[i].turnId == codec.turnId(items[i].raw)
  }

  lemma DecodeEncode(codec: Codec, items: seq<Item>)
    requires Faithful(codec) && Genuine(codec, items)
    ensures Decode(codec, Encode(codec, items)) == Some(items)
  {
    var raws := seq(|items|, i requires 0 <= i < |items| => items[i].raw);
    assert ItemsOf(codec, raws) == items;
  }

  lemma AppendGenuine(codec: Codec, existing: seq<Item>, turn: seq<Item>)
    requires Genuine(codec, existing) && Genuine(codec, turn)
    ensures Genuine(codec, Append(existing, turn))
  {
    var kept := Anchored(existing);
    var _ := TrimIsLongest(kept);
    var _ := TrimIsLongest(kept + turn);
  }

  lemma {:induction false} RepeatedMarkers(n: nat, item: Item)
    requires IsMarker(item)
    ensures Markers(seq(n, _ => item)) == n
  {
    if n > 0 {
      assert seq(n, _ => item)[1..] == seq(n - 1, _ => item);
      RepeatedMarkers(n - 1, item);
    }
  }

  /** The exception takes a value that the code never writes: one turn more than the limit, the oldest of which is appended
      again, twice. Its items are any two markers that the codec tells apart. */
  lemma OverfullValueAppendsTwice(codec: Codec, a: bytes, b: bytes)
    requires codec.turnId(a).Some? && codec.turnId(b).Some? && codec.turnId(a) != codec.turnId(b)
    requires codec.turnId(a).value != [] && |a| <= MAX_BYTES
    ensures var existing, turn := ItemsOf(codec, [a] + seq(MAX_TURNS, _ => b)), ItemsOf(codec, [a]);
            && Genuine(codec, existing) && ProperTurn(turn) && !Fits(existing)
            && Append(existing, turn) != Append(Append(existing, turn), turn)
  {
    hide Trim, Fits, Append;
    var first, other := Item(a, codec.turnId(a)), Item(b, codec.turnId(b));
    var others := seq(MAX_TURNS, _ => other);
    var existing, turn := ItemsOf(codec, [a] + seq(MAX_TURNS, _ => b)), ItemsOf(codec, [a]);
    assert existing == [first] + others && turn == [first];
    OneTurnFits(first);
    OverfullIsCut(first, other);
    SuffixLacks(others, other, first);
    assert existing[0].turnId == first.turnId;
    AppendTwice(existing, turn);
  }

  lemma OneTurnFits(item: Item)
    requires |item.raw| <= MAX_BYTES
    ensures Fits([item])
  {
    assert [item][1..] == [];
  }

  lemma OverfullIsCut(first: Item, other: Item)
    requires IsMarker(other)
    ensures var others := seq(MAX_TURNS, _ => other);
            !Fits([first] + others) && Trim([first] + others) == Trim(others)
  {
    hide TotalBytes;
    var others := seq(MAX_TURNS, _ => other);
    var existing := [first] + others;
    assert existing[1..] == others;
    RepeatedMarkers(MAX_TURNS, other);
    assert Turns(existing) == MAX_TURNS + 1;
    assert SecondTurn(existing) == 1;
  }

  lemma SuffixLacks(items: seq<Item>, item: Item, first: Item)
    requires item.turnId != first.turnId && forall i :: 0 <= i < |items| ==> items[i] == item
    ensures !Holds(Trim(items), first)
  {
    hide Trim, Fits;
    var k := TrimIsLongest(items);
    assert forall i :: 0 <= i < |items[k..]| ==> items[k..][i] == items[i + k];
  }

  const MAX_ATTEMPTS: nat := 32

  /** No step of the script fails, and every value in the register can be read. */
  ghost predicate Harmless(codec: Codec, value: Option<bytes>, script: seq<Turn<bytes>>) {
    Items(codec, value).Some? && forall i :: 0 <= i < |script| ==> !script[i].fails && Items(codec, script[i].value).Some?
  }

  /** And the register changes less often than the process can try. */
  ghost predicate Patient(codec: Codec, value: Option<bytes>, script: seq<Turn<bytes>>, patience: nat) {
    Harmless(codec, value, script) && Changes(value, script) < patience && Changes(value, script) < MAX_ATTEMPTS
  }

  lemma HarmlessNext(codec: Codec, value: Option<bytes>, script: seq<Turn<bytes>>)
    ensures var found := Found(value, script);
            Harmless(codec, value, script) ==>
              && !Fails(script) && Harmless(codec, found, Later(script))
              && Changes(value, script) == Changes(found, Later(script)) + (if found == value then 0 else 1)
  {}

  /** The loop of AppendCodexReasoningReplayItemsBestEffort in Home mode; `turn` holds the bytes of the normalized items, and
      `patience` is the number of attempts before the caller's context ends. Whatever other processes do between its
      steps, its one swap, if any, appends the turn to the items that it replaces. It succeeds if the others change the
      register less often than it can try. */
  method AppendHome(codec: Codec, register: Register<bytes>, turn: seq<bytes>, patience: nat) returns (ok: bool)
    modifies register
    ensures old(register.swaps) <= register.swaps && |register.swaps| <= |old(register.swaps)| + 1
    ensures ok ==> |register.swaps| == |old(register.swaps)| + 1
    ensures forall i :: |old(register.swaps)| <= i < |register.swaps| ==>
      var stored := Items(codec, register.swaps[i].before);
      stored.Some? && register.swaps[i].after == Encode(codec, Append(stored.value, ItemsOf(codec, turn)))
    ensures ok ==> register.value == Some(register.swaps[|old(register.swaps)|].after)
    ensures old(Patient(codec, register.value, register.script, patience)) ==> ok
    ensures old(register.script == [] && patience > 0 && Items(codec, register.value).Some?) ==>
      ok && register.value == Some(Encode(codec, Append(Items(codec, old(register.value)).value, ItemsOf(codec, turn))))
  {
    for attempt := 0 to MAX_ATTEMPTS
      invariant register.swaps == old(register.swaps)
      invariant old(Harmless(codec, register.value, register.script)) ==>
        && Harmless(codec, register.value, register.script)
        && attempt + Changes(register.value, register.script) <= old(Changes(register.value, register.script))
      invariant attempt == 0 ==> register.script == old(register.script) && register.value == old(register.value)
    {
      HarmlessNext(codec, register.value, register.script);
      HarmlessNext(codec, Found(register.value, register.script), Later(register.script));
      if attempt >= patience {
        return false;
      }
      var existingRaw, errGet := register.Get();
      if errGet {
        return false;
      }
      var existing := Items(codec, existingRaw);
      if existing == None {
        return false;
      }
      var combined := Append(existing.value, ItemsOf(codec, turn));
      var expected := if existingRaw.Some? then existingRaw.value else [];
      var written, errCAS := register.CompareAndSwap(expected, existingRaw.Some?, Encode(codec, combined));
      if errCAS {
        return false;
      }
      if written {
        return true;
      }
    }
    return false;
  }

  // ---- Any number of appending processes ----

  /** Where a process is in the loop: about to read, or about to swap what it computed from what it read. */
  datatype Process = Idle | Reading(turn: seq<bytes>, attempt: nat) | Swapping(turn: seq<bytes>, attempt: nat, seen: Option<bytes>)

  /** The register, the processes, and the turns whose appends took effect, in the order of their swaps. */
  datatype System = System(value: Option<bytes>, processes: map<nat, Process>, appended: seq<seq<bytes>>)

  datatype Step = Begin(p: nat, turn: seq<bytes>) | Read(p: nat) | TrySwap(p: nat) | GiveUp(p: nat)

  ghost predicate Next(codec: Codec, sys: System, step: Step, next: System) {
    && step.p in sys.processes
    && match step
       case Begin(p, turn) =>
         sys.processes[p].Idle? && next == sys.(processes := sys.processes[p := Reading(turn, 0)])
       case Read(p) =>
         var process := sys.processes[p];
         process.Reading? && process.attempt < MAX_ATTEMPTS
         && next == sys.(processes := sys.processes[p := Swapping(process.turn, process.attempt, sys.value)])
       case TrySwap(p) =>
         var process := sys.processes[p];
         && process.Swapping? && Items(codec, process.seen).Some?
         && if sys.value == process.seen
            then next == System(Some(Encode(codec, Append(Items(codec, process.seen).value, ItemsOf(codec, process.turn)))),
                                sys.processes[p := Idle], sys.appended + [process.turn])
            else next == sys.(processes := sys.processes[p := Reading(process.turn, process.attempt + 1)])
       case GiveUp(p) =>
         next == sys.(processes := sys.processes[p := Idle])
  }

  /** A swap as AppendHome makes it, by a process that has read what the register still holds, is a TrySwap step of the system
      whose register it happens to. */
  lemma SwapIsTrySwap(codec: Codec, sys: System, p: nat, swap: Swap<bytes>) returns (next: System)
    requires p in sys.processes && sys.processes[p].Swapping? && sys.processes[p].seen == swap.before == sys.value
    requires Items(codec, swap.before).Some?
    requires swap.after == Encode(codec, Append(Items(codec, swap.before).value, ItemsOf(codec, sys.processes[p].turn)))
    ensures Next(codec, sys, TrySwap(p), next)
    ensures next.value == Some(swap.after) && next.appended == sys.appended + [sys.processes[p].turn]
  {
    hide Append, Encode, ItemsOf, Items;
    next := System(Some(swap.after), sys.processes[p := Idle], sys.appended + [sys.processes[p].turn]);
  }

  /** Its get before is a Read step. */
  lemma GetIsRead(codec: Codec, sys: System, p: nat) returns (next: System)
    requires p in sys.processes && sys.processes[p].Reading? && sys.processes[p].attempt < MAX_ATTEMPTS
    ensures Next(codec, sys, Read(p), next) && next.value == sys.value
    ensures p in next.processes && next.processes[p] == Swapping(sys.processes[p].turn, sys.processes[p].attempt, sys.value)
  {
    var process := sys.processes[p];
    next := sys.(processes := sys.processes[p := Swapping(process.turn, process.attempt, sys.value)]);
  }

  ghost predicate Execution(codec: Codec, states: seq<System>, steps: seq<Step>) {
    && |states| == |steps| + 1 && states[0].appended == []
    && forall i :: 0 <= i < |steps| ==> Next(codec, states[i], steps[i], states[i + 1])
  }

  function TurnsOf(codec: Codec, appended: seq<seq<bytes>>): (r: seq<seq<Item>>)
    ensures |r| == |appended|
  {
    seq(|appended|, i requires 0 <= i < |appended| => ItemsOf(codec, appended[i]))
  }

  /** One swap stores what the append gives, and it reads back as that. */
  lemma SwapReadsBack(codec: Codec, seen: Option<bytes>, turn: seq<bytes>)
    requires Faithful(codec) && Items(codec, seen).Some?
    ensures var after := Append(Items(codec, seen).value, ItemsOf(codec, turn));
            Items(codec, Some(Encode(codec, after))) == Some(after)
  {
    hide Append;
    AppendGenuine(codec, Items(codec, seen).value, ItemsOf(codec, turn));
    DecodeEncode(codec, Append(Items(codec, seen).value, ItemsOf(codec, turn)));
  }

  /** Main result: in every run of appends, by any number of processes, the stored items are those of the successful
      appends done one after the other in the order of their swaps. */
  lemma {:induction false} AppendsAreSequential(codec: Codec, states: seq<System>, steps: seq<Step>, n: nat)
    requires Faithful(codec) && Execution(codec, states, steps) && n < |states|
    requires Items(codec, states[0].value).Some?
    ensures Items(codec, states[n].value) == Some(Fold(Items(codec, states[0].value).value, TurnsOf(codec, states[n].appended)))
  {
    hide Append, Items, Encode, ItemsOf;
    if n > 0 {
      AppendsAreSequential(codec, states, steps, n - 1);
      var was, now := states[n - 1], states[n];
      assert Next(codec, was, steps[n - 1], now);
      if now.appended != was.appended {
        var process := was.processes[steps[n - 1].p];
        SwapReadsBack(codec, process.seen, process.turn);
        assert TurnsOf(codec, now.appended) == TurnsOf(codec, was.appended) + [ItemsOf(codec, process.turn)];
        FoldMore(Items(codec, states[0].value).value, TurnsOf(codec, was.appended), ItemsOf(codec, process.turn));
      }
    }
  }

  lemma FoldMore(start: seq<Item>, turns: seq<seq<Item>>, turn: seq<Item>)
    ensures Fold(start, turns + [turn]) == Append(Fold(start, turns), turn)
  {
    assert (turns + [turn])[..|turns|] == turns;
  }
}
