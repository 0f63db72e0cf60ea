/** The Antigravity replay cache kept in Home: the same protocol on a remote register with compare-and-swap, shared by
    any number of processes. */
module AntigravityHome {
  import opened Wrappers
  import opened Bytes
  import opened ReplayItems
  import opened HomeRegister

  /** A stored value, decoded: text that does not decode, a chain without marker item, or a chain behind a marker.
      Generations and branches are the random identifiers handed out, numbered from 1; 0 stands for none. */
  datatype Raw =
    | Undecodable(text: bytes)
    | Unmarked(items: seq<bytes>)
    | Marked(generation: nat, branch: nat, deleted: bool, items: seq<bytes>)
  {
    function Branch(): nat {
      if Marked? then branch else 0
    }

    function Items(): seq<bytes> {
      if Undecodable? then [] else items
    }

    predicate Live() {
      !Undecodable? && (Marked? ==> !deleted)
    }
  }

  /** nil, as a raw value. */
  const NIL: Raw := Undecodable([])

  /** The fields of a snapshot that Home mode uses. */
  datatype Snapshot = Snapshot(raw: Raw, items: seq<bytes>, loaded: bool, found: bool, branch: nat)

  /** How items normalize, and which values exceed the limit on serialized bytes. */
  datatype Codec = Codec(normalize: bytes -> Option<bytes>, tooLong: Raw -> bool)

  /** A chain read back from Home: kept only if no item is lost in normalizing it. */
  function ReadBack(codec: Codec, items: seq<bytes>): Option<seq<bytes>> {
    match Normalize(codec.normalize, items)
    case None => None
    case Some(chain) => if |chain| == |items| then Some(chain) else None
  }

  /** The snapshot that a get makes of the value it found. */
  function SnapshotOf(codec: Codec, raw: Raw): Snapshot {
    if codec.tooLong(raw) then Snapshot(NIL, [], true, true, 0)
    else
      var chain := if raw.Live() then ReadBack(codec, raw.Items()) else None;
      Snapshot(raw, if chain.Some? then chain.value else [], true, true, raw.Branch())
  }

  function Tombstone(generation: nat, branch: nat): Raw {
    Marked(generation, branch, true, [])
  }

  // ---- What a publish may replace ----

  /** A live value on the snapshot's branch that the chain extends. */
  predicate Precedes(codec: Codec, s: Snapshot, chain: seq<bytes>, raw: Raw) {
    && !codec.tooLong(raw) && raw.Live() && s.branch != 0 && raw.Branch() == s.branch
    && ReadBack(codec, raw.Items()).Some? && ReadBack(codec, raw.Items()).value <= chain
  }

  /** A publish replaces the exact state of its snapshot or a live value that the chain extends. */
  predicate MayReplace(codec: Codec, s: Snapshot, chain: seq<bytes>, before: Option<Raw>) {
    Expected(before, s.raw, s.found) || (before.Some? && Precedes(codec, s, chain, before.value))
  }

  /** It stays on the snapshot's branch exactly when the chain extends the items that the snapshot saw. */
  predicate StaysOnBranch(s: Snapshot, chain: seq<bytes>) {
    s.branch != 0 && s.items <= chain
  }

  // ---- One process: the retry loops ----

  /** The source of random identifiers. */
  class Generations {
    var next: nat

    method New() returns (id: nat)
      requires next > 0
      modifies this
      ensures id == old(next) && next == old(next) + 1
    {
      id := next;
      next := next + 1;
    }
  }

  /** What a process has learned of the register: its last get saw the value, or its one swap put it where there was nothing. */
  ghost predicate Witnessed(register: Register<Raw>, gets: nat, swaps: seq<Swap<Raw>>, seen: Raw)
    reads register
  {
    || (register.swaps == swaps && gets < |register.gets| && register.gets[|register.gets| - 1] == Some(seen))
    || register.swaps == swaps + [Swap(None, seen)]
  }

  /** The loop of a get: an absent value is fenced by a tombstone, in at most four attempts. The only swaps put a tombstone where
      there was nothing. */
  method FetchOrReserve(register: Register<Raw>, ids: Generations) returns (seen: Raw, failed: bool)
    requires ids.next > 0
    modifies register, ids
    ensures ids.next >= old(ids.next)
    ensures !failed ==> register.value == Some(seen) && Witnessed(register, old(|register.gets|), old(register.swaps), seen)
    ensures old(register.script) == [] ==>
      !failed && register.script == [] && (old(register.value).Some? ==> register.value == old(register.value) == Some(seen))
    ensures old(register.swaps) <= register.swaps
    ensures forall i :: |old(register.swaps)| <= i < |register.swaps| ==>
      register.swaps[i].before == None && IsTombstone(register.swaps[i].after)
      && old(ids.next) <= register.swaps[i].after.branch < ids.next
  {
    seen, failed := NIL, true;
    for attempt := 0 to 4
      invariant old(register.script) == [] ==> attempt == 0 && register.script == [] && register.value == old(register.value)
      invariant ids.next >= old(ids.next) && failed
      invariant register.swaps == old(register.swaps) && old(|register.gets|) <= |register.gets|
    {
      var current, errGet := register.Get();
      if errGet {
        return;
      }
      if current.Some? {
        return current.value, false;
      }
      var generation := ids.New();
      var branch := ids.New();
      var reservation := Tombstone(generation, branch);
      var swapped, errReserve := register.CompareAndSwap(NIL, false, reservation);
      if errReserve {
        return;
      }
      if swapped {
        return reservation, false;
      }
    }
  }

  /** Get...WithSnapshotRequired in Home mode. The snapshot is of a value that was in the register; when the value holds a
      chain its time to live is refreshed, and if that fails, so does the get, with the full snapshot. */
  method GetWithSnapshot(codec: Codec, register: Register<Raw>, ids: Generations)
    returns (items: seq<bytes>, snapshot: Snapshot, found: bool, failed: bool, ghost seen: Raw)
    requires ids.next > 0
    modifies register, ids
    ensures ids.next >= old(ids.next)
    ensures snapshot.found ==>
      snapshot == SnapshotOf(codec, seen) && Witnessed(register, old(|register.gets|), old(register.swaps), seen)
    ensures !snapshot.found ==> failed && snapshot == Snapshot(NIL, [], true, false, 0)
    ensures found == (!failed && snapshot.items != []) && items == (if found then snapshot.items else [])
    ensures failed && snapshot.found ==> snapshot.items != []
    ensures old(register.script) == [] ==>
      !failed && (old(register.value).Some? ==> register.value == old(register.value) == Some(seen) && snapshot.found)
    ensures old(register.swaps) <= register.swaps
    ensures forall i :: |old(register.swaps)| <= i < |register.swaps| ==>
      register.swaps[i].before == None && IsTombstone(register.swaps[i].after)
      && old(ids.next) <= register.swaps[i].after.branch < ids.next
  {
    var raw;
    raw, failed := FetchOrReserve(register, ids);
    seen := raw;
    if failed {
      return [], Snapshot(NIL, [], true, false, 0), false, true, raw;
    }
    snapshot := SnapshotOf(codec, raw);
    if snapshot.items == [] {
      return [], snapshot, false, false, raw;
    }
    var errExpire := register.Expire();
    if errExpire {
      return [], snapshot, false, true, raw;
    }
    return snapshot.items, snapshot, true, false, raw;
  }

  /** Every swap since `start` is a publish of `chain` that the snapshot allows. */
  ghost predicate Publishes(codec: Codec, s: Snapshot, chain: seq<bytes>, swaps: seq<Swap<Raw>>, start: nat, branch: nat) {
    forall i :: start <= i < |swaps| ==>
      && swaps[i].after.Marked? && !swaps[i].after.deleted && swaps[i].after.items == chain
      && swaps[i].after.branch == branch
      && MayReplace(codec, s, chain, swaps[i].before)
  }

  /** No step of the script fails, and whatever changes the register leaves a live chain of the snapshot's branch that `chain`
      extends. */
  ghost predicate Harmless(codec: Codec, s: Snapshot, chain: seq<bytes>, value: Option<Raw>, script: seq<Turn<Raw>>)
    decreases |script|
  {
    script == [] ||
    (&& !script[0].fails
     && (script[0].value == value || (script[0].value.Some? && Precedes(codec, s, chain, script[0].value.value)))
     && Harmless(codec, s, chain, script[0].value, script[1..]))
  }

  /** The snapshot is current, and other processes change the register harmlessly, at most three times. */
  ghost predicate Calm(codec: Codec, s: Snapshot, chain: seq<bytes>, value: Option<Raw>, script: seq<Turn<Raw>>) {
    Expected(value, s.raw, s.found) && Harmless(codec, s, chain, value, script) && Changes(value, script) <= 3
  }

  lemma HarmlessNext(codec: Codec, s: Snapshot, chain: seq<bytes>, value: Option<Raw>, script: seq<Turn<Raw>>)
    ensures var found := Found(value, script);
            Harmless(codec, s, chain, value, script) ==>
              && !Fails(script) && Harmless(codec, s, chain, found, Later(script))
              && Changes(value, script) == Changes(found, Later(script)) + (if found == value then 0 else 1)
              && (found == value || (found.Some? && Precedes(codec, s, chain, found.value)))
  {}

  /** Replace...IfUnchanged in Home mode, for a loaded snapshot: the four-attempt loop. Whatever other processes do
      between its steps, every swap it makes is a publish that the snapshot allows, on the snapshot's branch or on one
      drawn by this call; it makes at most one, and exactly one when it reports success. With a current snapshot it
      succeeds if others extend the branch at most three times meanwhile. */
  method ReplaceIfUnchanged(codec: Codec, register: Register<Raw>, ids: Generations, s: Snapshot, items: seq<bytes>)
    returns (ok: bool, failed: bool, ghost branch: nat)
    requires ids.next > 0 && s.loaded
    modifies register, ids
    ensures ids.next >= old(ids.next)
    ensures Normalize(codec.normalize, items).None? ==> failed && register.swaps == old(register.swaps)
    ensures old(register.swaps) <= register.swaps && |register.swaps| <= |old(register.swaps)| + 1
    ensures ok ==> !failed && |register.swaps| == |old(register.swaps)| + 1
    ensures ok ==> register.value == Some(register.swaps[|old(register.swaps)|].after)
    ensures old(register.script) == [] ==> register.script == []
    ensures !ok && !failed ==> register.swaps == old(register.swaps)
    ensures Normalize(codec.normalize, items).Some? ==>
      var chain := Normalize(codec.normalize, items).value;
      && (if StaysOnBranch(s, chain) then branch == s.branch else old(ids.next) <= branch < ids.next)
      && Publishes(codec, s, chain, register.swaps, |old(register.swaps)|, branch)
    ensures Normalize(codec.normalize, items).Some? ==>
      var chain := Normalize(codec.normalize, items).value;
      old(Calm(codec, s, chain, register.value, register.script)) ==> ok
  {
    ok, failed, branch := false, false, 0;
    var normalized := Normalize(codec.normalize, items);
    if normalized.None? {
      return false, true, 0;
    }
    var chain := normalized.value;
    var expectedRaw, expectedFound := s.raw, s.found;
    var target := s.branch;
    if !StaysOnBranch(s, chain) {
      target := ids.New();
    }
    branch := target;
    for attempt := 0 to 4
      invariant ids.next >= old(ids.next) && ids.next > 0
      invariant if StaysOnBranch(s, chain) then target == s.branch else old(ids.next) <= target < ids.next
      invariant register.swaps == old(register.swaps)
      invariant old(register.script) == [] ==> register.script == []
      invariant old(Calm(codec, s, chain, register.value, register.script)) ==>
        && Expected(register.value, expectedRaw, expectedFound)
        && Harmless(codec, s, chain, register.value, register.script)
        && Changes(register.value, register.script) + attempt <= 3
      invariant (expectedRaw == s.raw && expectedFound == s.found)
             || (expectedFound && Precedes(codec, s, chain, expectedRaw))
    {
      HarmlessNext(codec, s, chain, register.value, register.script);
      HarmlessNext(codec, s, chain, Found(register.value, register.script), Later(register.script));
      var generation := ids.New();
      var swapped, errCAS := register.CompareAndSwap(expectedRaw, expectedFound, Marked(generation, target, false, chain));
      if errCAS || swapped {
        return swapped, errCAS, target;
      }
      var current, errGet := register.Get();
      if errGet || current.None? {
        return false, errGet, target;
      }
      if !Precedes(codec, s, chain, current.value) {
        return false, false, target;
      }
      expectedRaw, expectedFound := current.value, true;
    }
  }

  // ---- What callers see ----

  /** Values that hold a chain: a plain list, or one behind a marker that is no tombstone. */
  ghost predicate HoldsChain(raw: Raw, chain: seq<bytes>) {
    raw == Unmarked(chain) || (raw.Marked? && !raw.deleted && raw.items == chain)
  }

  /** A get shows a chain of normal items within the limits whole, with the branch of its marker; of tombstones and of text that
      does not decode it shows nothing, and of values over the size limit not even the raw value. */
  lemma ChainIsShown(codec: Codec, raw: Raw, chain: seq<bytes>)
    ensures NormalChain(codec.normalize, chain) && HoldsChain(raw, chain) && !codec.tooLong(raw) ==>
      SnapshotOf(codec, raw) == Snapshot(raw, chain, true, true, if raw.Marked? then raw.branch else 0)
    ensures (raw.Undecodable? || (raw.Marked? && raw.deleted)) && !codec.tooLong(raw) ==>
      SnapshotOf(codec, raw) == Snapshot(raw, [], true, true, if raw.Marked? then raw.branch else 0)
    ensures codec.tooLong(raw) ==> SnapshotOf(codec, raw) == Snapshot(NIL, [], true, true, 0)
  {
    if NormalChain(codec.normalize, chain) {
      NormalChainStays(codec.normalize, chain);
    }
  }

  /** A chain of normal items, that others left on the snapshot's branch, may be replaced by every chain that extends it. */
  lemma GrownValuePrecedes(codec: Codec, s: Snapshot, raw: Raw, chain: seq<bytes>)
    requires raw.Marked? && !raw.deleted && raw.branch == s.branch != 0 && !codec.tooLong(raw)
    requires NormalChain(codec.normalize, raw.items)
    ensures Precedes(codec, s, chain, raw) <==> raw.items <= chain
  {
    NormalChainStays(codec.normalize, raw.items);
  }

  /** Undisturbed, a chain of normal items that is published with a current snapshot is what the next get serves, on the
      snapshot's branch if it extends what the snapshot shows. */
  method PublishedChainIsServed(codec: Codec, register: Register<Raw>, ids: Generations, s: Snapshot, chain: seq<bytes>)
    returns (ok: bool, items: seq<bytes>, snapshot: Snapshot, found: bool)
    requires ids.next > 0 && s.loaded && register.script == [] && Expected(register.value, s.raw, s.found)
    requires NormalChain(codec.normalize, chain) && forall g, b :: !codec.tooLong(Marked(g, b, false, chain))
    modifies register, ids
    ensures ok && found && items == chain && snapshot.items == chain
    ensures s.branch != 0 && s.items <= chain ==> snapshot.branch == s.branch
  {
    NormalChainStays(codec.normalize, chain);
    hide NormalChain, Witnessed, SnapshotOf;
    var failed;
    ghost var branch;
    ok, failed, branch := ReplaceIfUnchanged(codec, register, ids, s, chain);
    var raw := register.value.value;
    ChainIsShown(codec, raw, chain);
    ghost var seen;
    items, snapshot, found, failed, seen := GetWithSnapshot(codec, register, ids);
    assert chain != [] by {
      ChainIsNotEmpty(codec, chain);
    }
  }

  lemma ChainIsNotEmpty(codec: Codec, chain: seq<bytes>)
    requires NormalChain(codec.normalize, chain)
    ensures chain != []
  {}

  // ---- Any number of processes ----

  /** The register, the values put into it so far, and the snapshots taken so far. A step of any process between two
      atomic steps of another is just another step here. */
  datatype System = System(value: Option<Raw>, log: seq<Raw>, snapshots: set<Snapshot>)

  /** No chain that extends what a snapshot of the value shows contradicts what the value holds. */
  ghost predicate Uncontradicted(codec: Codec, raw: Raw) {
    raw.Marked? && raw.branch != 0 && !codec.tooLong(raw) ==>
      forall items :: Normalize(codec.normalize, items).Some? ==>
        var chain := Normalize(codec.normalize, items).value;
        SnapshotOf(codec, raw).items <= chain ==> raw.items <= chain
  }

  /** A register that holds nothing, or a value left there earlier. */
  ghost predicate Init(sys: System) {
    sys.snapshots == {} && sys.log == if sys.value.Some? then [sys.value.value] else []
  }

  datatype Step =
    | TakeSnapshot
    | FailToSnapshot
    | Reserve(tombstone: Raw)
    | Publish(s: Snapshot, items: seq<bytes>, published: Raw)
    | Store(items: seq<bytes>, stored: Raw)
    | Delete(tombstone: Raw)
    | Expire

  /** Random identifiers do not repeat: a branch drawn by the step's process has not been seen before. */
  ghost predicate NewBranch(sys: System, raw: Raw) {
    && raw.Marked? && raw.branch != 0
    && (forall i :: 0 <= i < |sys.log| ==> sys.log[i].Branch() != raw.branch)
    && (forall s :: s in sys.snapshots ==> s.branch != raw.branch)
  }

  ghost predicate Puts(sys: System, raw: Raw, next: System) {
    next.value == Some(raw) && next.log == sys.log + [raw]
  }

  predicate IsTombstone(raw: Raw) {
    raw.Marked? && raw.deleted && raw.items == []
  }

  /** The atomic steps that change the register or take snapshots; KVSet overwrites whatever is there. */
  ghost predicate Next(codec: Codec, sys: System, step: Step, next: System) {
    match step
    case TakeSnapshot =>
      sys.value.Some? && next == sys.(snapshots := sys.snapshots + {SnapshotOf(codec, sys.value.value)})
    case FailToSnapshot =>
      next == sys.(snapshots := sys.snapshots + {Snapshot(NIL, [], true, false, 0)})
    case Reserve(tombstone) =>
      && sys.value == None && IsTombstone(tombstone) && NewBranch(sys, tombstone) && Puts(sys, tombstone, next)
      && next.snapshots == sys.snapshots + {SnapshotOf(codec, tombstone)}
    case Publish(s, items, published) =>
      && s in sys.snapshots && next.snapshots == sys.snapshots
      && Normalize(codec.normalize, items).Some?
      && var chain := Normalize(codec.normalize, items).value;
      && MayReplace(codec, s, chain, sys.value)
      && published.Marked? && !published.deleted && published.items == chain
      && (if StaysOnBranch(s, chain) then published.branch == s.branch else NewBranch(sys, published))
      && Puts(sys, published, next)
    case Store(items, stored) =>
      && stored.Marked? && !stored.deleted && Normalize(codec.normalize, items) == Some(stored.items)
      && NewBranch(sys, stored) && Puts(sys, stored, next) && next.snapshots == sys.snapshots
    case Delete(tombstone) =>
      && IsTombstone(tombstone) && NewBranch(sys, tombstone) && Puts(sys, tombstone, next) && next.snapshots == sys.snapshots
    case Expire =>
      next == sys.(value := None)
  }

  /** Along a branch the items only grow by appending, and a tombstone is only ever the first value. */
  ghost predicate BranchesGrow(log: seq<Raw>) {
    forall i, j :: 0 <= i < j < |log| && log[i].Branch() != 0 && log[i].Branch() == log[j].Branch() ==>
      log[i].items <= log[j].items && !log[j].deleted
  }

  ghost predicate Inv(codec: Codec, sys: System) {
    && BranchesGrow(sys.log)
    && (forall i :: 0 <= i < |sys.log| ==> Uncontradicted(codec, sys.log[i]))
    && (sys.value.Some? ==> sys.log != [] && sys.value.value == sys.log[|sys.log| - 1])
    && (forall s :: s in sys.snapshots && s.branch != 0 ==> s.found && s == SnapshotOf(codec, s.raw) && Uncontradicted(codec, s.raw))
  }

  lemma PutKeepsInv(codec: Codec, sys: System, raw: Raw, next: System)
    requires Inv(codec, sys) && Uncontradicted(codec, raw) && Puts(sys, raw, next) && next.snapshots == sys.snapshots
    requires raw.Marked? && !(raw.deleted && exists i :: 0 <= i < |sys.log| && sys.log[i].Branch() == raw.branch)
    requires forall i :: 0 <= i < |sys.log| && sys.log[i].Branch() == raw.branch && raw.branch != 0 ==> sys.log[i].items <= raw.items
    ensures Inv(codec, next)
  {
    hide Uncontradicted, SnapshotOf;
  }

  /** What a publish or a store writes is shown whole by its snapshots. */
  lemma NormalizedIsShown(codec: Codec, items: seq<bytes>, raw: Raw)
    requires Idempotent(codec.normalize) && raw.Marked? && !raw.deleted
    requires Normalize(codec.normalize, items) == Some(raw.items)
    ensures Uncontradicted(codec, raw) && (codec.tooLong(raw) || SnapshotOf(codec, raw).items == raw.items)
  {
    NormalizeTwice(codec.normalize, items);
  }

  /** A publish that stays on its branch extends what the register holds. */
  lemma PublishExtends(codec: Codec, sys: System, s: Snapshot, items: seq<bytes>, chain: seq<bytes>)
    requires Inv(codec, sys) && s in sys.snapshots && Normalize(codec.normalize, items) == Some(chain)
    requires MayReplace(codec, s, chain, sys.value) && StaysOnBranch(s, chain)
    ensures sys.value.Some? && sys.value.value.Marked? && sys.value.value.branch == s.branch && sys.value.value.items <= chain
  {}

  lemma NextKeepsInv(codec: Codec, sys: System, step: Step, next: System)
    requires Idempotent(codec.normalize) && Inv(codec, sys) && Next(codec, sys, step, next)
    ensures Inv(codec, next)
  {
    hide Normalize, ReadBack;
    match step
    case Reserve(tombstone) =>
      PutKeepsInv(codec, sys, tombstone, next.(snapshots := sys.snapshots));
    case Publish(s, items, published) =>
      NormalizedIsShown(codec, items, published);
      if StaysOnBranch(s, published.items) {
        PublishExtends(codec, sys, s, items, published.items);
        forall i | 0 <= i < |sys.log| && sys.log[i].Branch() == published.branch
          ensures sys.log[i].items <= published.items
        {
          if i < |sys.log| - 1 {
            assert sys.log[i].items <= sys.log[|sys.log| - 1].items;
          }
        }
      }
      PutKeepsInv(codec, sys, published, next);
    case Store(items, stored) =>
      NormalizedIsShown(codec, items, stored);
      PutKeepsInv(codec, sys, stored, next);
    case Delete(tombstone) =>
      PutKeepsInv(codec, sys, tombstone, next);
    case _ =>
  }

  ghost predicate Execution(codec: Codec, states: seq<System>, steps: seq<Step>) {
    && |states| == |steps| + 1 && Init(states[0])
    && forall i :: 0 <= i < |steps| ==> Next(codec, states[i], steps[i], states[i + 1])
  }

  lemma {:induction false} ExecutionKeepsInv(codec: Codec, states: seq<System>, steps: seq<Step>, n: nat)
    requires Idempotent(codec.normalize) && Execution(codec, states, steps) && n < |states|
    requires states[0].value.Some? ==> Uncontradicted(codec, states[0].value.value)
    ensures Inv(codec, states[n])
  {
    if n == 0 {
      hide Uncontradicted;
    } else {
      ExecutionKeepsInv(codec, states, steps, n - 1);
      NextKeepsInv(codec, states[n - 1], steps[n - 1], states[n]);
    }
  }

  /** Main result: whatever the processes do and however their steps interleave, items along a branch only grow by
      appending and a tombstone is only ever the first value of a branch. */
  lemma HomeBranchesGrow(codec: Codec, states: seq<System>, steps: seq<Step>, n: nat)
    requires Idempotent(codec.normalize) && Execution(codec, states, steps) && n < |states|
    requires states[0].value.Some? ==> Uncontradicted(codec, states[0].value.value)
    ensures BranchesGrow(states[n].log)
  {
    ExecutionKeepsInv(codec, states, steps, n);
  }

  /** The premise on the value left in Home earlier is exact: growth holds in every execution over it if and only if no chain
      contradicts it. */
  lemma GrowthIff(codec: Codec, raw: Raw)
    requires Idempotent(codec.normalize)
    ensures Uncontradicted(codec, raw) <==>
      forall states: seq<System>, steps: seq<Step> :: Execution(codec, states, steps) && states[0].value == Some(raw) ==> BranchesGrow(states[|steps|].log)
  {
    hide Next, Init, BranchesGrow;
    if Uncontradicted(codec, raw) {
      forall states: seq<System>, steps: seq<Step> | Execution(codec, states, steps) && states[0].value == Some(raw)
        ensures BranchesGrow(states[|steps|].log)
      {
        HomeBranchesGrow(codec, states, steps, |steps|);
      }
    } else {
      var items :| Normalize(codec.normalize, items).Some?
                && SnapshotOf(codec, raw).items <= Normalize(codec.normalize, items).value
                && !(raw.items <= Normalize(codec.normalize, items).value);
      var states, steps := ContradictionBreaksGrowth(codec, raw, items);
      assert Execution(codec, states, steps);
    }
  }

  /** Where chains of one item can differ, that is: a marked value with a branch exceeds the size limit, or its snapshot
      shows exactly what it holds. */
  lemma UncontradictedIff(codec: Codec, raw: Raw, one: bytes, other: bytes)
    requires Idempotent(codec.normalize) && one != other
    requires Normalize(codec.normalize, [one]) == Some([one]) && Normalize(codec.normalize, [other]) == Some([other])
    ensures Uncontradicted(codec, raw) <==>
      (raw.Marked? && raw.branch != 0 ==> codec.tooLong(raw) || SnapshotOf(codec, raw).items == raw.items)
  {
    if raw.Marked? && raw.branch != 0 && !codec.tooLong(raw) && SnapshotOf(codec, raw).items != raw.items {
      var shown := SnapshotOf(codec, raw).items;
      if shown == [] {
        assert !(raw.items <= [one]) || !(raw.items <= [other]);
      } else {
        NormalizeTwice(codec.normalize, raw.items);
        assert |shown| == |raw.items| && Normalize(codec.normalize, shown) == Some(shown);
        assert !(raw.items <= shown);
      }
    }
  }

  /** Over a value that a chain contradicts, a publish of that chain stays on the value's branch. */
  lemma ContradictionBreaksGrowth(codec: Codec, raw: Raw, items: seq<bytes>)
    returns (states: seq<System>, steps: seq<Step>)
    requires raw.Marked? && raw.branch != 0 && !codec.tooLong(raw)
    requires Normalize(codec.normalize, items).Some?
    requires SnapshotOf(codec, raw).items <= Normalize(codec.normalize, items).value
    requires !(raw.items <= Normalize(codec.normalize, items).value)
    ensures Execution(codec, states, steps) && states[0].value == Some(raw)
    ensures !BranchesGrow(states[|steps|].log)
  {
    var chain := Normalize(codec.normalize, items).value;
    var s := SnapshotOf(codec, raw);
    var published := Marked(0, raw.branch, false, chain);
    var start := System(Some(raw), [raw], {});
    var read := start.(snapshots := {s});
    var end := System(Some(published), [raw] + [published], {s});
    states, steps := [start, read, end], [TakeSnapshot, Publish(s, items, published)];
    assert {} + {s} == {s};
    assert Next(codec, start, TakeSnapshot, read);
    assert Next(codec, read, Publish(s, items, published), end);
    assert end.log[0] == raw && end.log[1] == published;
  }

  /** The only items that normalize to nothing here are those that hold the byte 1. */
  const LOSSY: Codec := Codec(item => if item == [1] then None else Some(item), _ => false)

  /** A marked value whose one item the normalizer rejects: two steps break the growth of its branch. */
  lemma LossyValueBreaksGrowth() returns (raw: Raw, states: seq<System>, steps: seq<Step>)
    ensures Idempotent(LOSSY.normalize) && raw == Marked(1, 1, false, [[1]])
    ensures Execution(LOSSY, states, steps) && states[0].value == Some(raw) && !BranchesGrow(states[|steps|].log)
  {
    raw := Marked(1, 1, false, [[1]]);
    var items: seq<bytes> := [[2]];
    assert NormalizeEach(LOSSY.normalize, raw.items[1..]) == [];
    assert NormalizeEach(LOSSY.normalize, raw.items) == [];
    assert NormalizeEach(LOSSY.normalize, items[1..]) == [];
    assert NormalizeEach(LOSSY.normalize, items) == items;
    assert ItemBytes(items[1..]) == 0 && ItemBytes(items) == 1;
    assert SnapshotOf(LOSSY, raw).items == [];
    assert raw.items[0] != items[0];
    states, steps := ContradictionBreaksGrowth(LOSSY, raw, items);
  }

  // ---- The loops take these steps ----

  /** A swap as Publishes describes it, on the snapshot's branch or on a new one, is a Publish step of the system whose
      register it happens to. */
  lemma SwapIsPublish(codec: Codec, sys: System, s: Snapshot, items: seq<bytes>, chain: seq<bytes>, swap: Swap<Raw>, branch: nat)
    returns (next: System)
    requires s in sys.snapshots && swap.before == sys.value && Normalize(codec.normalize, items) == Some(chain)
    requires Publishes(codec, s, chain, [swap], 0, branch)
    requires if StaysOnBranch(s, chain) then branch == s.branch else NewBranch(sys, swap.after)
    ensures next.value == Some(swap.after) && Next(codec, sys, Publish(s, items, swap.after), next)
  {
    next := System(Some(swap.after), sys.log + [swap.after], sys.snapshots);
    assert [swap][0] == swap;
  }

  /** A get that finds a value is a TakeSnapshot step; one that puts a tombstone on a new branch is a Reserve step. */
  lemma GetIsStep(codec: Codec, sys: System, seen: Raw, swaps: seq<Swap<Raw>>) returns (step: Step, next: System)
    requires swaps == [] ==> sys.value == Some(seen)
    requires swaps != [] ==> swaps == [Swap(sys.value, seen)] && sys.value == None && IsTombstone(seen) && NewBranch(sys, seen)
    ensures Next(codec, sys, step, next) && next.value == Some(seen) && SnapshotOf(codec, seen) in next.snapshots
  {
    var shown := sys.snapshots + {SnapshotOf(codec, seen)};
    if swaps == [] {
      step, next := TakeSnapshot, sys.(snapshots := shown);
    } else {
      step, next := Reserve(seen), System(Some(seen), sys.log + [seen], shown);
    }
  }
}
