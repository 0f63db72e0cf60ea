/** One key of the remote store, as one process sees it: atomic get and compare-and-swap steps, between which other
    processes, or expiry, may do anything to it. */
module HomeRegister {
  import opened Wrappers
  import opened Bytes

  /** What happens just before a step of this process reaches the register: others have left `value` there; the step may
      report an error, and a swap that does may have taken effect nevertheless. */
  datatype Turn<V> = Turn(value: Option<V>, fails: bool, effective: bool)

  datatype Swap<V> = Swap(before: Option<V>, after: V)

  /** The value found is the one a compare-and-swap expects; the flag says whether it expects one at all. */
  predicate Expected<V(==)>(value: Option<V>, expected: V, expectedExists: bool) {
    if expectedExists then value == Some(expected) else value == None
  }

  /** What the next step finds in the register, and what is left of the script after it. */
  function Found<V>(value: Option<V>, script: seq<Turn<V>>): Option<V> {
    if script == [] then value else script[0].value
  }

  function Fails<V>(script: seq<Turn<V>>): bool {
    script != [] && script[0].fails
  }

  function Later<V>(script: seq<Turn<V>>): seq<Turn<V>> {
    if script == [] then [] else script[1..]
  }

  /** How often the register changes while the script lasts. */
  ghost function Changes<V>(value: Option<V>, script: seq<Turn<V>>): nat
    decreases |script|
  {
    if script == [] then 0 else (if script[0].value == value then 0 else 1) + Changes(script[0].value, script[1..])
  }

  class Register<V(==)> {
    var value: Option<V>
    var script: seq<Turn<V>>
    /** The swaps of this process that took effect, and what its gets saw. */
    ghost var swaps: seq<Swap<V>>
    ghost var gets: seq<Option<V>>

    method Await() returns (fails: bool, effective: bool)
      modifies this`value, this`script
      ensures value == Found(old(value), old(script)) && script == Later(old(script))
      ensures fails == Fails(old(script)) && (!fails ==> effective)
    {
      fails, effective := false, true;
      if script != [] {
        value, fails, effective, script := script[0].value, script[0].fails, script[0].effective || !script[0].fails, script[1..];
      }
    }

    method Get() returns (seen: Option<V>, failed: bool)
      modifies this`value, this`script, this`gets
      ensures value == Found(old(value), old(script)) && script == Later(old(script)) && failed == Fails(old(script))
      ensures !failed ==> seen == value && gets == old(gets) + [value]
      ensures failed ==> gets == old(gets)
    {
      var effective;
      failed, effective := Await();
      seen := value;
      if !failed {
        gets := gets + [value];
      }
    }

    /** Refreshes the time to live, which is not part of the value. */
    method Expire() returns (failed: bool)
      modifies this`value, this`script
      ensures value == Found(old(value), old(script)) && script == Later(old(script)) && failed == Fails(old(script))
    {
      var effective;
      failed, effective := Await();
    }

    /** Swaps the value found if and only if it is the expected one; after an error it may or may not have done so. */
    method CompareAndSwap(expected: V, expectedExists: bool, next: V) returns (swapped: bool, failed: bool)
      modifies this`value, this`script, this`swaps
      ensures script == Later(old(script)) && failed == Fails(old(script)) && (failed ==> !swapped)
      ensures var found := Found(old(value), old(script));
              && (!failed ==> (swapped <==> Expected(found, expected, expectedExists)))
              && (if |swaps| == |old(swaps)| then swaps == old(swaps) && value == found && !swapped
                  else swaps == old(swaps) + [Swap(found, next)] && value == Some(next) && Expected(found, expected, expectedExists)
                       && (swapped || failed))
    {
      var effective;
      failed, effective := Await();
      swapped := false;
      if Expected(value, expected, expectedExists) && effective {
        swaps := swaps + [Swap(value, next)];
        value := Some(next);
        swapped := !failed;
      }
    }
  }
}
