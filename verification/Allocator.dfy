/** The rotating stream-id allocator of `patchMsg`. */
module Allocator {
  import opened Wrappers

  /** The id the loop settles on when it starts from `last`, or None for "stream ids spent". */
  function Search(last: nat, inUse: set<nat>, max: nat): (r: Option<nat>)
    decreases max - last
  {
    if last + 1 > max then (if 1 in inUse then None else Some(1))
    else if last + 1 in inUse then Search(last + 1, inUse, max)
    else Some(last + 1)
  }

  /** `lastStream` after the loop: where it stopped, which is 1 when it gave up. */
  function Cursor(r: Option<nat>): (last: nat)
  {
    if r.Some? then r.value else 1
  }

  /** Every id above the cursor is taken. */
  predicate RestInUse(last: nat, inUse: set<nat>, max: nat)
  {
    forall id :: last < id <= max ==> id in inUse
  }

  /**
   * Exactly what the allocator does: it fails precisely when every id above the cursor and id 1 are taken; otherwise
   * it returns the first free id above the cursor, or id 1 after wrapping round.
   */
  lemma {:induction false} SearchIsExact(last: nat, inUse: set<nat>, max: nat)
    requires 1 <= max && last <= max
    ensures var r := Search(last, inUse, max);
            && (r.None? <==> RestInUse(last, inUse, max) && 1 in inUse)
            && (r.Some? ==> && r.value !in inUse && 1 <= r.value <= max
                            && (if r.value > last then forall id :: last < id < r.value ==> id in inUse
                                else r.value == 1 && RestInUse(last, inUse, max)))
    decreases max - last
  {
    if last + 1 <= max && last + 1 in inUse {
      SearchIsExact(last + 1, inUse, max);
    }
  }

  /** Giving up does not mean that no id is free: exactly the ids from 2 up to the cursor are never looked at. */
  lemma {:induction false} GivesUpEarly(last: nat, inUse: set<nat>, max: nat)
    requires 1 <= max && last <= max && Search(last, inUse, max).None?
    ensures (exists id :: 1 <= id <= max && id !in inUse) <==> (exists id :: 2 <= id <= last && id !in inUse)
  {
    SearchIsExact(last, inUse, max);
    if id :| 1 <= id <= max && id !in inUse {
      assert 2 <= id <= last;
    }
  }

  /** The fields of Connection that the allocator uses. */
  class StreamIds {
    var lastStream: nat
    var inUseStreams: set<nat>
    const maxStreams: nat

    constructor (maxStreams: nat)
      ensures this.maxStreams == maxStreams && lastStream == 0 && inUseStreams == {}
    {
      this.maxStreams := maxStreams;
      lastStream, inUseStreams := 0, {};
    }

    /** The loop of `patchMsg`. */
    method Take() returns (r: Option<nat>)
      requires lastStream <= maxStreams && 1 <= maxStreams
      modifies this
      ensures r == Search(old(lastStream), old(inUseStreams), maxStreams)
      ensures lastStream == Cursor(r) <= maxStreams
      ensures inUseStreams == old(inUseStreams) + (if r.Some? then {r.value} else {})
    {
      var loop := false;
      while true
        invariant lastStream <= maxStreams && inUseStreams == old(inUseStreams)
        invariant !loop
        invariant Search(lastStream, inUseStreams, maxStreams)
               == Search(old(lastStream), old(inUseStreams), maxStreams)
        decreases maxStreams - lastStream
      {
        lastStream := lastStream + 1;
        if lastStream > maxStreams {
          lastStream := 1;
          loop := true;
        }
        if lastStream in inUseStreams {
          if loop {
            return None;
          }
        } else {
          inUseStreams := inUseStreams + {lastStream};
          return Some(lastStream);
        }
      }
    }

    method Release(id: nat)
      modifies this`inUseStreams
      ensures inUseStreams == old(inUseStreams) - {id}
    {
      inUseStreams := inUseStreams - {id};
    }
  }
}
