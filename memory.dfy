/** malloc, as far as the queue can observe it. */
module Memory {

  import opened Wrappers

  /** An address above every address in s, so one that s does not hold. */
  ghost function Above(s: set<nat>): (b: nat)
    ensures forall x :: x in s ==> x < b
    decreases s
  {
    if s == {} then 0
    else
      var x :| x in s;
      var r := Above(s - {x});
      assert forall y :: y in s ==> y == x || y in s - {x};
      if x < r then r else x + 1
  }

  /**
   * The allocator. `live` holds every address handed out so far (nothing is
   * freed here). A call either fails (NULL) or returns some address not in
   * `live`; which of the two happens, and which address, is not under the
   * program's control, so the model leaves both open. In particular nothing
   * relates the order of two addresses to the order of the calls.
   */
  class Heap {
    var live: set<nat>

    constructor ()
      ensures live == {}
    {
      live := {};
    }

    method Malloc() returns (p: Option<nat>)
      modifies this
      ensures p.Some? ==> p.value !in old(live) && live == old(live) + {p.value}
      ensures p.None? ==> live == old(live)
    {
      var fails: bool :| true;
      if fails {
        p := None;
      } else {
        assert Above(live) !in live;
        var a: nat :| a !in live;
        p := Some(a);
        live := live + {a};
      }
    }
  }
}
