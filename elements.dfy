/** The payload of the queue: element_t and its `char *value`. */
module Elements {

  /**
   * A `char *value`: the address of its heap buffer and the characters the
   * buffer holds before its terminating NUL. The queue compares values with
   * `==`, `<` and `>` on the pointer, so the address is part of the value.
   */
  datatype Value = Value(buffer: nat, text: string)

  /** An element_t: the address of its node (its identity) and its value. */
  datatype Element = Element(node: nat, value: Value)

  /** No node appears twice in s, as in any ring. */
  predicate DistinctNodes(s: seq<Element>)
  {
    forall i, j :: 0 <= i < j < |s| ==> s[i].node != s[j].node
  }

  /** No two elements of s share a value buffer. */
  predicate DistinctBuffers(s: seq<Element>)
  {
    forall i, j :: 0 <= i < j < |s| ==> s[i].value.buffer != s[j].value.buffer
  }

  /** Every value buffer in s is one of the addresses in `live`. */
  predicate BuffersIn(s: seq<Element>, live: set<nat>)
  {
    forall i :: 0 <= i < |s| ==> s[i].value.buffer in live
  }

  /**
   * A value whose buffer is not among the addresses already handed out
   * (`live`, which holds every buffer of s) shares its buffer with no
   * element of s, at either end; every buffer is then among the addresses
   * handed out once it is added (`live'`).
   */
  lemma FreshBuffer(s: seq<Element>, e: Element, live: set<nat>, live': set<nat>)
    requires DistinctBuffers(s) && BuffersIn(s, live)
    requires e.value.buffer !in live && live + {e.value.buffer} <= live'
    ensures DistinctBuffers([e] + s) && BuffersIn([e] + s, live')
    ensures DistinctBuffers(s + [e]) && BuffersIn(s + [e], live')
  {
  }
}
