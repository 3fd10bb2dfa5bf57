/**
 * The kernel-style circular doubly-linked list the queue is built on, as the
 * queue uses it. A ListHead is a sentinel `struct list_head`; `elems` is its
 * ring read from head->next round to head->prev. A node of the ring is named
 * by its position in `elems`, and a node after which something is inserted
 * (an anchor) by its position too, with -1 naming the sentinel itself.
 */
module Lists {

  import opened Elements

  class ListHead {
    var elems: seq<Element>

    /** LIST_HEAD / INIT_LIST_HEAD on a new sentinel: an empty ring. */
    constructor ()
      ensures elems == []
    {
      elems := [];
    }
  }

  /** INIT_LIST_HEAD(h): h links to itself again; whatever it headed is forgotten. */
  method InitListHead(h: ListHead)
    modifies h
    ensures h.elems == []
  {
    h.elems := [];
  }

  /** list_add(n, h): n becomes the first node. */
  method ListAdd(n: Element, h: ListHead)
    modifies h
    ensures h.elems == [n] + old(h.elems)
  {
    h.elems := [n] + h.elems;
  }

  /** list_add_tail(n, h): n becomes the last node. */
  method ListAddTail(n: Element, h: ListHead)
    modifies h
    ensures h.elems == old(h.elems) + [n]
  {
    h.elems := h.elems + [n];
  }

  /** list_del / list_del_init on the node at position i: it leaves the ring. */
  method ListDel(h: ListHead, i: int)
    requires 0 <= i < |h.elems|
    modifies h
    ensures h.elems == old(h.elems[..i]) + old(h.elems[i + 1..])
  {
    h.elems := h.elems[..i] + h.elems[i + 1..];
  }

  /**
   * list_move(node j, anchor a): unlink node j, then link it right after
   * anchor a (which keeps its identity, so its position shifts down by one
   * when it stood after j).
   */
  method ListMove(h: ListHead, j: int, a: int)
    requires 0 <= j < |h.elems| && -1 <= a < |h.elems| && a != j
    modifies h
    ensures var rest := old(h.elems[..j]) + old(h.elems[j + 1..]);
            var at := if a < j then a + 1 else a;
            h.elems == rest[..at] + [old(h.elems[j])] + rest[at..]
  {
    var n := h.elems[j];
    var rest := h.elems[..j] + h.elems[j + 1..];
    var at := if a < j then a + 1 else a;
    h.elems := rest[..at] + [n] + rest[at..];
  }

  /**
   * list_cut_position(to, anchor a, node c): the run of nodes after a up to
   * and including c leaves `from` and becomes the whole of `to`; a is then
   * linked to what followed c.
   */
  method ListCutPosition(to: ListHead, from: ListHead, a: int, c: int)
    requires to != from
    requires -1 <= a <= c < |from.elems|
    modifies to, from
    ensures to.elems == old(from.elems[a + 1..c + 1])
    ensures from.elems == old(from.elems[..a + 1]) + old(from.elems[c + 1..])
  {
    to.elems := from.elems[a + 1..c + 1];
    from.elems := from.elems[..a + 1] + from.elems[c + 1..];
  }

  /** list_splice_init(l, anchor a in h): l's nodes go right after a, and l is emptied. */
  method ListSpliceInit(l: ListHead, h: ListHead, a: int)
    requires l != h
    requires -1 <= a < |h.elems|
    modifies l, h
    ensures h.elems == old(h.elems[..a + 1]) + old(l.elems) + old(h.elems[a + 1..])
    ensures l.elems == []
  {
    h.elems := h.elems[..a + 1] + l.elems + h.elems[a + 1..];
    l.elems := [];
  }

  /**
   * list_splice_tail(l, h): l's nodes go to the end of h. The sentinel l is
   * not touched: it still points at nodes that now belong to h, so it must be
   * reinitialised or dropped before it is used again. The model leaves
   * l.elems as it was, which then no longer describes a ring of its own.
   */
  method ListSpliceTail(l: ListHead, h: ListHead)
    requires l != h
    modifies h
    ensures h.elems == old(h.elems) + l.elems
  {
    h.elems := h.elems + l.elems;
  }
}
