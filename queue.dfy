/**
 * queue.c: a queue of strings kept in a sentinel-headed circular list.
 * A NULL `struct list_head *` is a null ListHead; a NULL `char *` is None.
 */
module Queue {

  import opened Wrappers
  import opened CString
  import opened Elements
  import opened Memory
  import opened Lists
  import opened Sequences
  import opened Filters

  /** q_new: a fresh empty queue, or NULL when malloc fails. */
  method New(heap: Heap) returns (head: ListHead?)
    modifies heap
    ensures old(heap.live) <= heap.live
    ensures (head != null) == (|heap.live| == |old(heap.live)| + 1)
    ensures head != null ==> fresh(head) && head.elems == []
  {
    var p := heap.Malloc();
    if p.None? {
      return null;
    }
    head := new ListHead();
  }

  /**
   * q_insert_head: on a NULL queue or string, or when either malloc fails,
   * false and the queue is as it was; otherwise a new node whose value is a
   * fresh buffer holding a copy of s goes first.
   */
  method InsertHead(head: ListHead?, s: Option<string>, heap: Heap) returns (ok: bool)
    modifies head, heap
    ensures old(heap.live) <= heap.live
    ensures ok == (head != null && s.Some? && |heap.live| == |old(heap.live)| + 2)
    ensures head != null && DistinctBuffers(old(head.elems)) && BuffersIn(old(head.elems), old(heap.live)) ==>
              DistinctBuffers(head.elems) && BuffersIn(head.elems, heap.live)
    ensures ok ==> head != null && s.Some?
    ensures head != null && !ok ==> head.elems == old(head.elems)
    ensures ok ==> |head.elems| == |old(head.elems)| + 1 && head.elems[1..] == old(head.elems)
    ensures ok ==> head.elems[0].value.text == s.value[..Strlen(s.value)]
    ensures ok ==> head.elems[0].node !in old(heap.live) && head.elems[0].node in heap.live
    ensures ok ==> head.elems[0].value.buffer !in old(heap.live) && head.elems[0].value.buffer in heap.live
    ensures ok ==> head.elems[0].node != head.elems[0].value.buffer
  {
    if head == null || s.None? {
      return false;
    }
    ghost var live := heap.live;
    var node := heap.Malloc();
    if node.None? {
      return false;
    }
    var len := Strlen(s.value);
    var buffer := heap.Malloc();
    if buffer.None? {
      return false;  // the node is freed again
    }
    var text := StrNCpy(s.value, len);  // and buffer[len] = '\0'
    StrNCpyPrefix(s.value, len);
    if DistinctBuffers(head.elems) && BuffersIn(head.elems, live) {
      FreshBuffer(head.elems, Element(node.value, Value(buffer.value, text)), live + {node.value}, heap.live);
    }
    ListAdd(Element(node.value, Value(buffer.value, text)), head);
    ok := true;
  }

  /** q_insert_tail: as InsertHead, with the new node going last. */
  method InsertTail(head: ListHead?, s: Option<string>, heap: Heap) returns (ok: bool)
    modifies head, heap
    ensures old(heap.live) <= heap.live
    ensures ok == (head != null && s.Some? && |heap.live| == |old(heap.live)| + 2)
    ensures head != null && DistinctBuffers(old(head.elems)) && BuffersIn(old(head.elems), old(heap.live)) ==>
              DistinctBuffers(head.elems) && BuffersIn(head.elems, heap.live)
    ensures ok ==> head != null && s.Some?
    ensures head != null && !ok ==> head.elems == old(head.elems)
    ensures ok ==> |head.elems| == |old(head.elems)| + 1 && head.elems[..|head.elems| - 1] == old(head.elems)
    ensures ok ==> Last(head.elems).value.text == s.value[..Strlen(s.value)]
    ensures ok ==> Last(head.elems).node !in old(heap.live) && Last(head.elems).node in heap.live
    ensures ok ==> Last(head.elems).value.buffer !in old(heap.live) && Last(head.elems).value.buffer in heap.live
    ensures ok ==> Last(head.elems).node != Last(head.elems).value.buffer
  {
    if head == null || s.None? {
      return false;
    }
    ghost var live := heap.live;
    var node := heap.Malloc();
    if node.None? {
      return false;
    }
    var len := Strlen(s.value);
    var buffer := heap.Malloc();
    if buffer.None? {
      return false;  // the node is freed again
    }
    var text := StrNCpy(s.value, len);  // and buffer[len] = '\0'
    StrNCpyPrefix(s.value, len);
    if DistinctBuffers(head.elems) && BuffersIn(head.elems, live) {
      FreshBuffer(head.elems, Element(node.value, Value(buffer.value, text)), live + {node.value}, heap.live);
    }
    ListAddTail(Element(node.value, Value(buffer.value, text)), head);
    ok := true;
  }

  function Last(s: seq<Element>): (e: Element)
    requires s != []
  {
    s[|s| - 1]
  }

  /**
   * q_remove_head: NULL on a NULL or empty queue. Otherwise the first node
   * is unlinked and returned; when sp is given, sp[0..bufsize-1) receives
   * its value as strncpy writes it and sp[bufsize-1] a NUL.
   */
  method RemoveHead(head: ListHead?, sp: array?<char>, bufsize: nat) returns (r: Option<Element>)
    requires head != null && head.elems != [] && sp != null ==> 0 < bufsize <= sp.Length
    modifies head, sp
    ensures head == null || old(head.elems) == [] ==> r == None
    ensures head != null && old(head.elems) == [] ==> head.elems == []
    ensures (head == null || old(head.elems) == []) && sp != null ==> sp[..] == old(sp[..])
    ensures head != null && old(head.elems) != [] ==>
              r == Some(old(head.elems)[0]) && head.elems == old(head.elems)[1..]
    ensures head != null && old(head.elems) != [] && sp != null ==>
              sp[..bufsize] == StrNCpy(old(head.elems)[0].value.text, bufsize - 1) + ['\0'] &&
              sp[bufsize..] == old(sp[bufsize..])
  {
    if head == null || |head.elems| == 0 {
      return None;
    }
    var node := head.elems[0];
    if sp != null {
      CopyOut(sp, node.value.text, bufsize);
    }
    ListDel(head, 0);
    r := Some(node);
  }

  /**
   * q_remove_tail: as RemoveHead for the last node, except that nothing is
   * copied when bufsize is 0.
   */
  method RemoveTail(head: ListHead?, sp: array?<char>, bufsize: nat) returns (r: Option<Element>)
    requires head != null && head.elems != [] && sp != null && bufsize > 0 ==> bufsize <= sp.Length
    modifies head, sp
    ensures head == null || old(head.elems) == [] ==> r == None
    ensures head != null && old(head.elems) == [] ==> head.elems == []
    ensures (head == null || old(head.elems) == [] || bufsize == 0) && sp != null ==> sp[..] == old(sp[..])
    ensures head != null && old(head.elems) != [] ==>
              r == Some(Last(old(head.elems))) && head.elems == old(head.elems)[..|old(head.elems)| - 1]
    ensures head != null && old(head.elems) != [] && sp != null && bufsize > 0 ==>
              sp[..bufsize] == StrNCpy(Last(old(head.elems)).value.text, bufsize - 1) + ['\0'] &&
              sp[bufsize..] == old(sp[bufsize..])
  {
    if head == null || |head.elems| == 0 {
      return None;
    }
    var node := head.elems[|head.elems| - 1];
    if sp != null && bufsize > 0 {
      CopyOut(sp, node.value.text, bufsize);
    }
    ListDel(head, |head.elems| - 1);
    r := Some(node);
  }

  /** strncpy(sp, text, bufsize - 1); sp[bufsize - 1] = 0; */
  method CopyOut(sp: array<char>, text: string, bufsize: nat)
    requires 0 < bufsize <= sp.Length
    modifies sp
    ensures sp[..bufsize] == StrNCpy(text, bufsize - 1) + ['\0']
    ensures sp[bufsize..] == old(sp[bufsize..])
  {
    var copy := StrNCpy(text, bufsize - 1);
    forall i | 0 <= i < bufsize - 1 {
      sp[i] := copy[i];
    }
    sp[bufsize - 1] := '\0';
    assert sp[..bufsize] == copy + ['\0'];
  }

  /** q_size: 0 for NULL, otherwise the number of nodes found walking the ring. */
  method Size(head: ListHead?) returns (count: int)
    ensures head == null ==> count == 0
    ensures head != null ==> count == |head.elems|
  {
    if head == null {
      return 0;
    }
    count := 0;
    var node := 0;
    while node != |head.elems|
      invariant 0 <= node <= |head.elems|
      invariant count == node
    {
      count := count + 1;
      node := node + 1;
    }
  }

  /**
   * q_delete_mid: slow steps one node and fast two until fast reaches the
   * sentinel or the node before it; slow is then the node at position n/2,
   * which is unlinked and freed. On an empty ring slow would be the sentinel
   * itself, so the queue must not be empty.
   */
  method DeleteMid(head: ListHead?) returns (ok: bool)
    requires head != null ==> head.elems != []
    modifies head
    ensures ok == (head != null)
    ensures head != null ==>
              var s := old(head.elems);
              head.elems == s[..|s| / 2] + s[|s| / 2 + 1..]
  {
    if head == null {
      return false;
    }
    var n := |head.elems|;  // the sentinel's position
    var slow, fast := 0, 0;
    while fast + 1 != n && fast != n
      invariant fast == 2 * slow <= n
      decreases n - fast
    {
      slow := slow + 1;
      fast := fast + 2;
    }
    ListDel(head, slow);
    ok := true;
  }

  /**
   * The inner walk of q_delete_dup for the node at `pos`: look through the
   * whole ring for another node holding the same value pointer; on the
   * first one found, unlink the node at `pos` and stop.
   */
  method UnlinkIfShared(head: ListHead, pos: int) returns (found: bool)
    requires 0 <= pos < |head.elems|
    modifies head
    ensures var ring := old(head.elems);
            found == exists u :: 0 <= u < |ring| && u != pos && ring[u].value.buffer == ring[pos].value.buffer
    ensures found ==> head.elems == old(head.elems[..pos]) + old(head.elems[pos + 1..])
    ensures !found ==> head.elems == old(head.elems)
  {
    var entry := head.elems[pos];
    ghost var ring := head.elems;
    found := false;
    var t := 0;
    while t != |head.elems|
      invariant 0 <= t <= |head.elems|
      invariant head.elems == ring && !found
      invariant forall u :: 0 <= u < t && u != pos ==> ring[u].value.buffer != entry.value.buffer
    {
      if t != pos && head.elems[t].value.buffer == entry.value.buffer {
        ListDel(head, pos);
        found := true;
        break;
      }
      t := t + 1;
    }
  }

  /**
   * q_delete_dup: for each node in turn, walk the whole current ring for a
   * different node whose value is the same pointer; if there is one, unlink
   * (and free) the node being visited. A NULL queue gives false.
   */
  method DeleteDup(head: ListHead?) returns (ok: bool)
    modifies head
    ensures ok == (head != null)
    ensures head != null ==> head.elems == Dedup(old(head.elems))
  {
    if head == null {
      return false;
    }
    ghost var s := head.elems;
    ghost var kept: seq<Element> := [];  // the nodes visited and left in place
    ghost var rest := s;                 // the nodes not yet visited
    assert s == kept + rest;
    var pos := 0;  // where the node being visited sits now
    while pos != |head.elems|
      invariant head.elems == kept + rest && pos == |kept|
      invariant Dedup(s) == kept + Dedup(rest)
      invariant Apart(kept, rest)
      decreases |rest|
    {
      UnlinkFirst(kept, rest);
      DedupVisit(kept, rest);
      var found := UnlinkIfShared(head, pos);
      if found {
        rest := rest[1..];
      } else {
        pos := pos + 1;
        kept, rest := kept + [rest[0]], rest[1..];
      }
    }
    assert rest == [] && kept + [] == kept;
    ok := true;
  }

  /**
   * q_swap: for each node `first` with a successor `second`,
   * list_move(second, first) unlinks second and links it straight back after
   * first, where it already was; the walk then goes on from second.
   */
  method Swap(head: ListHead?)
    modifies head
    ensures head != null ==> head.elems == old(head.elems)
  {
    if head == null || |head.elems| == 0 {
      return;
    }
    var first, second := 0, 1;
    while first != |head.elems|
      invariant head.elems == old(head.elems)
      invariant 0 <= first < |head.elems| && second == first + 1
      decreases |head.elems| - first
    {
      if first == |head.elems| || second == |head.elems| {
        break;
      }
      ListMove(head, second, first);
      assert head.elems == old(head.elems);
      first := second;
      second := first + 1;
    }
  }

  /**
   * Two distinct nodes are the smallest input on which Swap falls short of
   * swapping adjacent pairs: it leaves them in their order.
   */
  lemma SwapMissesPair(x: Element, y: Element)
    requires x != y
    ensures ReverseGroups([x, y], 2) != [x, y]
  {
    assert [x, y][..2] == [x, y] && [x, y][2..] == [];
    PairReversed(x, y);
  }

  /**
   * list_move(first, second) on the pair at position `first`, with `before`
   * ahead of it and `after` behind it: the two trade places.
   */
  method SwapPair(head: ListHead, first: int,
                  ghost before: seq<Element>, ghost pair: seq<Element>, ghost after: seq<Element>)
    requires head.elems == before + pair + after && |before| == first && |pair| == 2
    modifies head
    ensures head.elems == before + Reversed(pair) + after
  {
    PairReversed(pair[0], pair[1]);
    assert pair == [pair[0], pair[1]];
    assert head.elems[first] == pair[0] && head.elems[first + 1] == pair[1];
    ghost var rest := before + [pair[1]] + after;
    assert head.elems[..first] + head.elems[first + 1..] == rest;
    assert rest[..first + 1] == before + [pair[1]] && rest[first + 1..] == after;
    ListMove(head, first, first + 1);
  }

  /**
   * q_swap as its comment describes it: list_move(first, second) links
   * `first` after `second`, so each adjacent pair trades places and a last
   * odd node stays. The walk must then step past the pair (`second =
   * first->next;` after the move, so the next `first` is the node after the
   * pair): with list_move(first, second) alone, the safe walk would revisit
   * the pair in swapped order and swap it back, forever. Here `first`
   * advances by two.
   */
  method SwapPairs(head: ListHead?)
    modifies head
    ensures head != null ==> head.elems == ReverseGroups(old(head.elems), 2)
  {
    if head == null {
      return;
    }
    ghost var s := head.elems;
    ghost var done: seq<Element> := [];  // the pairs already swapped
    ghost var rest := s;                 // the nodes from `first` on, as they were
    var first := 0;
    while first + 1 < |head.elems|
      invariant 0 <= first <= |head.elems|
      invariant |done| == first && head.elems == done + rest
      invariant ReverseGroups(s, 2) == done + ReverseGroups(rest, 2)
      decreases |head.elems| - first
    {
      ReverseGroupsFirst(rest, 2);
      SwapPair(head, first, done, rest[..2], rest[2..]);
      done, rest := done + Reversed(rest[..2]), rest[2..];
      first := first + 2;
    }
    ReverseGroupsDegenerate(rest, 2);
  }

  /**
   * q_reverse: each node in turn gets next := prev and prev := its old next;
   * once the sentinel's own links are swapped the ring reads backwards.
   */
  method Reverse(head: ListHead?)
    modifies head
    ensures head != null ==> head.elems == Reversed(old(head.elems))
  {
    if head == null || |head.elems| == 0 {
      return;
    }
    ghost var s := head.elems;
    var flipped := [];  // the nodes whose links are already swapped, as the new ring will read them
    var node := 0;
    while node != |head.elems|
      invariant head.elems == s
      invariant 0 <= node <= |s|
      invariant flipped == Reversed(s[..node])
    {
      ReversedAppend(s[..node], [s[node]]);
      assert s[..node + 1] == s[..node] + [s[node]];
      assert Reversed([s[node]]) == [s[node]];
      flipped := [head.elems[node]] + flipped;
      node := node + 1;
    }
    assert s[..node] == s;
    head.elems := flipped;
  }

  /**
   * One group of q_reverseK: the ring reads `before`, then `group` (the
   * nodes after `begin` up to `curr`), then `after`. The group is cut out,
   * reversed and spliced back after `begin`.
   */
  method ReverseRun(head: ListHead, temp: ListHead, begin: int, curr: int,
                    ghost before: seq<Element>, ghost group: seq<Element>, ghost after: seq<Element>)
    requires temp != head && temp.elems == []
    requires head.elems == before + group + after
    requires |before| == begin + 1 && |group| == curr - begin && 0 <= begin + 1 <= curr
    modifies head, temp
    ensures temp.elems == []
    ensures head.elems == before + Reversed(group) + after
  {
    assert head.elems[begin + 1..curr + 1] == group;
    assert head.elems[..begin + 1] == before && head.elems[curr + 1..] == after;
    ListCutPosition(temp, head, begin, curr);
    Reverse(temp);
    ListSpliceInit(temp, head, begin);
  }

  /**
   * q_reverseK: count nodes; whenever the count reaches k, cut the run after
   * `begin` up to the current node into a local list, reverse it, splice it
   * back after `begin`, and make its new last node the next `begin`.
   */
  method ReverseK(head: ListHead?, k: int)
    modifies head
    ensures head != null ==> head.elems == ReverseGroups(old(head.elems), k)
  {
    if head == null || |head.elems| == 0 {
      return;
    }
    ghost var s := head.elems;
    ghost var done: seq<Element> := [];  // the nodes up to `begin`, their groups already reversed
    ghost var rest := s;                 // the nodes after `begin`, as they were
    var temp := new ListHead();
    var begin := -1;
    var count := 0;
    var curr := 0;
    while curr != |head.elems|
      invariant temp != head && temp.elems == []
      invariant -1 <= begin < curr <= |head.elems|
      invariant |done| == begin + 1 && head.elems == done + rest
      invariant count == curr - begin - 1
      invariant k >= 1 ==> count < k
      invariant ReverseGroups(s, k) == done + ReverseGroups(rest, k)
      decreases |head.elems| - curr
    {
      count := count + 1;
      if k == count {
        ReverseGroupsFirst(rest, k);
        ghost var group, after := rest[..k], rest[k..];
        ReverseRun(head, temp, begin, curr, done, group, after);
        done, rest := done + Reversed(group), after;
        count := 0;
        begin := curr;  // safe->prev: the group's old first node, now its last
      }
      curr := curr + 1;
    }
    ReverseGroupsDegenerate(rest, k);
  }

  /**
   * mergeTwoLists: Lnode starts at L1->next, so the loop guard
   * `Lnode != L1->next` is false on entry and the comparison loop never runs.
   * What remains appends L2's nodes to L1 (when L2 is not empty) without
   * reinitialising L2.
   */
  method MergeTwoLists(l1: ListHead?, l2: ListHead?)
    requires l1 != null && l2 != null ==> l1 != l2
    modifies l1
    ensures l1 != null && l2 != null ==> l1.elems == old(l1.elems) + l2.elems
    ensures l1 != null && l2 == null ==> l1.elems == old(l1.elems)
  {
    if l1 == null || l2 == null {
      return;
    }
    var n := Size(l2);
    if n != 0 {
      ListSpliceTail(l2, l1);
    }
  }

  /**
   * q_sort: find the middle with slow/fast steps, cut the nodes before it
   * into a local list `right`, sort the rest in place, sort `right`, and
   * append `right` after the rest. `descend` is never read. Since the merge
   * only appends, the ring ends up reversed.
   */
  method Sort(head: ListHead?, descend: bool)
    modifies head
    ensures head != null ==> head.elems == Reversed(old(head.elems))
    decreases if head == null then 0 else |head.elems|
  {
    if head == null || |head.elems| == 0 || |head.elems| == 1 {
      if head != null && |head.elems| == 1 {
        ReversedSingleton(head.elems);
      }
      return;
    }
    ghost var s := head.elems;
    var n := |head.elems|;  // the sentinel's position
    var slow, fast := 0, 0;
    while fast != n && fast + 1 != n
      invariant fast == 2 * slow <= n
      decreases n - fast
    {
      slow := slow + 1;
      fast := fast + 2;
    }
    var mid := slow;
    var right := new ListHead();
    ListCutPosition(right, head, -1, mid - 1);
    assert right.elems == s[..mid] && head.elems == s[mid..];
    Sort(head, true);
    Sort(right, true);
    MergeTwoLists(head, right);
    ReversedSplit(s, mid);
  }

  /**
   * q_ascend: walk the ring keeping each node's original successor; unlink
   * the node when the successor's value pointer is greater. At the last node
   * the successor is the sentinel read as an element, whose value is
   * undefined: `sentinelGreater` is the outcome of that comparison. Returns
   * the size of what is left.
   */
  method Ascend(head: ListHead?) returns (r: int)
    modifies head
    ensures head == null ==> r == 0
    ensures head != null ==>
              (head.elems == Ascended(old(head.elems), false) ||
               head.elems == Ascended(old(head.elems), true)) &&
              r == |head.elems|
  {
    if head == null || |head.elems| == 0 {
      if head != null {
        assert Ascended(head.elems, false) == [];
      }
      return 0;
    }
    var sentinelGreater: bool :| true;
    ghost var s := head.elems;
    ghost var kept: seq<Element> := [];  // the nodes visited and left in place
    ghost var rest := s;                 // the nodes not yet visited
    assert s == kept + rest;
    var pos := 0;  // where `first` sits now
    while pos != |head.elems|
      invariant head.elems == kept + rest && pos == |kept|
      invariant Ascended(s, sentinelGreater) == kept + Ascended(rest, sentinelGreater)
      decreases |rest|
    {
      UnlinkFirst(kept, rest);
      AscendVisit(kept, rest, sentinelGreater);
      var greater := if pos + 1 < |head.elems|
                  then head.elems[pos + 1].value.buffer > head.elems[pos].value.buffer
                  else sentinelGreater;
      if greater {
        ListDel(head, pos);
        rest := rest[1..];
      } else {
        pos := pos + 1;
        kept, rest := kept + [rest[0]], rest[1..];
      }
    }
    assert rest == [] && kept + [] == kept;
    r := Size(head);
  }

  /** q_descend: as Ascend, unlinking when the successor's pointer is smaller. */
  method Descend(head: ListHead?) returns (r: int)
    modifies head
    ensures head == null ==> r == 0
    ensures head != null ==>
              (head.elems == Descended(old(head.elems), false) ||
               head.elems == Descended(old(head.elems), true)) &&
              r == |head.elems|
  {
    if head == null || |head.elems| == 0 {
      if head != null {
        assert Descended(head.elems, false) == [];
      }
      return 0;
    }
    var sentinelLess: bool :| true;
    ghost var s := head.elems;
    ghost var kept: seq<Element> := [];  // the nodes visited and left in place
    ghost var rest := s;                 // the nodes not yet visited
    assert s == kept + rest;
    var pos := 0;  // where `first` sits now
    while pos != |head.elems|
      invariant head.elems == kept + rest && pos == |kept|
      invariant Descended(s, sentinelLess) == kept + Descended(rest, sentinelLess)
      decreases |rest|
    {
      UnlinkFirst(kept, rest);
      DescendVisit(kept, rest, sentinelLess);
      var less := if pos + 1 < |head.elems|
                  then head.elems[pos + 1].value.buffer < head.elems[pos].value.buffer
                  else sentinelLess;
      if less {
        ListDel(head, pos);
        rest := rest[1..];
      } else {
        pos := pos + 1;
        kept, rest := kept + [rest[0]], rest[1..];
      }
    }
    assert rest == [] && kept + [] == kept;
    r := Size(head);
  }

  /**
   * queue_contex_t: one queue of the chain q_merge works on, with its
   * recorded size. The queue pointer may be NULL.
   */
  class Context {
    const q: ListHead?
    var size: int

    constructor(q: ListHead?, size: int)
      ensures this.q == q && this.size == size
    {
      this.q := q;
      this.size := size;
    }
  }

  /** The chain of contexts, in the order the chain's ring lists them. */
  class Chain {
    const contexts: seq<Context>

    constructor(contexts: seq<Context>)
      ensures this.contexts == contexts
    {
      this.contexts := contexts;
    }
  }

  /** The queues' contents, context by context; a NULL queue reads as empty. */
  ghost function Contents(cs: seq<Context>): (r: seq<seq<Element>>)
    reads set i | 0 <= i < |cs| :: cs[i].q
    ensures |r| == |cs|
    ensures forall i :: 0 <= i < |cs| ==> r[i] == if cs[i].q == null then [] else cs[i].q.elems
  {
    seq(|cs|, i requires 0 <= i < |cs| reads set j | 0 <= j < |cs| :: cs[j].q =>
      if cs[i].q == null then [] else cs[i].q.elems)
  }

  /** Every context after the first holds a queue, and no two contexts hold the same one. */
  ghost predicate QueuesHeld(cs: seq<Context>)
  {
    (forall i :: 1 <= i < |cs| ==> cs[i].q != null) &&
    (forall i, j :: 0 <= i < j < |cs| ==> cs[i].q != cs[j].q)
  }

  /** The contexts after the first, up to (not including) `curr`, hold empty queues and size 0. */
  ghost predicate Emptied(cs: seq<Context>, curr: int)
    reads set i | 0 <= i < |cs| :: cs[i], set i | 0 <= i < |cs| :: cs[i].q
  {
    forall i :: 1 <= i < curr && i < |cs| ==> cs[i].q != null && cs[i].q.elems == [] && cs[i].size == 0
  }

  /** The queues from `curr` on still hold what `before` records for them. */
  ghost predicate Untouched(cs: seq<Context>, before: seq<seq<Element>>, curr: int)
    requires |before| == |cs|
    reads set i | 0 <= i < |cs| :: cs[i].q
  {
    forall i :: 0 <= curr <= i < |cs| && cs[i].q != null ==> cs[i].q.elems == before[i]
  }

  /**
   * One iteration of q_merge: mergeTwoLists(first, queue), INIT_LIST_HEAD
   * on queue's list, and its size set to 0. A NULL first queue takes
   * nothing in.
   */
  method MergeStep(cs: seq<Context>, curr: int, ghost before: seq<seq<Element>>)
    requires 1 <= curr < |cs| && |before| == |cs| && QueuesHeld(cs)
    requires cs[0].q != null ==> cs[0].q.elems == Concat(before[..curr])
    requires Emptied(cs, curr) && Untouched(cs, before, curr)
    modifies cs[0].q, cs[curr].q, cs[curr]
    ensures cs[0].q != null ==> cs[0].q.elems == Concat(before[..curr + 1])
    ensures Emptied(cs, curr + 1) && Untouched(cs, before, curr + 1)
    ensures cs[0].size == old(cs[0].size)
  {
    assert before[..curr + 1][..curr] == before[..curr];
    assert Concat(before[..curr + 1]) == Concat(before[..curr]) + before[curr];
    var queue := cs[curr];
    MergeTwoLists(cs[0].q, queue.q);
    InitListHead(queue.q);
    queue.size := 0;
  }

  /**
   * q_merge: merge every later queue into the first one's with
   * mergeTwoLists, then empty the later queue and zero its size. The chain's
   * first context is read without checking that the chain has one, and a
   * later context's queue is re-initialised without a NULL check. When the
   * first queue is NULL, mergeTwoLists does nothing, so the later queues'
   * nodes are dropped. What is returned is the first context's recorded
   * size, which nothing updates.
   */
  method Merge(chain: Chain?, descend: bool) returns (r: int)
    requires chain != null ==> |chain.contexts| >= 1 && QueuesHeld(chain.contexts)
    modifies if chain == null then {} else set i | 0 <= i < |chain.contexts| :: chain.contexts[i]
    modifies if chain == null then {} else set i | 0 <= i < |chain.contexts| :: chain.contexts[i].q
    ensures chain == null ==> r == 0
    ensures chain != null ==>
              var cs := chain.contexts;
              (cs[0].q != null ==> cs[0].q.elems == Concat(old(Contents(cs)))) &&
              cs[0].size == old(cs[0].size) && r == cs[0].size &&
              forall i :: 1 <= i < |cs| ==> cs[i].q != null && cs[i].q.elems == [] && cs[i].size == 0
  {
    if chain == null {
      return 0;
    }
    var cs := chain.contexts;
    ghost var before := Contents(cs);
    var first := cs[0];
    ghost var size0 := first.size;
    var curr := 1;
    assert before[..1] == [before[0]];
    assert Concat(before[..1]) == Concat([]) + before[0];
    while curr != |cs|
      invariant 1 <= curr <= |cs|
      invariant first.q != null ==> first.q.elems == Concat(before[..curr])
      invariant first.size == size0
      invariant Emptied(cs, curr) && Untouched(cs, before, curr)
      decreases |cs| - curr
    {
      MergeStep(cs, curr, before);
      curr := curr + 1;
    }
    assert before[..curr] == before;
    r := first.size;
  }
}
