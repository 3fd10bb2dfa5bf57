# A verified model of lab0-c's queue

`queue.c` implements a queue of C strings on top of the Linux kernel's
circular doubly-linked list: a queue is a sentinel `struct list_head`, and
every element is an `element_t` that holds a list node and a `char *value`
pointing at its own heap copy of the string. The file offers creation,
insertion and removal at both ends, a size count, and structural operations:
delete the middle node, delete nodes with duplicate values, swap adjacent
pairs, reverse, reverse in groups of k, sort, the "ascend" and "descend"
filters, and merging a chain of queues into the first queue.

This project models each of those operations as it is written. It then
proves what each one does to the queue, stated against a reference
definition over plain sequences.

- The ring of a queue is `Lists.ListHead.elems`, a sequence read from
  `head->next` round to `head->prev`.
- The list primitives the queue calls (`list_add`, `list_del`, `list_move`,
  `list_cut_position`, `list_splice_init`, `list_splice_tail`,
  `INIT_LIST_HEAD`) are small methods on positions in that sequence.
- An element is `Elements.Element(node, Value(buffer, text))`:
  - `node` is the element's address;
  - `buffer` is the address of its string;
  - `text` is the characters before the string's NUL.
- `malloc` is `Memory.Heap`, which records the set of addresses handed out.
  A call may fail, or it may return any address not in that set; the model
  leaves both choices open. Nothing relates the order of two addresses to
  the order of the calls, so comparing two buffers with `<` or `>`, as
  q_ascend and q_descend do, proves nothing about which was allocated first.
- `strlen` and `strncpy` are `CString.Strlen` and `CString.StrNCpy`.

## The code as written

Several operations do not do what their comments say. The model follows the
code, and proves what the code does:

- `mergeTwoLists` never compares anything. Its loop guard
  `Lnode != L1->next` is false on entry, because `Lnode` starts at
  `L1->next`. All that is left is appending L2 to L1.
  - So `q_sort` does not sort: splitting at the middle, recursing and then
    appending the first half after the second reverses the queue
    (`Queue.Sort`).
  - And `q_merge` concatenates the queues in chain order. It returns the
    first context's recorded `size`, which nothing updates (`Queue.Merge`).
- `q_swap` leaves the queue unchanged. See Findings.
- `q_delete_dup`, `q_ascend` and `q_descend` compare the `char *` pointers
  (buffer addresses), not the strings:
  - `q_delete_dup` removes every node whose value pointer is also held by a
    later node. Every insertion allocates a fresh buffer, so on a queue built
    by insertions nothing is removed: the inserts keep every value buffer
    distinct (`Queue.InsertHead`, `Queue.InsertTail`, via
    `Elements.FreshBuffer`), and `Filters.DedupOfDistinct` then leaves such
    a queue as it is.
  - `q_ascend` and `q_descend` compare each node only with its original
    successor, not with everything to its right. For the last node, that
    successor is the sentinel read as an element; its value is undefined, so
    the model lets that comparison come out either way.

## Model

| member | source | states |
|---|---|---|
| `Memory.Heap.Malloc` | queue.c:44-46 | malloc either fails (None, nothing handed out) or returns an address not handed out before, which is then recorded |
| `CString.Strlen` | queue.c:73 | strlen is the position of the first NUL (or the whole length): no NUL comes before it, and a NUL stands at it |
| `CString.StrNCpy` | queue.c:80 | strncpy writes exactly n characters |
| `CString.StrNCpyPrefix` | queue.c:80-81 | when the source string is at least n long, strncpy writes its first n characters |
| `CString.StrNCpyPads` | queue.c:111 | when the source string is shorter than n, strncpy writes the string and then NULs up to n |
| `CString.ReadBack` | queue.c:95-98 | the buffer filled from a stored value reads back, as a C string, as that value cut to bufsize - 1 characters |
| `Elements.FreshBuffer` | queue.c:49-57 | a value buffer at an address not handed out before is shared with no element, at either end of the queue, and every buffer is then among the addresses handed out |
| `Lists.InitListHead` | queue.c:311 | INIT_LIST_HEAD leaves an empty ring |
| `Lists.ListAdd` | queue.c:58 | list_add puts the node first |
| `Lists.ListAddTail` | queue.c:83 | list_add_tail puts the node last |
| `Lists.ListDel` | queue.c:99 | list_del / list_del_init removes exactly that node; the others keep their order |
| `Lists.ListMove` | queue.c:184 | list_move unlinks a node and relinks it after the anchor |
| `Lists.ListCutPosition` | queue.c:219 | list_cut_position moves the run after the anchor, up to the given node, into the other list |
| `Lists.ListSpliceInit` | queue.c:221 | list_splice_init inserts the whole list after the anchor and empties it |
| `Lists.ListSpliceTail` | queue.c:244 | list_splice_tail appends the list's nodes |
| `Lists.ListHead.constructor` | queue.c:212-214 | a new sentinel (`LIST_HEAD`, or malloc followed by `INIT_LIST_HEAD`) heads an empty ring |
| `Queue.New` | queue.c:15-22 | NULL exactly when malloc fails (no address handed out), otherwise a fresh empty queue (one address handed out) |
| `Queue.InsertHead` | queue.c:40-60 | true exactly when the queue and string are non-NULL and both mallocs succeed; on false the queue is unchanged; on true a new first node with node and buffer addresses not handed out before, holding the string up to its NUL, comes before the old nodes; a queue whose value buffers are distinct and allocated keeps that property |
| `Queue.InsertTail` | queue.c:64-85 | as InsertHead, with the new node last |
| `Queue.RemoveHead` | queue.c:89-101 | NULL on a NULL or empty queue; otherwise the first node is returned and unlinked, and sp receives its value as strncpy writes it plus a NUL, with nothing past bufsize touched |
| `Queue.RemoveTail` | queue.c:104-116 | as RemoveHead for the last node; nothing is copied when bufsize is 0 |
| `Queue.CopyOut` | queue.c:110-113 | sp[0..bufsize-1) gets strncpy's output and sp[bufsize-1] a NUL; the rest of sp is unchanged |
| `Queue.Size` | queue.c:119-128 | 0 for NULL, otherwise the number of nodes in the ring |
| `Queue.DeleteMid` | queue.c:131-148 | the node at position n/2 (0-based) is removed and the others keep their order; false only for NULL |
| `Queue.UnlinkIfShared` | queue.c:163-169 | the visited node is unlinked exactly when some other node holds the same value pointer, and otherwise nothing changes |
| `Queue.DeleteDup` | queue.c:151-172 | the queue becomes Dedup of what it was: the nodes no later node shares a value pointer with, in order; false only for NULL |
| `Filters.DedupUnfold` | queue.c:161-170 | the pass decides the first node, then goes on with the rest |
| `Filters.DedupVisit` | queue.c:161-169 | one visit: another position holds the visited node's pointer exactly when a later one does, and the visit drops or keeps that node accordingly |
| `Filters.DedupKeepsLast` | queue.c:164-167 | a node survives exactly when no later node holds its value pointer |
| `Filters.DedupDistinct` | queue.c:151-172 | after the pass, no two nodes share a value pointer |
| `Filters.DedupOfDistinct` | queue.c:151-172 | a queue whose value pointers are all distinct loses nothing |
| `Queue.Swap` | queue.c:175-186 | as written, the queue is unchanged |
| `Queue.SwapMissesPair` | queue.c:184 | on two distinct nodes, pairwise swapping would exchange them, which Swap does not do |
| `Queue.SwapPair` | queue.c:181-185 | list_move(first, second) exchanges an adjacent pair and leaves everything around it |
| `Queue.SwapPairs` | queue.c:174-186 | the corrected swap (move `first` after `second`, then step past the pair): the queue becomes its adjacent pairs exchanged, with a last odd node staying put |
| `Queue.Reverse` | queue.c:189-202 | the ring reads backwards |
| `Sequences.Reversed` | queue.c:189-202 | a reversal has the same length |
| `Sequences.ReversedPermutes` | queue.c:195-198 | reversal keeps the same nodes |
| `Sequences.ReversedAt` | queue.c:196-197 | position i of the reversal holds the node i places from the end |
| `Sequences.ReversedAppend` | queue.c:258-262 | reversing a + b gives reversed b then reversed a |
| `Sequences.ReversedSplit` | queue.c:256-262 | reversing the queue is reversing the part from the middle on, followed by reversing the part before it |
| `Sequences.ReversedSingleton` | queue.c:250-251 | a one-node queue reads the same backwards, so q_sort may return it as it is |
| `Sequences.ReversedTwice` | queue.c:199-200 | reversing twice gives back the queue |
| `Queue.ReverseRun` | queue.c:219-221 | one group: cut out, reversed and spliced back, with the nodes before and after it unchanged |
| `Queue.ReverseK` | queue.c:204-227 | the queue becomes ReverseGroups(queue, k): each full group of k reversed in place, the short tail and any k < 1 leaving it as it was |
| `Sequences.ReverseGroups` | queue.c:216-225 | group reversal keeps the length |
| `Sequences.ReverseGroupsPermutes` | queue.c:216-225 | group reversal keeps the same nodes |
| `Sequences.ReverseGroupsDegenerate` | queue.c:217-218 | with k <= 1, or fewer than k nodes, nothing moves |
| `Sequences.ReverseGroupsTwice` | queue.c:204-227 | reversing the same groups twice gives back the queue |
| `Sequences.GroupStartIsProduct` | queue.c:222 | group g starts at position g * k |
| `Sequences.ReverseGroupsAt` | queue.c:219-221 | the g-th full group comes out reversed, at its own place |
| `Sequences.ReverseGroupsTail` | queue.c:216-225 | the nodes after the last full group stay where they were |
| `Sequences.ReverseGroupsFirst` | queue.c:218-223 | the first full group comes out reversed, followed by the groups of the rest, also behind any prefix already done |
| `Sequences.ReverseGroupsOfTwo` | queue.c:204-227 | groups of two over 1..5 give 2 1 4 3 5 |
| `Queue.MergeTwoLists` | queue.c:229-246 | L1 becomes L1 followed by L2 (and is unchanged when L2 is NULL); L2's own record is not updated |
| `Queue.Sort` | queue.c:248-263 | as written, the queue ends up reversed |
| `Queue.Ascend` | queue.c:269-281 | the queue becomes Ascended(queue, g) for one of the two outcomes g of the final comparison against the sentinel, and the result is its size; 0 for NULL |
| `Filters.AscendVisit` | queue.c:276-279 | one visit drops the node when its successor's pointer is greater and keeps it otherwise |
| `Filters.AscendUnlinks` | queue.c:277-278 | a node other than the last is removed exactly when its original successor's value pointer is greater |
| `Queue.Descend` | queue.c:286-298 | as Ascend, with a smaller successor pointer |
| `Filters.DescendVisit` | queue.c:293-296 | one visit drops the node when its successor's pointer is smaller and keeps it otherwise |
| `Filters.DescendUnlinks` | queue.c:294-295 | a node other than the last is removed exactly when its original successor's value pointer is smaller |
| `Sequences.SelectSubMultiset` | queue.c:276-279 | a filtering pass only removes nodes |
| `Sequences.SelectMember` | queue.c:163-169 | a node survives a filter exactly when it stands at a kept position |
| `Sequences.SelectAll` | queue.c:161-170 | a filter that keeps every position changes nothing |
| `Queue.Context.constructor` | queue.c:306 | a queue context holds its queue, which may be NULL, and its recorded size |
| `Queue.Chain.constructor` | queue.c:307-308 | the chain lists its contexts in ring order |
| `Queue.MergeStep` | queue.c:309-312 | one step appends the next queue to the first (nothing when the first is NULL), then empties it and zeroes its size |
| `Queue.Merge` | queue.c:302-315 | the first queue, when it is not NULL, becomes the concatenation of all the queues in chain order; the others are empty with size 0 in either case, and the result is the first context's size as it was; 0 for a NULL chain |
| `Sequences.ConcatAppend` | queue.c:307-313 | concatenating a list of queues split in two is concatenating each part |
| `Sequences.ConcatContains` | queue.c:310 | each queue appears whole, and in chain order, in the concatenation |

## Left out

- q_free is not modelled, and neither is any other freeing (`free(new_node)`, `q_release_element`, `free(entry)` in q_delete_dup). Memory is only observed through the addresses malloc hands out. An address is never handed out twice, so reuse of freed memory is not modelled.
- The `malloc` at queue.c:158 in q_delete_dup is not modelled: its result is overwritten at once and never freed, so it only leaks.
- list.h is not part of this model. Its primitives are modelled by what they do to the ring's order, not link by link; q_reverse's per-node `next`/`prev` swaps become one sequence reversal.
- The strcmp loop in mergeTwoLists (queue.c:234-241) never runs, so it is not modelled, and string ordering does not appear anywhere.
- q_sort and q_merge ignore their `descend` flag. The models take it and do not read it either.
- Queue.Size: returns an unbounded integer; the overflow of the C `int` counter on a queue of more than INT_MAX nodes is not modelled.
- Queue.DeleteMid: requires a non-empty queue. On an empty queue the code unlinks and frees the sentinel (`head->next` is never NULL), which is undefined behaviour.
- Queue.RemoveHead: requires 0 < bufsize <= the length of sp when sp is given. With bufsize 0 the code writes to sp[SIZE_MAX].
- Queue.Merge: requires a chain with at least one context. On an empty chain the code reads the chain's sentinel as a context.
- Queue.Merge: requires every context after the first to hold a non-NULL queue, since the code calls INIT_LIST_HEAD on it unchecked (queue.c:311). It also requires no queue to appear in two contexts. A NULL first queue is modelled: nothing is merged into it, and the later queues are still emptied.
- Queue.Ascend: states that the queue ends up as one of the two outcomes of the final comparison, which reads the sentinel as an element. It does not say which, since C leaves that undefined.
- Queue.Descend: as Ascend.
- Queue.MergeTwoLists: after list_splice_tail, L2's sentinel still points at nodes that now belong to L1. The model leaves L2's contents as they were, and both callers re-initialise or drop L2.
- Queue.Merge: the chain is fixed. Contexts are not added or removed during the merge, so `Chain.contexts` is immutable.
- Queue.Merge: does not model the `size` fields as counts; the result is whatever the first context recorded.

## Findings

| source | as written | input that shows it | evidently intended | confidence | as-written member | corrected member |
|---|---|---|---|---|---|---|
| queue.c:184 | `list_move(second, first)` relinks `second` right after `first`, where it already was, so q_swap changes nothing | a queue of two distinct nodes [x, y] stays [x, y] | `list_move(first, second)` followed by `second = first->next;`, so the walk steps past the pair: each adjacent pair trades places, giving [y, x] | high; not executed | `Queue.SwapMissesPair` | `Queue.SwapPairs` |
