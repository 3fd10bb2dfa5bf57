/**
 * Reference definitions of what the three filtering passes of the queue
 * (duplicate deletion, ascend, descend) leave in the ring, and what they
 * unlink. All three compare `char *` pointers, i.e. value buffer addresses.
 */
module Filters {

  import opened Elements
  import opened Sequences

  /** Some element after position i holds the same value buffer. */
  predicate LaterDup(s: seq<Element>, i: int)
    requires 0 <= i < |s|
  {
    exists j :: i < j < |s| && s[j].value.buffer == s[i].value.buffer
  }

  /** Which positions duplicate deletion keeps. */
  function DedupMask(s: seq<Element>): (m: seq<bool>)
    ensures |m| == |s|
  {
    seq(|s|, i requires 0 <= i < |s| => !LaterDup(s, i))
  }

  /** The ring after duplicate deletion. */
  function Dedup(s: seq<Element>): (r: seq<Element>)
  {
    Select(s, DedupMask(s))
  }

  lemma LaterDupTail(s: seq<Element>, i: int)
    requires 0 <= i < |s| - 1
    ensures LaterDup(s, i + 1) <==> LaterDup(s[1..], i)
  {
    if LaterDup(s, i + 1) {
      var j :| i + 1 < j < |s| && s[j].value.buffer == s[i + 1].value.buffer;
      assert s[1..][j - 1] == s[j];
    }
    if LaterDup(s[1..], i) {
      var j :| i < j < |s| - 1 && s[1..][j].value.buffer == s[1..][i].value.buffer;
      assert s[j + 1] == s[1..][j];
    }
  }

  /** Duplicate deletion decides the first element, then works on the rest. */
  lemma DedupUnfold(s: seq<Element>)
    requires s != []
    ensures Dedup(s) == (if LaterDup(s, 0) then [] else [s[0]]) + Dedup(s[1..])
  {
    forall i | 0 <= i < |s| - 1
      ensures DedupMask(s)[1..][i] == DedupMask(s[1..])[i]
    {
      LaterDupTail(s, i);
    }
    assert DedupMask(s)[1..] == DedupMask(s[1..]);
  }

  /** An element survives exactly when it is the last holder of its buffer. */
  lemma DedupKeepsLast(s: seq<Element>, i: int)
    requires DistinctNodes(s)
    requires 0 <= i < |s|
    ensures s[i] in Dedup(s) <==> !LaterDup(s, i)
  {
    SelectMember(s, DedupMask(s), s[i]);
  }

  /** After duplicate deletion no two survivors share a buffer. */
  lemma {:induction false} DedupDistinct(s: seq<Element>)
    ensures DistinctBuffers(Dedup(s))
  {
    if s != [] {
      DedupUnfold(s);
      DedupDistinct(s[1..]);
      var rest := Dedup(s[1..]);
      if !LaterDup(s, 0) {
        forall y | y in rest
          ensures y.value.buffer != s[0].value.buffer
        {
          SelectMember(s[1..], DedupMask(s[1..]), y);
          var i :| 0 <= i < |s[1..]| && DedupMask(s[1..])[i] && s[1..][i] == y;
          assert s[i + 1] == y;
        }
        var r := [s[0]] + rest;
        forall a, b | 0 <= a < b < |r|
          ensures r[a].value.buffer != r[b].value.buffer
        {
          if a == 0 {
            assert r[b] == rest[b - 1];
          } else {
            assert r[a] == rest[a - 1] && r[b] == rest[b - 1];
          }
        }
      }
    }
  }

  /** A ring whose buffers are all distinct loses nothing. */
  lemma DedupOfDistinct(s: seq<Element>)
    requires DistinctBuffers(s)
    ensures Dedup(s) == s
  {
    SelectAll(s, DedupMask(s));
  }

  /** No buffer of `kept` is held by any element of `rest`. */
  predicate Apart(kept: seq<Element>, rest: seq<Element>)
  {
    forall u, v :: 0 <= u < |kept| && 0 <= v < |rest| ==> kept[u].value.buffer != rest[v].value.buffer
  }

  /**
   * One visit of the pass, on a ring that reads `kept` (the survivors so
   * far, none sharing a buffer with what follows) and then `rest` (not yet
   * visited). Some OTHER position of the ring holds rest[0]'s buffer exactly
   * when a later one does; then rest[0] goes, otherwise it joins `kept`.
   */
  lemma DedupVisit(kept: seq<Element>, rest: seq<Element>)
    requires rest != [] && Apart(kept, rest)
    ensures var ring := kept + rest;
            (exists u :: 0 <= u < |ring| && u != |kept| && ring[u].value.buffer == rest[0].value.buffer) <==>
            LaterDup(rest, 0)
    ensures LaterDup(rest, 0) ==>
              kept + Dedup(rest) == kept + Dedup(rest[1..]) && Apart(kept, rest[1..])
    ensures !LaterDup(rest, 0) ==>
              kept + Dedup(rest) == (kept + [rest[0]]) + Dedup(rest[1..]) && Apart(kept + [rest[0]], rest[1..])
  {
    var ring := kept + rest;
    DedupUnfold(rest);
    if LaterDup(rest, 0) {
      var j :| 0 < j < |rest| && rest[j].value.buffer == rest[0].value.buffer;
      assert ring[|kept| + j] == rest[j];
    }
    if exists u :: 0 <= u < |ring| && u != |kept| && ring[u].value.buffer == rest[0].value.buffer {
      var u :| 0 <= u < |ring| && u != |kept| && ring[u].value.buffer == rest[0].value.buffer;
      if u > |kept| {
        assert ring[u] == rest[u - |kept|];
      }
    }
    var k' := kept + [rest[0]];
    forall u, v | 0 <= u < |k'| && 0 <= v < |rest[1..]| && !LaterDup(rest, 0)
      ensures k'[u].value.buffer != rest[1..][v].value.buffer
    {
      assert rest[1..][v] == rest[v + 1];
    }
  }

  /**
   * Which positions q_ascend keeps: s[i] is unlinked when the element after
   * it has a greater buffer address. For the last element that comparison
   * reads the sentinel as if it were an element, so its outcome
   * `sentinelGreater` is not determined by the ring.
   */
  function AscendMask(s: seq<Element>, sentinelGreater: bool): (m: seq<bool>)
    ensures |m| == |s|
  {
    seq(|s|, i requires 0 <= i < |s| =>
      !(if i + 1 < |s| then s[i + 1].value.buffer > s[i].value.buffer else sentinelGreater))
  }

  function Ascended(s: seq<Element>, sentinelGreater: bool): (r: seq<Element>)
  {
    Select(s, AscendMask(s, sentinelGreater))
  }

  /**
   * One visit of q_ascend, on a ring that reads `kept` (decided) and then
   * `rest` (not yet visited): rest[0] goes when its successor's buffer
   * address is greater, and otherwise joins `kept`.
   */
  lemma AscendVisit(kept: seq<Element>, rest: seq<Element>, sentinelGreater: bool)
    requires rest != []
    ensures var greater := if 1 < |rest| then rest[1].value.buffer > rest[0].value.buffer else sentinelGreater;
            (greater ==> kept + Ascended(rest, sentinelGreater) == kept + Ascended(rest[1..], sentinelGreater)) &&
            (!greater ==> kept + Ascended(rest, sentinelGreater) == (kept + [rest[0]]) + Ascended(rest[1..], sentinelGreater))
  {
    assert AscendMask(rest, sentinelGreater)[1..] == AscendMask(rest[1..], sentinelGreater);
  }

  /** The same for q_descend, with a smaller buffer address after s[i]. */
  function DescendMask(s: seq<Element>, sentinelLess: bool): (m: seq<bool>)
    ensures |m| == |s|
  {
    seq(|s|, i requires 0 <= i < |s| =>
      !(if i + 1 < |s| then s[i + 1].value.buffer < s[i].value.buffer else sentinelLess))
  }

  function Descended(s: seq<Element>, sentinelLess: bool): (r: seq<Element>)
  {
    Select(s, DescendMask(s, sentinelLess))
  }

  /** One visit of q_descend: as AscendVisit, with a smaller buffer address after rest[0]. */
  lemma DescendVisit(kept: seq<Element>, rest: seq<Element>, sentinelLess: bool)
    requires rest != []
    ensures var less := if 1 < |rest| then rest[1].value.buffer < rest[0].value.buffer else sentinelLess;
            (less ==> kept + Descended(rest, sentinelLess) == kept + Descended(rest[1..], sentinelLess)) &&
            (!less ==> kept + Descended(rest, sentinelLess) == (kept + [rest[0]]) + Descended(rest[1..], sentinelLess))
  {
    assert DescendMask(rest, sentinelLess)[1..] == DescendMask(rest[1..], sentinelLess);
  }

  /**
   * q_ascend unlinks an element other than the last exactly when its
   * original successor's buffer address is greater; survivors keep their
   * order.
   */
  lemma AscendUnlinks(s: seq<Element>, sentinelGreater: bool, i: int)
    requires DistinctNodes(s)
    requires 0 <= i < |s| - 1
    ensures s[i] !in Ascended(s, sentinelGreater) <==> s[i + 1].value.buffer > s[i].value.buffer
  {
    SelectMember(s, AscendMask(s, sentinelGreater), s[i]);
  }

  lemma DescendUnlinks(s: seq<Element>, sentinelLess: bool, i: int)
    requires DistinctNodes(s)
    requires 0 <= i < |s| - 1
    ensures s[i] !in Descended(s, sentinelLess) <==> s[i + 1].value.buffer < s[i].value.buffer
  {
    SelectMember(s, DescendMask(s, sentinelLess), s[i]);
  }
}
