/**
 * Reference definitions over plain sequences: what the queue's ring should
 * read as after each structural operation.
 */
module Sequences {

  /** s read back to front. */
  function Reversed<T>(s: seq<T>): (r: seq<T>)
    ensures |r| == |s|
  {
    if s == [] then [] else Reversed(s[1..]) + [s[0]]
  }

  /** Reversal only reorders. */
  lemma {:induction false} ReversedPermutes<T>(s: seq<T>)
    ensures multiset(Reversed(s)) == multiset(s)
  {
    if s != [] {
      ReversedPermutes(s[1..]);
      assert s == [s[0]] + s[1..];
    }
  }

  /** Position i of the reversal holds the element i places from the end. */
  lemma {:induction false} ReversedAt<T>(s: seq<T>, i: int)
    requires 0 <= i < |s|
    ensures Reversed(s)[i] == s[|s| - 1 - i]
  {
    if i < |s| - 1 {
      ReversedAt(s[1..], i);
    }
  }

  lemma {:induction false} ReversedAppend<T>(a: seq<T>, b: seq<T>)
    ensures Reversed(a + b) == Reversed(b) + Reversed(a)
  {
    if a == [] {
      assert a + b == b;
    } else {
      assert (a + b)[1..] == a[1..] + b;
      ReversedAppend(a[1..], b);
    }
  }

  /** Reversing s is reversing what follows position mid, then what precedes it. */
  lemma ReversedSplit<T>(s: seq<T>, mid: int)
    requires 0 <= mid <= |s|
    ensures Reversed(s) == Reversed(s[mid..]) + Reversed(s[..mid])
  {
    var front, back := s[..mid], s[mid..];
    assert s == front + back;
    ReversedAppend(front, back);
  }

  /** A single element reads the same backwards. */
  lemma ReversedSingleton<T>(s: seq<T>)
    requires |s| == 1
    ensures Reversed(s) == s
  {
    assert s[1..] == [];
  }

  /** Reversal is an involution. */
  lemma {:induction false} ReversedTwice<T>(s: seq<T>)
    ensures Reversed(Reversed(s)) == s
  {
    if s != [] {
      ReversedAppend(Reversed(s[1..]), [s[0]]);
      ReversedTwice(s[1..]);
      assert Reversed([s[0]]) == [s[0]];
    }
  }

  /**
   * Each consecutive full group of k elements reversed in place, left to
   * right; a trailing group shorter than k, and everything when k < 1, is
   * left as it is.
   */
  function ReverseGroups<T>(s: seq<T>, k: int): (r: seq<T>)
    ensures |r| == |s|
    decreases |s|
  {
    if k < 1 || |s| < k then s else Reversed(s[..k]) + ReverseGroups(s[k..], k)
  }

  /** Group reversal only reorders. */
  lemma {:induction false} ReverseGroupsPermutes<T>(s: seq<T>, k: int)
    ensures multiset(ReverseGroups(s, k)) == multiset(s)
    decreases |s|
  {
    if k >= 1 && |s| >= k {
      ReversedPermutes(s[..k]);
      ReverseGroupsPermutes(s[k..], k);
      assert s == s[..k] + s[k..];
    }
  }

  /** k <= 1, or fewer than k elements: nothing moves. */
  lemma {:induction false} ReverseGroupsDegenerate<T>(s: seq<T>, k: int)
    requires k <= 1 || |s| < k
    ensures ReverseGroups(s, k) == s
    decreases |s|
  {
    if k == 1 && |s| >= 1 {
      ReverseGroupsDegenerate(s[1..], k);
      assert Reversed(s[..1]) == s[..1];
      assert s == s[..1] + s[1..];
    }
  }

  /** Reversing the same groups again restores the original order. */
  lemma {:induction false} ReverseGroupsTwice<T>(s: seq<T>, k: int)
    ensures ReverseGroups(ReverseGroups(s, k), k) == s
    decreases |s|
  {
    if k >= 1 && |s| >= k {
      var front, back := s[..k], s[k..];
      var r := Reversed(front) + ReverseGroups(back, k);
      assert ReverseGroups(s, k) == r;
      assert r[..k] == Reversed(front);
      assert r[k..] == ReverseGroups(back, k);
      assert ReverseGroups(r, k) == Reversed(r[..k]) + ReverseGroups(r[k..], k);
      ReverseGroupsTwice(back, k);
      ReversedTwice(front);
      assert Reversed(r[..k]) == front;
      assert ReverseGroups(r[k..], k) == back;
      assert s == front + back;
    }
  }

  /** Where group g (counting from 0) of size k starts, built up one group at a time. */
  function GroupStart(g: nat, k: nat): (p: nat)
  {
    if g == 0 then 0 else GroupStart(g - 1, k) + k
  }

  /** That is position g * k. */
  lemma {:induction false} GroupStartIsProduct(g: nat, k: nat)
    ensures GroupStart(g, k) == g * k
  {
    if g > 0 {
      GroupStartIsProduct(g - 1, k);
    }
  }

  /** The g-th full group comes out reversed, in its own place. */
  lemma {:induction false} ReverseGroupsAt<T>(s: seq<T>, k: nat, g: nat)
    requires k >= 1 && GroupStart(g, k) + k <= |s|
    ensures var p := GroupStart(g, k);
            ReverseGroups(s, k)[p..p + k] == Reversed(s[p..p + k])
    decreases g
  {
    var p := GroupStart(g, k);
    ReverseGroupsFirst(s, k);
    if g == 0 {
      SliceOfLeft(Reversed(s[..k]), ReverseGroups(s[k..], k));
    } else {
      var q := GroupStart(g - 1, k);
      ReverseGroupsAt(s[k..], k, g - 1);
      SliceOfRight(Reversed(s[..k]), ReverseGroups(s[k..], k), p, k);
      SliceOfSuffix(s, k, q, k);
    }
  }

  /** The slice that is exactly the left operand of an append. */
  lemma SliceOfLeft<T>(x: seq<T>, y: seq<T>)
    ensures (x + y)[0..|x|] == x
  {
  }

  /** A slice lying wholly in the right operand of an append. */
  lemma SliceOfRight<T>(x: seq<T>, y: seq<T>, p: int, k: nat)
    requires |x| <= p && p + k <= |x| + |y|
    ensures (x + y)[p..p + k] == y[p - |x|..p - |x| + k]
  {
  }

  /** A slice of a suffix is a slice of the whole. */
  lemma SliceOfSuffix<T>(s: seq<T>, d: nat, q: nat, k: nat)
    requires d + q + k <= |s|
    ensures s[d..][q..q + k] == s[d + q..d + q + k] && s[0..k] == s[..k]
  {
  }

  /** What follows the last full group, fewer than k elements, stays as it was. */
  lemma {:induction false} ReverseGroupsTail<T>(s: seq<T>, k: nat, g: nat)
    requires k >= 1 && GroupStart(g, k) <= |s| < GroupStart(g, k) + k
    ensures ReverseGroups(s, k)[GroupStart(g, k)..] == s[GroupStart(g, k)..]
    decreases g
  {
    if g > 0 {
      var p := GroupStart(g, k);
      var rest := ReverseGroups(s[k..], k);
      assert ReverseGroups(s, k) == Reversed(s[..k]) + rest;
      ReverseGroupsTail(s[k..], k, g - 1);
      assert s[k..][p - k..] == s[p..];
    }
  }

  /** The first full group, reversed, followed by the groups of what comes after it. */
  lemma ReverseGroupsFirst<T>(s: seq<T>, k: int)
    requires 1 <= k <= |s|
    ensures s == s[..k] + s[k..]
    ensures ReverseGroups(s, k) == Reversed(s[..k]) + ReverseGroups(s[k..], k)
    ensures forall done: seq<T> {:trigger done + ReverseGroups(s, k)} ::
              done + ReverseGroups(s, k) == (done + Reversed(s[..k])) + ReverseGroups(s[k..], k)
  {
  }

  /** The worked case: groups of two over five elements. */
  lemma ReverseGroupsOfTwo()
    ensures ReverseGroups([1, 2, 3, 4, 5], 2) == [2, 1, 4, 3, 5]
  {
    var s := [1, 2, 3, 4, 5];
    var t := s[2..];
    var u := t[2..];
    assert u == [5];
    assert ReverseGroups(u, 2) == u;
    PairReversed(1, 2);
    PairReversed(3, 4);
    assert t[..2] == [3, 4];
    assert ReverseGroups(t, 2) == [4, 3] + u;
    assert s[..2] == [1, 2];
    assert ReverseGroups(s, 2) == [2, 1] + ReverseGroups(t, 2);
  }

  /** Reversing two elements exchanges them. */
  lemma PairReversed<T>(x: T, y: T)
    ensures Reversed([x, y]) == [y, x]
  {
    assert [x, y][1..] == [y];
    assert [y][1..] == [];
  }

  /** The elements s[i] with keep[i], in their original order. */
  function Select<T>(s: seq<T>, keep: seq<bool>): (r: seq<T>)
    requires |keep| == |s|
    ensures |r| <= |s|
  {
    if s == [] then [] else (if keep[0] then [s[0]] else []) + Select(s[1..], keep[1..])
  }

  /** Selecting only drops elements. */
  lemma {:induction false} SelectSubMultiset<T>(s: seq<T>, keep: seq<bool>)
    requires |keep| == |s|
    ensures multiset(Select(s, keep)) <= multiset(s)
  {
    if s != [] {
      SelectSubMultiset(s[1..], keep[1..]);
      assert s == [s[0]] + s[1..];
    }
  }

  /**
   * A ring read as `kept` followed by `rest`, while a pass is at rest[0]:
   * where rest[0] and its successor stand, what unlinking rest[0] leaves,
   * and how moving past it regroups the ring.
   */
  lemma UnlinkFirst<T>(kept: seq<T>, rest: seq<T>)
    requires rest != []
    ensures var ring := kept + rest;
            |ring| == |kept| + |rest| && ring[|kept|] == rest[0] &&
            (1 < |rest| ==> ring[|kept| + 1] == rest[1]) &&
            ring[..|kept|] + ring[|kept| + 1..] == kept + rest[1..] &&
            ring == (kept + [rest[0]]) + rest[1..]
  {
    var ring := kept + rest;
    assert ring[..|kept|] == kept;
    assert ring[|kept| + 1..] == rest[1..];
  }

  /** x survives exactly when it stands at some kept position. */
  lemma {:induction false} SelectMember<T>(s: seq<T>, keep: seq<bool>, x: T)
    requires |keep| == |s|
    ensures x in Select(s, keep) <==> exists i :: 0 <= i < |s| && keep[i] && s[i] == x
  {
    if s != [] {
      SelectMember(s[1..], keep[1..], x);
      if x in Select(s[1..], keep[1..]) {
        var i :| 0 <= i < |s[1..]| && keep[1..][i] && s[1..][i] == x;
        assert keep[i + 1] && s[i + 1] == x;
      }
      if exists i :: 0 <= i < |s| && keep[i] && s[i] == x {
        var i :| 0 <= i < |s| && keep[i] && s[i] == x;
        if i > 0 {
          assert keep[1..][i - 1] && s[1..][i - 1] == x;
        }
      }
    }
  }

  /** Keeping every position keeps the sequence. */
  lemma {:induction false} SelectAll<T>(s: seq<T>, keep: seq<bool>)
    requires |keep| == |s|
    requires forall i :: 0 <= i < |s| ==> keep[i]
    ensures Select(s, keep) == s
  {
    if s != [] {
      SelectAll(s[1..], keep[1..]);
      assert s == [s[0]] + s[1..];
    }
  }

  /** The sequences of ss laid end to end, in order. */
  function Concat<T>(ss: seq<seq<T>>): (r: seq<T>)
  {
    if ss == [] then [] else Concat(ss[..|ss| - 1]) + ss[|ss| - 1]
  }

  /** Concatenation distributes over splitting the list of pieces. */
  lemma {:induction false} ConcatAppend<T>(a: seq<seq<T>>, b: seq<seq<T>>)
    ensures Concat(a + b) == Concat(a) + Concat(b)
    decreases |b|
  {
    if b == [] {
      assert a + b == a;
    } else {
      var b', x := b[..|b| - 1], b[|b| - 1];
      assert a + b == (a + b') + [x];
      assert Concat(a + b) == Concat(a + b') + x;
      ConcatAppend(a, b');
    }
  }

  /** Every piece is found, in order and whole, inside the concatenation. */
  lemma {:induction false} ConcatContains<T>(ss: seq<seq<T>>, i: int)
    requires 0 <= i < |ss|
    ensures var pre := |Concat(ss[..i])|;
            pre + |ss[i]| <= |Concat(ss)| && Concat(ss)[pre..pre + |ss[i]|] == ss[i]
  {
    assert ss == ss[..i] + ([ss[i]] + ss[i + 1..]);
    ConcatAppend(ss[..i], [ss[i]] + ss[i + 1..]);
    ConcatAppend([ss[i]], ss[i + 1..]);
    assert [ss[i]][..0] == [];
    assert Concat([ss[i]]) == Concat([]) + ss[i];
  }
}
