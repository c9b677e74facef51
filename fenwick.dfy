/**
 * A Fenwick (binary indexed) tree over a logical array a[0..N-1): tree[k] holds the
 * sum of the LowBit(k) entries ending at a[k-1]; `update` adds to one entry and
 * `sum` returns a prefix sum, each by walking the lowest set bits of the index.
 */
module FenwickTree {

  /** The lowest set bit of k, the value of `k & -k` for unsigned k >= 1. */
  function LowBit(k: int): (b: int)
    requires k >= 1
    ensures 1 <= b <= k
    decreases k
  {
    if k % 2 == 1 then 1 else 2 * LowBit(k / 2)
  }

  /** Stepping to k + LowBit(k) never raises the lower end of the covered range. */
  lemma {:induction false} LowBitClimb(k: int)
    requires k >= 1
    ensures k + LowBit(k) - LowBit(k + LowBit(k)) <= k - LowBit(k)
    decreases k
  {
    if k % 2 == 1 {
      assert (k + 1) % 2 == 0;
      assert LowBit(k + 1) == 2 * LowBit((k + 1) / 2);
    } else {
      var m := k / 2;
      LowBitClimb(m);
      assert LowBit(k) == 2 * LowBit(m);
      var m' := m + LowBit(m);
      assert k + LowBit(k) == 2 * m';
      assert (2 * m') % 2 == 0 && (2 * m') / 2 == m';
      assert LowBit(2 * m') == 2 * LowBit(m');
    }
  }

  /** Between k and k + LowBit(k), the lowest set bit of k + d is that of d. */
  lemma {:induction false} LowBitBetween(k: int, d: int)
    requires k >= 1 && 0 < d < LowBit(k)
    ensures LowBit(k + d) == LowBit(d)
    decreases k
  {
    if k % 2 == 0 {
      if d % 2 == 1 {
        assert (k + d) % 2 == 1;
      } else {
        LowBitBetween(k / 2, d / 2);
        assert (k + d) / 2 == k / 2 + d / 2;
      }
    }
  }

  /** The sum of s[lo..hi). */
  function RangeSum(s: seq<int>, lo: int, hi: int): int
    requires 0 <= lo <= hi <= |s|
    decreases hi
  {
    if lo == hi then 0 else RangeSum(s, lo, hi - 1) + s[hi - 1]
  }

  /** A range sum is the difference of two prefix sums. */
  lemma {:induction false} RangeSumSplit(s: seq<int>, lo: int, hi: int)
    requires 0 <= lo <= hi <= |s|
    ensures RangeSum(s, lo, hi) == RangeSum(s, 0, hi) - RangeSum(s, 0, lo)
    decreases hi
  {
    if lo < hi {
      RangeSumSplit(s, lo, hi - 1);
    }
  }

  /** Adding v to s[i] adds v to exactly the range sums whose range holds i. */
  lemma {:induction false} RangeSumUpdate(s: seq<int>, i: int, v: int, lo: int, hi: int)
    requires 0 <= i < |s| && 0 <= lo <= hi <= |s|
    ensures RangeSum(s[i := s[i] + v], lo, hi) == RangeSum(s, lo, hi) + (if lo <= i < hi then v else 0)
    decreases hi
  {
    if lo < hi {
      RangeSumUpdate(s, i, v, lo, hi - 1);
    }
  }

  /** After update(i, v), sum(j) grows by v exactly when j > i. */
  lemma PrefixAfterUpdate(s: seq<int>, i: int, v: int, j: int)
    requires 0 <= i < |s| && 0 <= j <= |s|
    ensures RangeSum(s[i := s[i] + v], 0, j) == RangeSum(s, 0, j) + (if j > i then v else 0)
  {
    RangeSumUpdate(s, i, v, 0, j);
  }

  /** Node k of the tree covers a[i]. */
  predicate Covers(k: int, i: int)
    requires k >= 1
  {
    k - LowBit(k) <= i < k
  }

  /** Node k of tree t holds the sum of its range of s. */
  predicate NodeHolds(t: seq<int>, s: seq<int>, k: int)
    requires 1 <= k < |t| && |t| == |s| + 1
  {
    t[k] == RangeSum(s, k - LowBit(k), k)
  }

  /**
   * The state of update's loop when it reaches node idx: the nodes below idx hold the
   * sums of the new array, the others still those of the old one; idx covers a[i].
   */
  ghost predicate UpdateState(t: seq<int>, s0: seq<int>, s1: seq<int>, i: int, idx: int)
  {
    && |t| == |s0| + 1 && |s1| == |s0| && 0 <= i < |s0| && idx > i
    && (idx < |t| ==> Covers(idx, i))
    && forall k :: 1 <= k < |t| ==> t[k] == RangeSum(if k < idx then s1 else s0, k - LowBit(k), k)
  }

  /** The entry state: below i + 1 no node covers a[i], so old and new sums agree. */
  lemma UpdateStart(t: seq<int>, s0: seq<int>, i: int, v: int)
    requires |t| == |s0| + 1 && 0 <= i < |s0|
    requires forall k :: 1 <= k < |t| ==> NodeHolds(t, s0, k)
    ensures UpdateState(t, s0, s0[i := s0[i] + v], i, i + 1)
  {
    forall k | 1 <= k < |t|
      ensures t[k] == RangeSum(if k < i + 1 then s0[i := s0[i] + v] else s0, k - LowBit(k), k)
    {
      assert NodeHolds(t, s0, k);
      RangeSumUpdate(s0, i, v, k - LowBit(k), k);
    }
  }

  /** One pass of update's loop: add v at node idx and climb to idx + LowBit(idx). */
  lemma UpdateStep(t: seq<int>, s0: seq<int>, s1: seq<int>, i: int, v: int, idx: int)
    requires 0 <= i < |s0| && s1 == s0[i := s0[i] + v]
    requires UpdateState(t, s0, s1, i, idx) && 1 <= idx < |t|
    ensures UpdateState(t[idx := t[idx] + v], s0, s1, i, idx + LowBit(idx))
  {
    var next := idx + LowBit(idx);
    ClimbCovers(idx, i);
    var t' := t[idx := t[idx] + v];
    forall k | 1 <= k < |t|
      ensures t'[k] == RangeSum(if k < next then s1 else s0, k - LowBit(k), k)
    {
      NodeStep(t, s0, s1, i, v, idx, k);
    }
  }

  /** The node reached by climbing from a node covering a[i] covers it too. */
  lemma ClimbCovers(idx: int, i: int)
    requires idx >= 1 && Covers(idx, i)
    ensures Covers(idx + LowBit(idx), i)
  {
    LowBitClimb(idx);
  }

  /** The same pass, for one node k. */
  lemma NodeStep(t: seq<int>, s0: seq<int>, s1: seq<int>, i: int, v: int, idx: int, k: int)
    requires 0 <= i < |s0| && s1 == s0[i := s0[i] + v]
    requires UpdateState(t, s0, s1, i, idx) && 1 <= idx < |t| && 1 <= k < |t|
    ensures t[idx := t[idx] + v][k] == RangeSum(if k < idx + LowBit(idx) then s1 else s0, k - LowBit(k), k)
  {
    var lo := k - LowBit(k);
    RangeSumUpdate(s0, i, v, lo, k);
    assert t[k] == RangeSum(if k < idx then s1 else s0, lo, k);
    if k == idx {
      assert lo <= i < k;
    } else if idx < k < idx + LowBit(idx) {
      LowBitBetween(idx, k - idx);
      assert i < lo;
      assert RangeSum(s1, lo, k) == RangeSum(s0, lo, k);
    }
  }

  class Fenwick {
    /** BITree: entry 0 is a dummy, entry k the sum of a[k - LowBit(k)..k). */
    const tree: array<int>
    /** The logical array a. */
    ghost var elems: seq<int>

    ghost predicate Valid()
      reads this, tree
    {
      tree.Length == |elems| + 1 && forall k :: 1 <= k < tree.Length ==> NodeHolds(tree[..], elems, k)
    }

    /** Fenwick(N): N zero entries, so the logical array has N - 1 zeros. */
    constructor (N: int)
      requires N >= 1
      ensures Valid() && elems == seq(N - 1, _ => 0) && fresh(tree)
    {
      tree := new int[N](_ => 0);
      elems := seq(N - 1, _ => 0);
      new;
      forall k | 1 <= k < tree.Length
        ensures NodeHolds(tree[..], elems, k)
      {
        ZeroRange(elems, k - LowBit(k), k);
      }
    }

    /**
     * update(index, val): a[index] += val, by adding val to node index + 1 and every
     * node above it reached by adding the lowest set bit; the loop stops before
     * tree.Length. Returns the final value of the by-reference index.
     */
    method Update(index: int, val: int) returns (index': int)
      modifies this, tree
      requires Valid() && 0 <= index < |elems|
      ensures Valid()
      ensures elems == old(elems)[index := old(elems)[index] + val]
      ensures index' >= tree.Length
    {
      ghost var s0 := elems;
      UpdateStart(tree[..], s0, index, val);
      elems := s0[index := s0[index] + val];
      index' := index + 1;
      while index' < tree.Length
        invariant tree.Length == |s0| + 1
        invariant UpdateState(tree[..], s0, elems, index, index')
        invariant elems == s0[index := s0[index] + val]
        decreases tree.Length - index'
      {
        UpdateStep(tree[..], s0, elems, index, val, index');
        tree[index'] := tree[index'] + val;
        index' := index' + LowBit(index');
      }
      forall k | 1 <= k < tree.Length
        ensures NodeHolds(tree[..], elems, k)
      {
      }
    }

    /**
     * sum(index): a[0] + ... + a[index - 1], by adding node index and stepping down by
     * the lowest set bit; the by-reference index ends at 0.
     */
    method Sum(index: int) returns (result: int, index': int)
      requires Valid() && 0 <= index <= |elems|
      ensures result == RangeSum(elems, 0, index)
      ensures index' == 0
    {
      result := 0;
      index' := index;
      while index' > 0
        invariant 0 <= index' <= index
        invariant result + RangeSum(elems, 0, index') == RangeSum(elems, 0, index)
        decreases index'
      {
        assert NodeHolds(tree[..], elems, index');
        RangeSumSplit(elems, index' - LowBit(index'), index');
        result := result + tree[index'];
        index' := index' - LowBit(index');
      }
    }
  }

  lemma {:induction false} ZeroRange(s: seq<int>, lo: int, hi: int)
    requires 0 <= lo <= hi <= |s| && forall j :: 0 <= j < |s| ==> s[j] == 0
    ensures RangeSum(s, lo, hi) == 0
    decreases hi
  {
    if lo < hi {
      ZeroRange(s, lo, hi - 1);
    }
  }

  /** The nodes `update` visits with the loop guard as written, `index <= size`. */
  function UpdatePathAsWritten(index: int, size: int): (path: seq<int>)
    requires index >= 1
    ensures forall j :: 0 <= j < |path| ==> index <= path[j] <= size
    decreases size - index
  {
    if index <= size then [index] + UpdatePathAsWritten(index + LowBit(index), size) else []
  }

  /** The nodes `update` visits with the guard `index < size`. */
  function UpdatePath(index: int, size: int): (path: seq<int>)
    requires index >= 1
    ensures forall j :: 0 <= j < |path| ==> index <= path[j] < size
    decreases size - index
  {
    if index < size then [index] + UpdatePath(index + LowBit(index), size) else []
  }

  /**
   * With the guard as written, update(0) on a tree of two entries (one element) writes
   * BITree[2], one past the end.
   */
  lemma UpdateOverrun()
    ensures UpdatePathAsWritten(1, 2) == [1, 2]
    ensures UpdatePath(1, 2) == [1]
  {
    assert LowBit(1) == 1;
    assert LowBit(2) == 2 * LowBit(1);
  }
}
