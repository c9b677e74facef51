/**
 * Longest strictly increasing subsequence by patience sorting. `rear[k]` is the element
 * ending the best known increasing run of length k + 1: the one with the smallest final
 * value. Each element records in `prev` the element before it in its run, and the answer
 * is read back from the last tail along those links.
 *
 * The `Ele*` pointers of the source are positions in the element array here, with -1
 * for nullptr.
 */
module LongestIncSeq {

  /** Ele: a value, its index in the input, and the position of its predecessor (or -1). */
  datatype Ele = Ele(v: int, i: int, prev: int)

  /** q lists positions of vals in increasing order, and their values strictly increase. */
  predicate Increasing(vals: seq<int>, q: seq<int>)
  {
    && (forall k :: 0 <= k < |q| ==> 0 <= q[k] < |vals|)
    && (forall k :: 1 <= k < |q| ==> q[k - 1] < q[k] && vals[q[k - 1]] < vals[q[k]])
  }

  /** The values of the elements. */
  function Values(s: seq<Ele>): (vals: seq<int>)
    ensures |vals| == |s| && forall p :: 0 <= p < |s| ==> vals[p] == s[p].v
  {
    seq(|s|, p requires 0 <= p < |s| => s[p].v)
  }

  /** The input indices of the elements. */
  function Ids(s: seq<Ele>): (ids: seq<int>)
    ensures |ids| == |s| && forall p :: 0 <= p < |s| ==> ids[p] == s[p].i
  {
    seq(|s|, p requires 0 <= p < |s| => s[p].i)
  }

  /** The values at rear[l + 1..r] do not decrease. */
  ghost predicate Ascending(s: array<Ele>, rear: seq<int>, l: int, r: int)
    reads s
  {
    && -1 <= l < r < |rear|
    && (forall k :: l < k <= r ==> 0 <= rear[k] < s.Length)
    && forall a, b :: l < a < b <= r ==> s[rear[a]].v <= s[rear[b]].v
  }

  /**
   * binary(v, l, r, key): with the values at rear(l..r] ascending and the last of them at
   * least key, the least index in (l, r] whose value is at least key.
   * The source mixes int32 and uint32 here; for -1 <= l < r < 2^31 the unsigned
   * arithmetic gives the same values as the integer arithmetic below.
   */
  method Binary(s: array<Ele>, rear: seq<int>, l: int, r: int, key: int) returns (index: int)
    requires Ascending(s, rear, l, r) && s[rear[r]].v >= key
    ensures l < index <= r && s[rear[index]].v >= key
    ensures forall k :: l < k < index ==> s[rear[k]].v < key
  {
    var lo, hi := l, r;
    while hi - lo > 1
      invariant l <= lo < hi <= r && s[rear[hi]].v >= key
      invariant lo == l || s[rear[lo]].v < key
      decreases hi - lo
    {
      var m := lo + (hi - lo) / 2;
      if s[rear[m]].v >= key {
        hi := m;
      } else {
        lo := m;
      }
    }
    index := hi;
  }

  /** Element p's link: a run of length len[p] > 1 continues from an earlier, smaller element. */
  predicate LinkOk(s: seq<Ele>, vals: seq<int>, len: seq<int>, p: int)
    requires 0 <= p < |s| == |vals| == |len|
  {
    if len[p] <= 1 then s[p].prev == -1
    else 0 <= s[p].prev < p && len[s[p].prev] == len[p] - 1 && vals[s[p].prev] < vals[p]
  }

  /** Tails: r[k] ends a run of length k + 1 among the first i elements, and the tail values increase. */
  ghost predicate Tails(vals: seq<int>, len: seq<int>, r: seq<int>, size: int, i: int)
  {
    && |len| == |vals| && |r| == |vals| && 1 <= size <= i <= |vals|
    && (forall k :: 0 <= k < size ==> 0 <= r[k] < i && len[r[k]] == k + 1)
    && (forall a, b :: 0 <= a < b < size ==> vals[r[a]] < vals[r[b]])
  }

  /**
   * No increasing subsequence of the first i elements is longer than size, and one of
   * length L ends with a value at least that of the tail r[L - 1].
   */
  ghost predicate Smallest(vals: seq<int>, r: seq<int>, size: int, i: int)
    requires |r| == |vals| && 1 <= size <= |vals|
  {
    forall q :: Increasing(vals, q) && |q| >= 1 && q[|q| - 1] < i ==>
      |q| <= size && (0 <= r[|q| - 1] < |vals| ==> vals[q[|q| - 1]] >= vals[r[|q| - 1]])
  }

  /** The state of lis's loop after the first i elements. */
  ghost predicate LisState(vals: seq<int>, ids: seq<int>, s: seq<Ele>, len: seq<int>, r: seq<int>, size: int, i: int)
  {
    && Tails(vals, len, r, size, i) && |s| == |vals| == |ids|
    && (forall p :: 0 <= p < |s| ==> s[p].v == vals[p] && s[p].i == ids[p])
    && (forall p :: 0 <= p < |s| ==> (p < i ==> len[p] >= 0) && (p >= i ==> len[p] == 0))
    && (forall p :: 0 <= p < |s| ==> LinkOk(s, vals, len, p))
    && Smallest(vals, r, size, i)
  }

  /** The state before the loop: the first element alone is a run of length 1. */
  lemma LisStart(vals: seq<int>, ids: seq<int>, s: seq<Ele>, r: seq<int>)
    requires |vals| >= 1 && |s| == |r| == |vals| == |ids| && r[0] == 0
    requires forall p :: 0 <= p < |s| ==> s[p].v == vals[p] && s[p].i == ids[p] && s[p].prev == -1
    ensures LisState(vals, ids, s, seq(|vals|, p => if p == 0 then 1 else 0), r, 1, 1)
  {
    var len := seq(|vals|, p => if p == 0 then 1 else 0);
    forall q | Increasing(vals, q) && |q| >= 1 && q[|q| - 1] < 1
      ensures |q| <= 1
    {
      PositionBound(vals, q);
    }
  }

  /** Strictly increasing positions from 0: the last is at least the count before it. */
  lemma {:induction false} PositionBound(vals: seq<int>, q: seq<int>)
    requires Increasing(vals, q) && |q| >= 1
    ensures q[|q| - 1] >= |q| - 1
    decreases |q|
  {
    if |q| > 1 {
      var q' := q[..|q| - 1];
      assert Increasing(vals, q');
      PositionBound(vals, q');
      assert q'[|q'| - 1] == q[|q| - 2];
    }
  }

  /**
   * Placing element i at tail slot `slot`: it is above the tail before the slot and not
   * above the tail at the slot, so it replaces that tail (or, at slot == size, extends the
   * list), linked to the tail before it.
   */
  lemma Place(vals: seq<int>, ids: seq<int>, s: seq<Ele>, len: seq<int>, r: seq<int>, size: int, i: int, slot: int,
              s': seq<Ele>, len': seq<int>, r': seq<int>, size': int, i': int)
    requires LisState(vals, ids, s, len, r, size, i) && i < |vals| && 0 <= slot <= size
    requires slot > 0 ==> vals[r[slot - 1]] < vals[i]
    requires slot < size ==> vals[i] <= vals[r[slot]]
    requires slot == size ==> size < |vals|
    requires i' == i + 1 && r' == r[slot := i] && len' == len[i := slot + 1]
    requires size' == if slot == size then size + 1 else size
    requires s' == if slot == 0 then s else s[i := s[i].(prev := r[slot - 1])]
    ensures LisState(vals, ids, s', len', r', size', i')
  {
    var x := vals[i];
    assert Tails(vals, len', r', size', i') by {
      forall k | 0 <= k < size'
        ensures 0 <= r'[k] < i' && len'[r'[k]] == k + 1
      {
        if k != slot {
          assert r[k] < i;
        }
      }
    }
    PlaceLinks(vals, ids, s, len, r, size, i, slot, s', len');
    forall q | Increasing(vals, q) && |q| >= 1 && q[|q| - 1] < i'
      ensures |q| <= size' && (0 <= r'[|q| - 1] < |vals| ==> vals[q[|q| - 1]] >= vals[r'[|q| - 1]])
    {
      PlaceRun(vals, len, r, size, i, slot, q, r', size');
    }
  }

  /** The links of Place: element i links to the tail before its slot. */
  lemma PlaceLinks(vals: seq<int>, ids: seq<int>, s: seq<Ele>, len: seq<int>, r: seq<int>, size: int, i: int,
                   slot: int, s': seq<Ele>, len': seq<int>)
    requires LisState(vals, ids, s, len, r, size, i) && i < |vals| && 0 <= slot <= size
    requires slot > 0 ==> vals[r[slot - 1]] < vals[i]
    requires len' == len[i := slot + 1]
    requires s' == if slot == 0 then s else s[i := s[i].(prev := r[slot - 1])]
    ensures forall p :: 0 <= p < |s'| ==> LinkOk(s', vals, len', p)
  {
    forall p | 0 <= p < |s'|
      ensures LinkOk(s', vals, len', p)
    {
      assert LinkOk(s, vals, len, p);
      if p != i {
        assert s'[p] == s[p];
      } else if slot > 0 {
        assert r[slot - 1] < i;
      }
    }
  }

  /** The run bound of Place, for one increasing subsequence q. */
  lemma PlaceRun(vals: seq<int>, len: seq<int>, r: seq<int>, size: int, i: int, slot: int, q: seq<int>,
                 r': seq<int>, size': int)
    requires Tails(vals, len, r, size, i) && Smallest(vals, r, size, i) && i < |vals| && 0 <= slot <= size
    requires slot > 0 ==> vals[r[slot - 1]] < vals[i]
    requires slot < size ==> vals[i] <= vals[r[slot]]
    requires r' == r[slot := i] && size' == if slot == size then size + 1 else size
    requires Increasing(vals, q) && |q| >= 1 && q[|q| - 1] <= i
    ensures |q| <= size' && vals[q[|q| - 1]] >= vals[r'[|q| - 1]]
  {
    var n := |q|;
    var x := vals[i];
    if q[n - 1] < i {
      if n - 1 == slot {
        assert vals[q[n - 1]] >= vals[r[n - 1]] >= x;
      }
    } else if n == 1 {
      if slot > 0 {
        assert vals[r[0]] <= vals[r[slot - 1]];
      }
    } else {
      var q' := q[..n - 1];
      assert Increasing(vals, q');
      assert q'[n - 2] < i;
      assert vals[r[n - 2]] <= vals[q[n - 2]] < x;
      if n - 1 < slot {
        assert vals[r[n - 1]] <= vals[r[slot - 1]];
      }
    }
  }

  /** Skipping element i, whose value equals the first or the last tail. */
  lemma Skip(vals: seq<int>, ids: seq<int>, s: seq<Ele>, len: seq<int>, r: seq<int>, size: int, i: int, i': int)
    requires LisState(vals, ids, s, len, r, size, i) && i < |vals| && i' == i + 1
    requires vals[i] == vals[r[0]] || vals[i] == vals[r[size - 1]]
    ensures LisState(vals, ids, s, len, r, size, i')
  {
    var x := vals[i];
    forall q | Increasing(vals, q) && |q| >= 1 && q[|q| - 1] < i'
      ensures |q| <= size && vals[q[|q| - 1]] >= vals[r[|q| - 1]]
    {
      var n := |q|;
      if q[n - 1] == i {
        if n == 1 {
          assert vals[r[0]] <= x;
        } else {
          var q' := q[..n - 1];
          assert Increasing(vals, q');
          assert q'[n - 2] < i;
          assert vals[r[n - 2]] <= vals[q[n - 2]] < x;
          assert n - 2 < size - 1;
          if n - 1 < size - 1 {
            assert vals[r[n - 1]] < vals[r[size - 1]];
          }
        }
      }
    }
  }

  /** The chain of links from position p back to the start of its run. */
  ghost predicate Walked(vals: seq<int>, s: seq<Ele>, len: seq<int>, back: seq<int>, top: int)
  {
    && |back| >= 1 && |s| == |vals| == |len|
    && (forall k :: 0 <= k < |back| ==> 0 <= back[k] < |s| && len[back[k]] == top - k)
    && (forall k :: 1 <= k < |back| ==> back[k] == s[back[k - 1]].prev)
  }

  /** Following a link from a run of length > 1. */
  lemma WalkStep(vals: seq<int>, s: seq<Ele>, len: seq<int>, back: seq<int>, top: int)
    requires Walked(vals, s, len, back, top)
    requires forall p :: 0 <= p < |s| ==> LinkOk(s, vals, len, p)
    requires s[back[|back| - 1]].prev != -1
    ensures Walked(vals, s, len, back + [s[back[|back| - 1]].prev], top)
  {
    assert LinkOk(s, vals, len, back[|back| - 1]);
  }

  /** The finished walk, reversed, is an increasing subsequence of length top. */
  lemma WalkDone(vals: seq<int>, s: seq<Ele>, len: seq<int>, back: seq<int>, top: int)
    requires Walked(vals, s, len, back, top)
    requires forall p :: 0 <= p < |s| ==> LinkOk(s, vals, len, p)
    requires s[back[|back| - 1]].prev == -1 && top >= 1
    ensures |back| == top && Increasing(vals, Reverse(back))
  {
    var n := |back|;
    assert LinkOk(s, vals, len, back[n - 1]);
    if n >= 2 {
      assert LinkOk(s, vals, len, back[n - 2]);
    }
    var rev := Reverse(back);
    forall k | 1 <= k < n
      ensures rev[k - 1] < rev[k] && vals[rev[k - 1]] < vals[rev[k]]
    {
      var j := n - k;
      assert rev[k] == back[j - 1] && rev[k - 1] == back[j];
      assert LinkOk(s, vals, len, back[j - 1]);
    }
  }

  /** std::reverse: the same entries, last first. */
  function Reverse(a: seq<int>): (b: seq<int>)
    ensures |b| == |a| && forall k :: 0 <= k < |a| ==> b[k] == a[|a| - 1 - k]
  {
    seq(|a|, k requires 0 <= k < |a| => a[|a| - 1 - k])
  }

  /** Reversal undoes itself. */
  lemma ReverseReverse(a: seq<int>)
    ensures Reverse(Reverse(a)) == a
  {
  }

  /**
   * lis(seq): the input indices of a longest strictly increasing subsequence, in order.
   * The elements keep their values and indices; their `prev` links are rewritten.
   */
  method Lis(sq: array<Ele>) returns (result: seq<int>, ghost pos: seq<int>)
    requires sq.Length >= 1
    requires forall p :: 0 <= p < sq.Length ==> sq[p].prev == -1
    modifies sq
    ensures Values(sq[..]) == Values(old(sq[..])) && Ids(sq[..]) == Ids(old(sq[..]))
    ensures |pos| == |result| && Increasing(Values(sq[..]), pos)
    ensures forall k :: 0 <= k < |pos| ==> result[k] == sq[pos[k]].i
    ensures forall q :: Increasing(Values(sq[..]), q) ==> |q| <= |result|
    ensures forall p :: 0 <= p < sq.Length ==>
      sq[p].prev == -1 || (0 <= sq[p].prev < p && sq[sq[p].prev].v < sq[p].v)
  {
    ghost var vals := Values(sq[..]);
    ghost var ids := Ids(sq[..]);
    var rear := seq(sq.Length, _ => 0);
    var size := 1;
    ghost var len := seq(|vals|, p => if p == 0 then 1 else 0);
    LisStart(vals, ids, sq[..], rear);
    var i := 1;
    while i < sq.Length
      invariant LisState(vals, ids, sq[..], len, rear, size, i)
      decreases sq.Length - i
    {
      rear, size, i, len := Consider(sq, rear, size, i, vals, ids, len);
    }
    ghost var s1, r1 := sq[..], rear;
    LisDone(vals, ids, s1, len, r1, size, i);
    result, pos := Backtrack(sq, rear[size - 1], vals, s1, len, size);
  }

  /**
   * The read-back at the end of lis: follow `prev` from the last tail, collecting the
   * input indices, then reverse them.
   */
  method Backtrack(sq: array<Ele>, last: int, ghost vals: seq<int>, ghost s: seq<Ele>,
                   ghost len: seq<int>, ghost top: int)
    returns (result: seq<int>, ghost pos: seq<int>)
    requires s == sq[..] && top >= 1 && Walked(vals, s, len, [last], top)
    requires forall p :: 0 <= p < |s| ==> LinkOk(s, vals, len, p)
    ensures |pos| == |result| == top && Increasing(vals, pos)
    ensures forall k :: 0 <= k < |pos| ==> result[k] == s[pos[k]].i
  {
    assert [last][0] == last;
    var back := [];
    var cur := sq[last];
    ghost var p := last;
    ghost var walk := [p];
    while true
      invariant Walked(vals, s, len, walk, top)
      invariant p == walk[|walk| - 1] && cur == s[p]
      invariant |back| + 1 == |walk| && forall k :: 0 <= k < |back| ==> back[k] == s[walk[k]].i
      decreases len[p]
    {
      back := back + [cur.i];
      if cur.prev == -1 {
        break;
      }
      WalkStep(vals, s, len, walk, top);
      assert LinkOk(s, vals, len, p);
      var next := cur.prev;
      p := next;
      walk := walk + [p];
      cur := sq[next];
    }
    WalkDone(vals, s, len, walk, top);
    result, pos := Reverse(back), Reverse(walk);
  }

  /**
   * One pass of lis's loop: element i replaces the first tail, extends the list, replaces
   * the first tail not below it, or is skipped when it equals the first or the last tail.
   */
  method Consider(sq: array<Ele>, rear: seq<int>, size: int, i: int,
                  ghost vals: seq<int>, ghost ids: seq<int>, ghost len: seq<int>)
    returns (rear': seq<int>, size': int, i': int, ghost len': seq<int>)
    requires i < sq.Length && LisState(vals, ids, sq[..], len, rear, size, i)
    modifies sq
    ensures i' == i + 1 && LisState(vals, ids, sq[..], len', rear', size', i')
  {
    ghost var s0 := sq[..];
    TopFacts(vals, ids, s0, len, rear, size, i);
    rear', size', i', len' := rear, size, i + 1, len;
    if sq[i].v < sq[rear[0]].v {
      rear' := rear[0 := i];
      len' := len[i := 1];
      Place(vals, ids, s0, len, rear, size, i, 0, sq[..], len', rear', size', i');
    } else if sq[i].v > sq[rear[size - 1]].v {
      sq[i] := sq[i].(prev := rear[size - 1]);
      rear' := rear[size := i];
      size' := size + 1;
      len' := len[i := size'];
      Place(vals, ids, s0, len, rear, size, i, size, sq[..], len', rear', size', i');
    } else if sq[i].v > sq[rear[0]].v && sq[i].v < sq[rear[size - 1]].v {
      TailsAscending(vals, ids, sq, len, rear, size, i);
      var index := Binary(sq, rear, -1, size - 1, sq[i].v);
      rear' := rear[index := i];
      sq[i] := sq[i].(prev := rear'[index - 1]);
      len' := len[i := index + 1];
      Place(vals, ids, s0, len, rear, size, i, index, sq[..], len', rear', size', i');
    } else {
      Skip(vals, ids, s0, len, rear, size, i, i');
    }
  }

  /** The facts about the first and last tails that one pass of the loop reads. */
  lemma TopFacts(vals: seq<int>, ids: seq<int>, s: seq<Ele>, len: seq<int>, r: seq<int>, size: int, i: int)
    requires LisState(vals, ids, s, len, r, size, i) && i < |vals|
    ensures 1 <= size <= i < |s| == |vals| == |r|
    ensures 0 <= r[0] < i && 0 <= r[size - 1] < i
    ensures s[i].v == vals[i] && s[r[0]].v == vals[r[0]] && s[r[size - 1]].v == vals[r[size - 1]]
  {
  }

  /** The tails, read through the arrays, ascend. */
  lemma TailsAscending(vals: seq<int>, ids: seq<int>, s: array<Ele>, len: seq<int>, rear: seq<int>, size: int, i: int)
    requires LisState(vals, ids, s[..], len, rear, size, i)
    ensures Ascending(s, rear, -1, size - 1)
    ensures forall k :: 0 <= k < size ==> 0 <= rear[k] < |vals| && s[rear[k]].v == vals[rear[k]]
  {
    assert forall k :: 0 <= k < size ==> 0 <= rear[k] < s.Length && s[rear[k]].v == vals[rear[k]];
  }

  /** After the last element: the links are sound, the walk can start at the last tail, and no increasing subsequence is longer than size. */
  lemma LisDone(vals: seq<int>, ids: seq<int>, s: seq<Ele>, len: seq<int>, r: seq<int>, size: int, i: int)
    requires LisState(vals, ids, s, len, r, size, i) && i >= |vals|
    ensures forall p :: 0 <= p < |s| ==> LinkOk(s, vals, len, p)
    ensures Values(s) == vals && Ids(s) == ids
    ensures forall p :: 0 <= p < |s| ==> s[p].prev == -1 || (0 <= s[p].prev < p && s[s[p].prev].v < s[p].v)
    ensures 1 <= size <= |vals| && Walked(vals, s, len, [r[size - 1]], size)
    ensures forall q :: Increasing(vals, q) ==> |q| <= size
  {
    forall p | 0 <= p < |s|
      ensures s[p].prev == -1 || (0 <= s[p].prev < p && s[s[p].prev].v < s[p].v)
    {
      assert LinkOk(s, vals, len, p);
    }
    LongestBound(vals, r, size);
  }

  /** At the end, every increasing subsequence is at most size long. */
  lemma LongestBound(vals: seq<int>, r: seq<int>, size: int)
    requires |r| == |vals| && 1 <= size <= |vals| && Smallest(vals, r, size, |vals|)
    ensures forall q :: Increasing(vals, q) ==> |q| <= size
  {
    forall q | Increasing(vals, q)
      ensures |q| <= size
    {
      if |q| >= 1 {
        assert q[|q| - 1] < |vals|;
      }
    }
  }
}
