/**
 * Interval cover: the fewest given intervals whose union covers a primary interval
 * [A, B], chosen greedily. The intervals are scanned by left end; in each round, among
 * those starting at or before the point reached so far, the one reaching furthest right
 * is kept, and the next round starts from its right end.
 *
 * The endpoints are doubles in the source; here they are exact reals. The only
 * arithmetic, `start - 1`, is exact on doubles for integer endpoints below 2^53 in
 * magnitude; elsewhere it may round (0.1 - 1 already does), and the model may then
 * differ from the source.
 */
module IntervalCover {

  datatype Interval = Interval(A: real, B: real, index: int)

  /** Interval::operator<: by left end alone. */
  predicate Less(x: Interval, y: Interval)
  {
    x.A < y.A
  }

  /** Sorted for operator<: no later interval is less than an earlier one. */
  predicate SortedByStart(s: seq<Interval>)
  {
    forall i, j :: 0 <= i < j < |s| ==> !Less(s[j], s[i])
  }

  /** Some interval of s holds the point x. */
  ghost predicate CoveredAt(s: seq<Interval>, x: real)
  {
    exists j :: 0 <= j < |s| && s[j].A <= x <= s[j].B
  }

  /** The union of the intervals of s holds every point of [p.A, p.B]. */
  ghost predicate Covered(p: Interval, s: seq<Interval>)
  {
    forall x :: p.A <= x <= p.B ==> CoveredAt(s, x)
  }

  /**
   * The picks of the greedy rounds: the first starts at or before p.A, each later one
   * starts at or before the right end of the one before, and each reaches strictly
   * further right than the one before (the first than p.A - 1).
   */
  predicate Links(p: Interval, c: seq<Interval>)
  {
    && (|c| > 0 ==> c[0].A <= p.A && c[0].B > p.A - 1.0)
    && forall k :: 1 <= k < |c| ==> c[k].A <= c[k - 1].B && c[k].B > c[k - 1].B
  }

  /** A chain of links whose last interval reaches p.B. */
  predicate CoverChain(p: Interval, c: seq<Interval>)
  {
    |c| > 0 && Links(p, c) && c[|c| - 1].B >= p.B
  }

  /** cover's answer when it succeeds: the indices of a chain of intervals of s that reaches p.B. */
  predicate Picked(p: Interval, s: seq<Interval>, result: seq<int>, chosen: seq<Interval>)
  {
    && |chosen| == |result| && CoverChain(p, chosen)
    && forall k :: 0 <= k < |chosen| ==> chosen[k] in s && result[k] == chosen[k].index
  }

  /** A chain of links covers every point from p.A to the right end of its last interval. */
  lemma {:induction false} LinksCover(p: Interval, c: seq<Interval>, x: real)
    requires |c| > 0 && Links(p, c) && p.A <= x <= c[|c| - 1].B
    ensures CoveredAt(c, x)
    decreases |c|
  {
    var n := |c|;
    if n == 1 {
      assert c[0].A <= x <= c[0].B;
    } else if x <= c[n - 2].B {
      var c' := c[..n - 1];
      assert Links(p, c');
      LinksCover(p, c', x);
      var j :| 0 <= j < |c'| && c'[j].A <= x <= c'[j].B;
      assert c[j] == c'[j];
    } else {
      assert c[n - 1].A <= x <= c[n - 1].B;
    }
  }

  /** So a successful answer is a cover: its intervals hold every point of the primary interval. */
  lemma PickedCovers(p: Interval, s: seq<Interval>, result: seq<int>, chosen: seq<Interval>)
    requires Picked(p, s, result, chosen)
    ensures Covered(p, s)
  {
    forall x | p.A <= x <= p.B
      ensures CoveredAt(s, x)
    {
      LinksCover(p, chosen, x);
      var j :| 0 <= j < |chosen| && chosen[j].A <= x <= chosen[j].B;
      var e := chosen[j];
      assert e in s;
      var k :| 0 <= k < |s| && s[k] == e;
    }
  }

  /** Covering depends only on which intervals there are, not on their order. */
  lemma CoveredPermutation(p: Interval, s: seq<Interval>, t: seq<Interval>)
    requires multiset(s) == multiset(t) && Covered(p, s)
    ensures Covered(p, t)
  {
    forall x | p.A <= x <= p.B
      ensures CoveredAt(t, x)
    {
      assert CoveredAt(s, x);
      var j :| 0 <= j < |s| && s[j].A <= x <= s[j].B;
      assert s[j] in multiset(t);
      var k :| 0 <= k < |t| && t[k] == s[j];
    }
  }

  /**
   * What cover has built after scanning sorted[..i]: every scanned interval ends at or
   * before `end`, the point reached by the picks, whose indices are the result.
   */
  predicate Progress(p: Interval, s: seq<Interval>, i: int, end: real, result: seq<int>, chosen: seq<Interval>)
  {
    && 0 <= i <= |s|
    && (forall j :: 0 <= j < i ==> s[j].B <= end)
    && |result| == |chosen|
    && (forall k :: 0 <= k < |chosen| ==> chosen[k] in s && result[k] == chosen[k].index)
    && Links(p, chosen)
    && end == (if |chosen| == 0 then p.A - 1.0 else chosen[|chosen| - 1].B)
  }

  /** The state of cover's loop: the progress, and the round `count` starting from `start`. */
  predicate CoverState(p: Interval, s: seq<Interval>, i: int, start: real, end: real, count: int,
                       result: seq<int>, chosen: seq<Interval>)
  {
    && Progress(p, s, i, end, result, chosen) && 0 <= count
    && (|chosen| == count || |chosen| == count + 1)
    && start == (if count == 0 then p.A else chosen[count - 1].B)
    && (count >= 1 ==> start >= p.A)
  }

  /** Scanning sorted[i], which starts at or before `start`: a new pick, a better pick, or nothing. */
  lemma ScanStep(p: Interval, s: seq<Interval>, i: int, start: real, end: real, count: int,
                 result: seq<int>, chosen: seq<Interval>,
                 i': int, end': real, result': seq<int>, chosen': seq<Interval>)
    requires CoverState(p, s, i, start, end, count, result, chosen) && i < |s| && s[i].A <= start
    requires i' == i + 1 && end' == (if end < s[i].B then s[i].B else end)
    requires end' == end ==> result' == result && chosen' == chosen
    requires end' != end && |result| <= count ==> result' == result + [s[i].index] && chosen' == chosen + [s[i]]
    requires end' != end && |result| > count ==> result' == result[count := s[i].index] && chosen' == chosen[count := s[i]]
    ensures CoverState(p, s, i', start, end', count, result', chosen')
  {
    if end' != end {
      var n := |chosen'|;
      assert chosen'[n - 1] == s[i];
      assert forall k :: 0 <= k < n - 1 ==> chosen'[k] == chosen[k];
    }
  }

  /** Closing a round that did not end the scan: the next starts from the point reached. */
  lemma RoundStep(p: Interval, s: seq<Interval>, i: int, start: real, end: real, count: int,
                  result: seq<int>, chosen: seq<Interval>, start': real, count': int)
    requires CoverState(p, s, i, start, end, count, result, chosen) && i < |s|
    requires start < s[i].A <= end && start' == end && count' == count + 1
    ensures CoverState(p, s, i, start', end, count', result, chosen)
  {
  }

  /**
   * The scan stopped at sorted[i], which starts beyond the point reached, before reaching
   * p.B: a point just past the reach, or p.A itself, lies in no interval.
   */
  lemma Stuck(p: Interval, s: seq<Interval>, i: int, start: real, end: real)
    requires SortedByStart(s) && 0 <= i < |s| && p.A <= p.B && end < p.B
    requires forall j :: 0 <= j < i ==> s[j].B <= end
    requires s[i].A > end && s[i].A > start && start >= p.A
    ensures !Covered(p, s)
  {
    var mid := (end + s[i].A) / 2.0;
    var x := if end < p.A then p.A else if mid < p.B then mid else p.B;
    forall j | 0 <= j < |s|
      ensures !(s[j].A <= x <= s[j].B)
    {
      if j >= i {
        assert !Less(s[j], s[i]);
      }
    }
    assert p.A <= x <= p.B && !CoveredAt(s, x);
  }

  /** The scan ran out of intervals before reaching p.B. */
  lemma Exhausted(p: Interval, s: seq<Interval>, end: real)
    requires p.A <= p.B && end < p.B && forall j :: 0 <= j < |s| ==> s[j].B <= end
    ensures !Covered(p, s)
  {
    var x := if end < p.A then p.A else p.B;
    assert p.A <= x <= p.B && !CoveredAt(s, x);
  }

  /** When the reach is at least p.B, the picks form a cover. */
  lemma Reached(p: Interval, intervals: seq<Interval>, s: seq<Interval>, i: int, end: real,
                result: seq<int>, chosen: seq<Interval>)
    requires multiset(s) == multiset(intervals) && p.A <= p.B
    requires Progress(p, s, i, end, result, chosen) && end >= p.B
    ensures Picked(p, intervals, result, chosen) && Covered(p, intervals)
  {
    forall k | 0 <= k < |chosen|
      ensures chosen[k] in intervals
    {
      assert chosen[k] in multiset(s);
    }
    PickedCovers(p, intervals, result, chosen);
  }

  /**
   * cover(primary, intervals), with `sorted` the intervals in the order std::sort leaves
   * them. For a primary interval with A <= B: when the intervals cover it, the result is
   * the indices of a chain of them that covers it, each reaching strictly further than
   * the one before; when they do not, the result is {-1}.
   */
  method Cover(primary: Interval, intervals: seq<Interval>, sorted: seq<Interval>)
    returns (result: seq<int>, ghost chosen: seq<Interval>)
    requires multiset(sorted) == multiset(intervals) && SortedByStart(sorted)
    ensures primary.A <= primary.B && Covered(primary, intervals) ==> Picked(primary, intervals, result, chosen)
    ensures primary.A <= primary.B && !Covered(primary, intervals) ==> result == [-1]
  {
    result, chosen := [], [];
    var start := primary.A;
    var end := start - 1.0;
    var count := 0;
    var i := 0;
    while i < |sorted|
      invariant CoverState(primary, sorted, i, start, end, count, result, chosen)
      decreases |sorted| - i, if i < |sorted| && sorted[i].A <= start then 0 else 1
    {
      if sorted[i].A <= start {
        ghost var i0, end0, result0, chosen0 := i, end, result, chosen;
        var max := if end < sorted[i].B then sorted[i].B else end;
        if max != end {
          if |result| == 0 || |result| <= count {
            result, chosen := result + [sorted[i].index], chosen + [sorted[i]];
          } else {
            result, chosen := result[count := sorted[i].index], chosen[count := sorted[i]];
          }
        }
        i := i + 1;
        end := max;
        ScanStep(primary, sorted, i0, start, end0, count, result0, chosen0, i, end, result, chosen);
      } else {
        ghost var start0, count0 := start, count;
        start := end;
        count := count + 1;
        if sorted[i].A > end || end >= primary.B {
          if primary.A <= primary.B && end < primary.B {
            Stuck(primary, sorted, i, start0, end);
            CoveredBack(primary, sorted, intervals);
          }
          break;
        }
        RoundStep(primary, sorted, i, start0, end, count0, result, chosen, start, count);
      }
    }
    if end < primary.B {
      if primary.A <= primary.B && i == |sorted| {
        Exhausted(primary, sorted, end);
        CoveredBack(primary, sorted, intervals);
      }
      return [-1], chosen;
    }
    if primary.A <= primary.B {
      Reached(primary, intervals, sorted, i, end, result, chosen);
    }
  }

  /** Not covered by the sorted intervals means not covered by the given ones. */
  lemma CoveredBack(p: Interval, s: seq<Interval>, intervals: seq<Interval>)
    requires multiset(s) == multiset(intervals) && !Covered(p, s)
    ensures !Covered(p, intervals)
  {
    if Covered(p, intervals) {
      CoveredPermutation(p, intervals, s);
    }
  }
}
