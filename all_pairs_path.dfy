/**
 * All pairs shortest paths: Floyd-Warshall over an n x n weight matrix whose entry INF
 * means "no edge", followed by a second pass that sets to -INF every entry whose path can
 * run through a vertex on a negative cycle. The matrix is copied, so the caller's matrix
 * is left as it was.
 *
 * The model proves that every finite entry is the weight of a walk, that the first pass
 * never exceeds the weight of any simple path whose partial sums stay between -INF and INF,
 * and that the second pass marks exactly as the code does, each mark being justified by a
 * negative closed walk on the way.
 */
module AllPairsPath {

  /** std::numeric_limits<int32_t>::max(), the "no edge" weight. */
  const INF := 0x7fff_ffff

  /** m is an n x n matrix. */
  predicate Square(m: seq<seq<int>>, n: int)
  {
    |m| == n && forall i :: 0 <= i < n ==> |m[i]| == n
  }

  /** p is a walk: its vertices are in range and each step follows an edge, an entry below INF. */
  predicate Walk(adj: seq<seq<int>>, p: seq<int>)
  {
    && |p| > 0
    && (forall t :: 0 <= t < |p| ==> 0 <= p[t] < |adj|)
    && (forall t :: 0 <= t < |p| - 1 ==> p[t + 1] < |adj[p[t]]| && adj[p[t]][p[t + 1]] < INF)
  }

  /** The total weight of the edges of a walk. */
  function Weight(adj: seq<seq<int>>, p: seq<int>): int
    requires Walk(adj, p)
    decreases |p|
  {
    if |p| == 1 then 0
    else
      assert Walk(adj, p[1..]) by {
        assert forall t :: 0 <= t < |p| - 1 ==> p[1..][t] == p[t + 1];
      }
      adj[p[0]][p[1]] + Weight(adj, p[1..])
  }

  /** Some walk of at least one edge leads from i to j with weight w. */
  ghost predicate Path(adj: seq<seq<int>>, i: int, j: int, w: int)
  {
    exists p :: Walk(adj, p) && |p| >= 2 && p[0] == i && p[|p| - 1] == j && Weight(adj, p) == w
  }

  /** Some walk leads from i to j. */
  ghost predicate Reach(adj: seq<seq<int>>, i: int, j: int)
  {
    exists p :: Walk(adj, p) && p[0] == i && p[|p| - 1] == j
  }

  /** Some closed walk through m has negative weight. */
  ghost predicate NegCycle(adj: seq<seq<int>>, m: int)
  {
    exists w :: w < 0 && Path(adj, m, m, w)
  }

  /** Walks from i to j can pass through a vertex on a negative closed walk: no shortest walk exists. */
  ghost predicate Unbounded(adj: seq<seq<int>>, i: int, j: int)
  {
    exists m :: 0 <= m < |adj| && Reach(adj, i, m) && NegCycle(adj, m) && Reach(adj, m, j)
  }

  /** No vertex repeats, except that the walk may end where it began. */
  predicate Simple(p: seq<int>)
  {
    forall a, b :: 0 <= a < b < |p| && p[a] == p[b] ==> a == 0 && b == |p| - 1
  }

  /** Every vertex strictly inside p is below k. */
  predicate Inner(p: seq<int>, k: int)
  {
    forall t :: 0 < t < |p| - 1 ==> p[t] < k
  }

  /** The weight of every part of the walk lies strictly between -INF and INF. */
  predicate Fits(adj: seq<seq<int>>, p: seq<int>)
  {
    forall a, b :: 0 <= a < b < |p| ==> PartFits(adj, p, a, b)
  }

  /** The part of p from position a to position b is a walk whose weight lies strictly between -INF and INF. */
  predicate PartFits(adj: seq<seq<int>>, p: seq<int>, a: int, b: int)
    requires 0 <= a < b < |p|
  {
    Walk(adj, p[a..b + 1]) && -INF < Weight(adj, p[a..b + 1]) < INF
  }

  function Min(a: int, b: int): int
  {
    if a < b then a else b
  }

  /**
   * The guarded Floyd-Warshall recurrence: the entry for i, j once the vertices below k
   * may be used in between. A vertex is used only when both halves are below INF.
   */
  ghost function Best(adj: seq<seq<int>>, k: int, i: int, j: int): int
    requires Square(adj, |adj|) && 0 <= k <= |adj| && 0 <= i < |adj| && 0 <= j < |adj|
    decreases k
  {
    if k == 0 then adj[i][j]
    else
      var a := Best(adj, k - 1, i, k - 1);
      var b := Best(adj, k - 1, k - 1, j);
      if a < INF && b < INF then Min(Best(adj, k - 1, i, j), a + b) else Best(adj, k - 1, i, j)
  }

  /** One step of the recurrence: it never goes up, and it is at most the sum through v when both halves are below INF. */
  lemma BestStep(adj: seq<seq<int>>, v: int, i: int, j: int)
    requires Square(adj, |adj|) && 0 <= v < |adj| && 0 <= i < |adj| && 0 <= j < |adj|
    ensures Best(adj, v + 1, i, j) <= Best(adj, v, i, j)
    ensures Best(adj, v, i, v) < INF && Best(adj, v, v, j) < INF ==>
      Best(adj, v + 1, i, j) <= Best(adj, v, i, v) + Best(adj, v, v, j)
  {
  }

  /** A slice of a slice is a slice. */
  lemma SliceSlice(p: seq<int>, lo: int, hi: int, a: int, b: int)
    requires 0 <= lo <= hi <= |p| && 0 <= a <= b <= hi - lo
    ensures p[lo..hi][a..b] == p[lo + a..lo + b]
  {
    var r := p[lo..hi][a..b];
    assert |r| == b - a;
    forall x | 0 <= x < b - a
      ensures r[x] == p[lo + a..lo + b][x]
    {
      assert r[x] == p[lo..hi][a + x] == p[lo + a + x];
    }
  }

  /** A part of a walk is a walk. */
  lemma WalkSlice(adj: seq<seq<int>>, p: seq<int>, a: int, b: int)
    requires Walk(adj, p) && 0 <= a < b <= |p|
    ensures Walk(adj, p[a..b])
  {
    assert forall t :: 0 <= t < b - a ==> p[a..b][t] == p[a + t];
  }

  /** Joining a walk ending at v to one starting at v gives a walk. */
  lemma JoinWalk(adj: seq<seq<int>>, p: seq<int>, q: seq<int>)
    requires Walk(adj, p) && Walk(adj, q) && p[|p| - 1] == q[0]
    ensures Walk(adj, p + q[1..])
  {
    var r := p + q[1..];
    assert forall t :: 0 <= t < |p| ==> r[t] == p[t];
    assert forall t :: |p| <= t < |r| ==> r[t] == q[t - |p| + 1];
  }

  /** Joining a walk ending at v to one starting at v adds their weights. */
  lemma {:induction false} WeightJoin(adj: seq<seq<int>>, p: seq<int>, q: seq<int>)
    requires Walk(adj, p) && Walk(adj, q) && p[|p| - 1] == q[0]
    ensures Walk(adj, p + q[1..]) && Weight(adj, p + q[1..]) == Weight(adj, p) + Weight(adj, q)
    decreases |p|
  {
    JoinWalk(adj, p, q);
    var r := p + q[1..];
    if |p| > 1 {
      var p' := p[1..];
      WalkSlice(adj, p, 1, |p|);
      WeightJoin(adj, p', q);
      assert r[1..] == p' + q[1..];
      assert r[0] == p[0] && r[1] == p[1];
      assert Weight(adj, r) == adj[p[0]][p[1]] + Weight(adj, p' + q[1..]);
    } else {
      assert r == q;
    }
  }

  /** Splitting a walk at position t splits its weight. */
  lemma WeightSplit(adj: seq<seq<int>>, p: seq<int>, t: int)
    requires Walk(adj, p) && 0 <= t < |p|
    ensures Walk(adj, p[..t + 1]) && Walk(adj, p[t..])
    ensures Weight(adj, p) == Weight(adj, p[..t + 1]) + Weight(adj, p[t..])
  {
    Rejoin(p, t);
    WalkSlice(adj, p, 0, t + 1);
    WalkSlice(adj, p, t, |p|);
    WeightJoin(adj, p[..t + 1], p[t..]);
  }

  /** The halves of p split at position t, joined at t, give p back. */
  lemma Rejoin(p: seq<int>, t: int)
    requires 0 <= t < |p|
    ensures p[..t + 1] == p[0..t + 1] && p[t..] == p[t..|p|] && p[..t + 1] + p[t..][1..] == p
  {
    assert p[t..][1..] == p[t + 1..];
  }

  /** Walks join: reachability is transitive. */
  lemma ReachJoin(adj: seq<seq<int>>, i: int, m: int, j: int)
    requires Reach(adj, i, m) && Reach(adj, m, j)
    ensures Reach(adj, i, j)
  {
    var p: seq<int> :| Walk(adj, p) && p[0] == i && p[|p| - 1] == m;
    var q: seq<int> :| Walk(adj, q) && q[0] == m && q[|q| - 1] == j;
    WeightJoin(adj, p, q);
    var r := p + q[1..];
    if |q| > 1 {
      assert r[|r| - 1] == q[|q| - 1];
    } else {
      assert r == p;
    }
  }

  /** A walk of at least one edge is a walk. */
  lemma PathReach(adj: seq<seq<int>>, i: int, j: int, w: int)
    requires Path(adj, i, j, w)
    ensures Reach(adj, i, j)
  {
  }

  /** Each vertex reaches itself. */
  lemma ReachSelf(adj: seq<seq<int>>, i: int)
    requires 0 <= i < |adj|
    ensures Reach(adj, i, i)
  {
    assert Walk(adj, [i]);
  }

  /** A negative closed walk through m makes every pair i, j with i reaching m and m reaching j unbounded. */
  lemma Through(adj: seq<seq<int>>, i: int, m: int, j: int, w: int)
    requires 0 <= m < |adj| && Reach(adj, i, m) && Reach(adj, m, j) && w < 0 && Path(adj, m, m, w)
    ensures Unbounded(adj, i, j)
  {
    assert NegCycle(adj, m);
  }

  /**
   * The recurrence bound: a simple path of at least one edge whose inner vertices are below
   * k, and whose partial sums fit, weighs at least the recurrence's entry for its ends.
   */
  lemma {:induction false} BestBound(adj: seq<seq<int>>, k: int, p: seq<int>)
    requires Square(adj, |adj|) && 0 <= k <= |adj|
    requires Walk(adj, p) && |p| >= 2 && Simple(p) && Inner(p, k) && Fits(adj, p)
    ensures Best(adj, k, p[0], p[|p| - 1]) <= Weight(adj, p)
    decreases k
  {
    var i, j := p[0], p[|p| - 1];
    if k == 0 {
      assert p[1] >= 0;
      assert |p| == 2;
      assert p[1..] == [j];
    } else {
      var v := k - 1;
      if t :| 0 < t < |p| - 1 && p[t] == v {
        WeightSplit(adj, p, t);
        var q1, q2 := p[..t + 1], p[t..];
        SplitParts(adj, p, t, v);
        BestBound(adj, v, q1);
        BestBound(adj, v, q2);
        BestStep(adj, v, i, j);
      } else {
        assert Inner(p, v);
        BestBound(adj, v, p);
        BestStep(adj, v, i, j);
      }
    }
  }

  /**
   * The two halves of a simple path split at its only visit to v are simple, have inner
   * vertices below v when those of p are below v + 1, and fit.
   */
  lemma SplitParts(adj: seq<seq<int>>, p: seq<int>, t: int, v: int)
    requires Walk(adj, p) && Simple(p) && Inner(p, v + 1) && Fits(adj, p) && 0 < t < |p| - 1 && p[t] == v
    ensures Walk(adj, p[..t + 1]) && Walk(adj, p[t..])
    ensures Simple(p[..t + 1]) && Inner(p[..t + 1], v) && Fits(adj, p[..t + 1])
    ensures Simple(p[t..]) && Inner(p[t..], v) && Fits(adj, p[t..])
    ensures Weight(adj, p[..t + 1]) < INF && Weight(adj, p[t..]) < INF
  {
    assert p[..t + 1] == p[0..t + 1] && p[t..] == p[t..|p| - 1 + 1];
    Segment(adj, p, 0, t, v, p[..t + 1]);
    Segment(adj, p, t, |p| - 1, v, p[t..]);
  }

  /**
   * A proper part of a simple path that fits, from position lo to position hi with v at one
   * of its ends, is a simple path that fits with every inner vertex below v, given that the
   * inner vertices of p are below v + 1.
   */
  lemma Segment(adj: seq<seq<int>>, p: seq<int>, lo: int, hi: int, v: int, q: seq<int>)
    requires Walk(adj, p) && Simple(p) && Inner(p, v + 1) && Fits(adj, p)
    requires 0 <= lo < hi < |p| && (lo > 0 || hi < |p| - 1) && (p[lo] == v || p[hi] == v)
    requires q == p[lo..hi + 1]
    ensures Walk(adj, q) && Simple(q) && Inner(q, v) && Fits(adj, q) && Weight(adj, q) < INF
  {
    assert PartFits(adj, p, lo, hi);
    forall a, b | 0 <= a < b < |q|
      ensures PartFits(adj, q, a, b)
    {
      assert PartFits(adj, p, lo + a, lo + b);
      PartOfPart(adj, p, lo, hi, a, b);
    }
    forall a, b | 0 <= a < b < |q|
      ensures q[a] != q[b]
    {
      assert q[a] == p[lo + a] && q[b] == p[lo + b];
    }
    forall s | 0 < s < |q| - 1
      ensures q[s] < v
    {
      assert q[s] == p[lo + s] && p[lo + s] != p[lo] && p[lo + s] != p[hi];
    }
  }

  /** A part of the part of p from lo to hi is a part of p. */
  lemma PartOfPart(adj: seq<seq<int>>, p: seq<int>, lo: int, hi: int, a: int, b: int)
    requires 0 <= lo <= hi < |p| && 0 <= a < b <= hi - lo && PartFits(adj, p, lo + a, lo + b)
    ensures PartFits(adj, p[lo..hi + 1], a, b)
  {
    SliceSlice(p, lo, hi + 1, a, b + 1);
  }

  /** Every finite entry is the weight of a walk of at least one edge between its ends. */
  ghost predicate Sound(adj: seq<seq<int>>, dp: seq<seq<int>>, n: int)
    requires Square(dp, n)
  {
    forall a, b :: 0 <= a < n && 0 <= b < n && dp[a][b] < INF ==> Path(adj, a, b, dp[a][b])
  }

  /** No entry is above the input's. */
  predicate Below(adj: seq<seq<int>>, dp: seq<seq<int>>, n: int)
    requires Square(adj, n) && Square(dp, n)
  {
    forall a, b :: 0 <= a < n && 0 <= b < n ==> dp[a][b] <= adj[a][b]
  }

  /** In round k, the entries before (i, j) in row-major order are at most the recurrence at k + 1, the rest at k. */
  ghost predicate Progress(adj: seq<seq<int>>, dp: seq<seq<int>>, n: int, k: int, i: int, j: int)
    requires Square(adj, n) && Square(dp, n) && 0 <= k < n
  {
    forall a, b :: 0 <= a < n && 0 <= b < n ==>
      dp[a][b] <= if a < i || (a == i && b < j) then Best(adj, k + 1, a, b) else Best(adj, k, a, b)
  }

  /** Each entry is at most the recurrence at k. */
  ghost predicate Relaxed(adj: seq<seq<int>>, dp: seq<seq<int>>, n: int, k: int)
    requires Square(adj, n) && Square(dp, n) && 0 <= k <= n
  {
    forall a, b :: 0 <= a < n && 0 <= b < n ==> dp[a][b] <= Best(adj, k, a, b)
  }

  /** A single-edge walk: the input is sound and below itself. */
  lemma Start(adj: seq<seq<int>>, n: int)
    requires Square(adj, n)
    ensures Rounds(adj, adj, n, 0)
  {
    forall a, b | 0 <= a < n && 0 <= b < n && adj[a][b] < INF
      ensures Path(adj, a, b, adj[a][b])
    {
      var p := [a, b];
      assert Walk(adj, p);
      assert Weight(adj, p[1..]) == 0;
    }
  }

  /** An entry relaxed through k to the sum of two walk weights is the weight of their join. */
  lemma JoinPaths(adj: seq<seq<int>>, i: int, k: int, j: int, w1: int, w2: int)
    requires Path(adj, i, k, w1) && Path(adj, k, j, w2)
    ensures Path(adj, i, j, w1 + w2)
  {
    var p: seq<int> :| Walk(adj, p) && |p| >= 2 && p[0] == i && p[|p| - 1] == k && Weight(adj, p) == w1;
    var q: seq<int> :| Walk(adj, q) && |q| >= 2 && q[0] == k && q[|q| - 1] == j && Weight(adj, q) == w2;
    WeightJoin(adj, p, q);
    var r := p + q[1..];
    assert r[0] == i && r[|r| - 1] == j;
  }

  /** One step of the first pass at (k, i, j) keeps the entries sound, below the input, and in progress. */
  lemma Relax(adj: seq<seq<int>>, dp: seq<seq<int>>, n: int, k: int, i: int, j: int, dp': seq<seq<int>>)
    requires Square(adj, n) && Square(dp, n) && 0 <= k < n && 0 <= i < n && 0 <= j < n
    requires Sound(adj, dp, n) && Below(adj, dp, n) && Progress(adj, dp, n, k, i, j)
    requires dp' == if dp[i][k] < INF && dp[k][j] < INF then dp[i := dp[i][j := Min(dp[i][j], dp[i][k] + dp[k][j])]] else dp
    ensures Square(dp', n) && Sound(adj, dp', n) && Below(adj, dp', n) && Progress(adj, dp', n, k, i, j + 1)
  {
    RelaxSound(adj, dp, n, k, i, j, dp');
    RelaxBound(adj, dp, n, k, i, j, dp');
  }

  /** A step of the first pass keeps every finite entry the weight of a walk, and no entry above the input's. */
  lemma RelaxSound(adj: seq<seq<int>>, dp: seq<seq<int>>, n: int, k: int, i: int, j: int, dp': seq<seq<int>>)
    requires Square(adj, n) && Square(dp, n) && 0 <= k < n && 0 <= i < n && 0 <= j < n
    requires Sound(adj, dp, n) && Below(adj, dp, n)
    requires dp' == if dp[i][k] < INF && dp[k][j] < INF then dp[i := dp[i][j := Min(dp[i][j], dp[i][k] + dp[k][j])]] else dp
    ensures Square(dp', n) && Sound(adj, dp', n) && Below(adj, dp', n)
  {
    if dp[i][k] < INF && dp[k][j] < INF {
      var x := Min(dp[i][j], dp[i][k] + dp[k][j]);
      if x < dp[i][j] {
        JoinPaths(adj, i, k, j, dp[i][k], dp[k][j]);
      }
      Assign(adj, dp, n, i, j, x, dp');
    }
  }

  /** Lowering entry (i, j) to x, the weight of a walk when finite, keeps the entries sound and below the input's. */
  lemma Assign(adj: seq<seq<int>>, dp: seq<seq<int>>, n: int, i: int, j: int, x: int, dp': seq<seq<int>>)
    requires Square(adj, n) && Square(dp, n) && 0 <= i < n && 0 <= j < n
    requires Sound(adj, dp, n) && Below(adj, dp, n)
    requires x <= dp[i][j] && (x < INF ==> Path(adj, i, j, x)) && dp' == dp[i := dp[i][j := x]]
    ensures Square(dp', n) && Sound(adj, dp', n) && Below(adj, dp', n)
  {
    forall a, b | 0 <= a < n && 0 <= b < n && dp'[a][b] < INF
      ensures Path(adj, a, b, dp'[a][b])
    {
      if a != i || b != j {
        assert dp'[a][b] == dp[a][b];
      }
    }
  }

  /** A step of the first pass brings entry (i, j) to the recurrence at k + 1. */
  lemma RelaxBound(adj: seq<seq<int>>, dp: seq<seq<int>>, n: int, k: int, i: int, j: int, dp': seq<seq<int>>)
    requires Square(adj, n) && Square(dp, n) && 0 <= k < n && 0 <= i < n && 0 <= j < n
    requires Progress(adj, dp, n, k, i, j)
    requires dp' == if dp[i][k] < INF && dp[k][j] < INF then dp[i := dp[i][j := Min(dp[i][j], dp[i][k] + dp[k][j])]] else dp
    ensures Square(dp', n) && Progress(adj, dp', n, k, i, j + 1)
  {
    BestStep(adj, k, i, k);
    BestStep(adj, k, k, j);
    BestStep(adj, k, i, j);
    assert dp[i][k] <= Best(adj, k, i, k);
    assert dp[k][j] <= Best(adj, k, k, j);
    assert dp[i][j] <= Best(adj, k, i, j);
    assert dp'[i][j] <= Best(adj, k + 1, i, j);
    forall a, b | 0 <= a < n && 0 <= b < n
      ensures dp'[a][b] <= if a < i || (a == i && b < j + 1) then Best(adj, k + 1, a, b) else Best(adj, k, a, b)
    {
      if a != i || b != j {
        assert dp'[a][b] == dp[a][b];
      }
    }
  }

  /** The state of the first pass's innermost loop. */
  ghost predicate Relaxing(adj: seq<seq<int>>, dp: seq<seq<int>>, n: int, k: int, i: int, j: int)
    requires Square(adj, n) && 0 <= k < n
  {
    Square(dp, n) && Sound(adj, dp, n) && Below(adj, dp, n) && Progress(adj, dp, n, k, i, j)
  }

  /** A finished row starts the next one. */
  lemma NextRow(adj: seq<seq<int>>, dp: seq<seq<int>>, n: int, k: int, i: int)
    requires Square(adj, n) && 0 <= k < n && Relaxing(adj, dp, n, k, i, n)
    ensures Relaxing(adj, dp, n, k, i + 1, 0)
  {
  }

  /** The state of the first pass between rounds: k rounds are done. */
  ghost predicate Rounds(adj: seq<seq<int>>, dp: seq<seq<int>>, n: int, k: int)
    requires Square(adj, n) && 0 <= k <= n
  {
    Square(dp, n) && Sound(adj, dp, n) && Below(adj, dp, n) && Relaxed(adj, dp, n, k)
  }

  /** A round begins with nothing processed. */
  lemma RoundBegins(adj: seq<seq<int>>, dp: seq<seq<int>>, n: int, k: int)
    requires Square(adj, n) && 0 <= k < n && Rounds(adj, dp, n, k)
    ensures Relaxing(adj, dp, n, k, 0, 0)
  {
  }

  /** A finished round is sound, below the input, and at most the recurrence at k + 1. */
  lemma RoundEnds(adj: seq<seq<int>>, dp: seq<seq<int>>, n: int, k: int)
    requires Square(adj, n) && 0 <= k < n && Relaxing(adj, dp, n, k, n, 0)
    ensures Rounds(adj, dp, n, k + 1)
  {
  }

  /** The entries of the first pass: sound, below the input, and at most the full recurrence. */
  ghost predicate Phase1(adj: seq<seq<int>>, p1: seq<seq<int>>, n: int)
  {
    Square(adj, n) && Square(p1, n) && Sound(adj, p1, n) && Below(adj, p1, n) && Relaxed(adj, p1, n, n)
  }

  /** The first pass marks (a, b) through k: a reaches k, k reaches b, and k's entry is negative. */
  predicate Guard(p1: seq<seq<int>>, n: int, k: int, a: int, b: int)
    requires Square(p1, n) && 0 <= k < n && 0 <= a < n && 0 <= b < n
  {
    p1[a][k] < INF && p1[k][b] < INF && p1[k][k] < 0
  }

  /** Each entry is its first-pass value, or -INF with the pair unbounded. */
  ghost predicate Marking(adj: seq<seq<int>>, p1: seq<seq<int>>, dp: seq<seq<int>>, n: int)
    requires Square(p1, n) && Square(dp, n)
  {
    forall a, b :: 0 <= a < n && 0 <= b < n ==>
      dp[a][b] == p1[a][b] || (dp[a][b] == -INF && Unbounded(adj, a, b))
  }

  /** Every pair guarded through a k processed before (k, i, j) is marked. */
  ghost predicate Propagated(p1: seq<seq<int>>, dp: seq<seq<int>>, n: int, k: int, i: int, j: int)
    requires Square(p1, n) && Square(dp, n)
  {
    forall k', a, b ::
      (0 <= k' < n && 0 <= a < n && 0 <= b < n && Guard(p1, n, k', a, b) &&
       (k' < k || (k' == k && (a < i || (a == i && b < j))))) ==> dp[a][b] == -INF
  }

  /** The state of the second pass's innermost loop. */
  ghost predicate Marking2(adj: seq<seq<int>>, p1: seq<seq<int>>, dp: seq<seq<int>>, n: int, k: int, i: int, j: int)
  {
    Phase1(adj, p1, n) && Square(dp, n) && Marking(adj, p1, dp, n) && Propagated(p1, dp, n, k, i, j)
  }

  /** An entry below INF in the second pass joins its ends by a walk. */
  lemma Finite(adj: seq<seq<int>>, p1: seq<seq<int>>, dp: seq<seq<int>>, n: int, a: int, b: int)
    requires Phase1(adj, p1, n) && Square(dp, n) && Marking(adj, p1, dp, n)
    requires 0 <= a < n && 0 <= b < n && dp[a][b] < INF
    ensures Reach(adj, a, b)
  {
    if dp[a][b] == p1[a][b] {
      PathReach(adj, a, b, p1[a][b]);
    } else {
      var m :| 0 <= m < |adj| && Reach(adj, a, m) && NegCycle(adj, m) && Reach(adj, m, b);
      ReachJoin(adj, a, m, b);
    }
  }

  /** A mark set through k in the second pass is justified: the pair is unbounded. */
  lemma Justified(adj: seq<seq<int>>, p1: seq<seq<int>>, dp: seq<seq<int>>, n: int, k: int, i: int, j: int)
    requires Phase1(adj, p1, n) && Square(dp, n) && Marking(adj, p1, dp, n)
    requires 0 <= k < n && 0 <= i < n && 0 <= j < n
    requires dp[i][k] < INF && dp[k][j] < INF && dp[k][k] < 0
    ensures Unbounded(adj, i, j)
  {
    Finite(adj, p1, dp, n, i, k);
    Finite(adj, p1, dp, n, k, j);
    if dp[k][k] == p1[k][k] {
      Through(adj, i, k, j, p1[k][k]);
    } else {
      var m :| 0 <= m < |adj| && Reach(adj, k, m) && NegCycle(adj, m) && Reach(adj, m, k);
      ReachJoin(adj, i, k, m);
      ReachJoin(adj, m, k, j);
    }
  }

  /** One step of the second pass at (k, i, j) keeps every entry justified and marks the pairs guarded so far. */
  lemma Mark(adj: seq<seq<int>>, p1: seq<seq<int>>, dp: seq<seq<int>>, n: int, k: int, i: int, j: int, dp': seq<seq<int>>)
    requires Marking2(adj, p1, dp, n, k, i, j) && 0 <= k < n && 0 <= i < n && 0 <= j < n
    requires dp' == if dp[i][k] < INF && dp[k][j] < INF && dp[k][k] < 0 then dp[i := dp[i][j := -INF]] else dp
    ensures Marking2(adj, p1, dp', n, k, i, j + 1)
  {
    MarkKeeps(adj, p1, dp, n, k, i, j, dp');
    assert dp[i][k] == p1[i][k] || dp[i][k] == -INF;
    assert dp[k][j] == p1[k][j] || dp[k][j] == -INF;
    assert dp[k][k] == p1[k][k] || dp[k][k] == -INF;
    MarkSpreads(p1, dp, n, k, i, j, dp');
  }

  /** A step of the second pass leaves every entry its first-pass value or a justified -INF. */
  lemma MarkKeeps(adj: seq<seq<int>>, p1: seq<seq<int>>, dp: seq<seq<int>>, n: int, k: int, i: int, j: int, dp': seq<seq<int>>)
    requires Phase1(adj, p1, n) && Square(dp, n) && Marking(adj, p1, dp, n) && 0 <= k < n && 0 <= i < n && 0 <= j < n
    requires dp' == if dp[i][k] < INF && dp[k][j] < INF && dp[k][k] < 0 then dp[i := dp[i][j := -INF]] else dp
    ensures Square(dp', n) && Marking(adj, p1, dp', n)
  {
    if dp[i][k] < INF && dp[k][j] < INF && dp[k][k] < 0 {
      Justified(adj, p1, dp, n, k, i, j);
      forall a, b | 0 <= a < n && 0 <= b < n
        ensures dp'[a][b] == p1[a][b] || (dp'[a][b] == -INF && Unbounded(adj, a, b))
      {
        if a != i || b != j {
          assert dp'[a][b] == dp[a][b];
        }
      }
    }
  }

  /** A step of the second pass keeps the marks made so far and makes the one guarded at (k, i, j). */
  lemma MarkSpreads(p1: seq<seq<int>>, dp: seq<seq<int>>, n: int, k: int, i: int, j: int, dp': seq<seq<int>>)
    requires Square(p1, n) && Square(dp, n) && 0 <= k < n && 0 <= i < n && 0 <= j < n
    requires dp[i][k] == p1[i][k] || dp[i][k] == -INF
    requires dp[k][j] == p1[k][j] || dp[k][j] == -INF
    requires dp[k][k] == p1[k][k] || dp[k][k] == -INF
    requires Propagated(p1, dp, n, k, i, j)
    requires dp' == if dp[i][k] < INF && dp[k][j] < INF && dp[k][k] < 0 then dp[i := dp[i][j := -INF]] else dp
    ensures Square(dp', n) && Propagated(p1, dp', n, k, i, j + 1)
  {
    if dp[i][k] < INF && dp[k][j] < INF && dp[k][k] < 0 {
      Spread(p1, dp, n, k, i, j, dp');
    } else {
      assert !Guard(p1, n, k, i, j);
    }
  }

  /** Setting entry (i, j) to -INF keeps the marks made before (k, i, j) and makes the one there. */
  lemma Spread(p1: seq<seq<int>>, dp: seq<seq<int>>, n: int, k: int, i: int, j: int, dp': seq<seq<int>>)
    requires Square(p1, n) && Square(dp, n) && 0 <= k < n && 0 <= i < n && 0 <= j < n
    requires Propagated(p1, dp, n, k, i, j) && dp' == dp[i := dp[i][j := -INF]]
    ensures Square(dp', n) && Propagated(p1, dp', n, k, i, j + 1)
  {
    forall k', a, b | 0 <= k' < n && 0 <= a < n && 0 <= b < n && Guard(p1, n, k', a, b) &&
      (k' < k || (k' == k && (a < i || (a == i && b < j + 1))))
      ensures dp'[a][b] == -INF
    {
      if a != i || b != j {
        assert dp[a][b] == -INF;
      }
    }
  }

  /**
   * APSP(adj, n): Floyd-Warshall on a copy of adj, then the negative-cycle pass. p1 is the
   * matrix between the two passes: each finite entry is the weight of a walk, no entry is
   * above the input's, and each is at most the recurrence (see Optimal). The result keeps
   * p1's entries except those set to -INF, each of which is unbounded, and every pair
   * guarded through some k is set to -INF.
   */
  method APSP(adj: seq<seq<int>>, n: int) returns (dp: seq<seq<int>>, ghost p1: seq<seq<int>>)
    requires Square(adj, n)
    ensures Phase1(adj, p1, n) && Square(dp, n)
    ensures Marking(adj, p1, dp, n) && Propagated(p1, dp, n, n, 0, 0)
  {
    var relaxed := Relaxation(adj, n);
    p1 := relaxed;
    dp := NegativeCycles(adj, relaxed, n);
  }

  /** The first pass of APSP: relax every pair through k = 0, 1, ..., n - 1 in turn, row by row. */
  method Relaxation(adj: seq<seq<int>>, n: int) returns (dp: seq<seq<int>>)
    requires Square(adj, n)
    ensures Phase1(adj, dp, n)
  {
    dp := adj;
    Start(adj, n);
    for k := 0 to n
      invariant Rounds(adj, dp, n, k)
    {
      RoundBegins(adj, dp, n, k);
      for i := 0 to n
        invariant Relaxing(adj, dp, n, k, i, 0)
      {
        for j := 0 to n
          invariant Relaxing(adj, dp, n, k, i, j)
        {
          ghost var dp0 := dp;
          if dp[i][k] < INF && dp[k][j] < INF {
            dp := dp[i := dp[i][j := Min(dp[i][j], dp[i][k] + dp[k][j])]];
          }
          Relax(adj, dp0, n, k, i, j, dp);
        }
        NextRow(adj, dp, n, k, i);
      }
      RoundEnds(adj, dp, n, k);
    }
  }

  /** The second pass of APSP: set (i, j) to -INF whenever i reaches k, k reaches j, and k's entry is negative. */
  method NegativeCycles(adj: seq<seq<int>>, p1: seq<seq<int>>, n: int) returns (dp: seq<seq<int>>)
    requires Phase1(adj, p1, n)
    ensures Square(dp, n) && Marking(adj, p1, dp, n) && Propagated(p1, dp, n, n, 0, 0)
  {
    dp := p1;
    for k := 0 to n
      invariant Marking2(adj, p1, dp, n, k, 0, 0)
    {
      for i := 0 to n
        invariant Marking2(adj, p1, dp, n, k, i, 0)
      {
        for j := 0 to n
          invariant Marking2(adj, p1, dp, n, k, i, j)
        {
          ghost var dp0 := dp;
          if dp[i][k] < INF && dp[k][j] < INF && dp[k][k] < 0 {
            dp := dp[i := dp[i][j := -INF]];
          }
          Mark(adj, p1, dp0, n, k, i, j, dp);
        }
      }
    }
  }

  /**
   * The first pass is optimal over simple paths: every simple path of at least one edge
   * whose partial sums fit weighs at least the entry for its ends.
   */
  lemma Optimal(adj: seq<seq<int>>, p1: seq<seq<int>>, n: int, p: seq<int>)
    requires Phase1(adj, p1, n) && Walk(adj, p) && |p| >= 2 && Simple(p) && Fits(adj, p)
    ensures p1[p[0]][p[|p| - 1]] <= Weight(adj, p)
  {
    assert Inner(p, n);
    BestBound(adj, n, p);
  }

  /** The first pass joins the ends of every simple path that fits: their entry is below INF. */
  lemma Joined(adj: seq<seq<int>>, p1: seq<seq<int>>, n: int, p: seq<int>)
    requires Phase1(adj, p1, n) && Walk(adj, p) && |p| >= 2 && Simple(p) && Fits(adj, p)
    ensures p1[p[0]][p[|p| - 1]] < INF
  {
    Optimal(adj, p1, n, p);
    assert PartFits(adj, p, 0, |p| - 1);
    assert p[0..|p|] == p;
  }

  /**
   * With no negative closed walk anywhere, nothing is set to -INF, and every finite entry
   * is the weight of a walk and at most the weight of every simple path that fits.
   */
  lemma NoNegativeCycle(adj: seq<seq<int>>, p1: seq<seq<int>>, dp: seq<seq<int>>, n: int)
    requires Phase1(adj, p1, n) && Square(dp, n) && Marking(adj, p1, dp, n)
    requires forall m :: 0 <= m < n ==> !NegCycle(adj, m)
    ensures dp == p1
  {
    forall a | 0 <= a < n
      ensures dp[a] == p1[a]
    {
      forall b | 0 <= b < n
        ensures dp[a][b] == p1[a][b]
      {
      }
    }
  }

  /**
   * A simple negative cycle through k that fits marks every pair (i, j) that reaches k and
   * is reached from k along simple paths that fit.
   */
  lemma CycleMarks(adj: seq<seq<int>>, p1: seq<seq<int>>, dp: seq<seq<int>>, n: int,
                   k: int, i: int, j: int, c: seq<int>, p: seq<int>, q: seq<int>)
    requires Phase1(adj, p1, n) && Square(dp, n) && Propagated(p1, dp, n, n, 0, 0)
    requires 0 <= k < n && 0 <= i < n && 0 <= j < n
    requires Walk(adj, c) && |c| >= 2 && Simple(c) && Fits(adj, c) && c[0] == k && c[|c| - 1] == k && Weight(adj, c) < 0
    requires i == k || (Walk(adj, p) && |p| >= 2 && Simple(p) && Fits(adj, p) && p[0] == i && p[|p| - 1] == k)
    requires j == k || (Walk(adj, q) && |q| >= 2 && Simple(q) && Fits(adj, q) && q[0] == k && q[|q| - 1] == j)
    ensures dp[i][j] == -INF
  {
    Optimal(adj, p1, n, c);
    if i != k {
      Joined(adj, p1, n, p);
    }
    if j != k {
      Joined(adj, p1, n, q);
    }
    assert Guard(p1, n, k, i, j);
  }
}
