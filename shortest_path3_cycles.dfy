/**
 * What phase two of shortest_path is for: every vertex that a negative cycle reached from
 * the start can reach has no least distance, and should end at -INF.
 *
 * The first pass of phase two marks a vertex of the cycle, and each further pass carries
 * the mark one edge further along any walk, so the marks need n passes in all to cover
 * every vertex within n - 1 edges of the cycle. shortest_path runs n - 1 passes, and
 * MissedCycle shows a vertex left finite; with n passes, NegativeCycleMarked proves every
 * such vertex marked.
 *
 * Conversely, MarkedFromCycle shows that, from the caller's vector of 0 at the start and
 * INF elsewhere, no pass count marks a vertex that no negative cycle leads to; and with n
 * passes LeastCorrected shows each remaining finite distance is the least weight.
 */
module ShortestPath3Cycles {
  import opened ShortestPath3

  // ---------------------------------------------------------------------------
  // Connections and cycles.

  /** Some walk leads from a to b. */
  ghost predicate Connected(edges: seq<Edge>, n: int, a: int, b: int)
  {
    exists q, es :: Walk(edges, n, q, es) && q[0] == a && q[|q| - 1] == b
  }

  /** Some closed walk through c has negative weight. */
  ghost predicate NegativeCycle(edges: seq<Edge>, n: int, c: int)
  {
    exists q, es :: Walk(edges, n, q, es) && q[0] == c && q[|q| - 1] == c && Weight(es) < 0
  }

  /**
   * No walk of fewer than n edges weighs INF or more, or -INF or less: the 32-bit sums of
   * the source stay exact along every simple path.
   */
  ghost predicate NoOverflow(edges: seq<Edge>, n: int)
  {
    forall q, es :: Walk(edges, n, q, es) && |es| < n ==> -INF < Weight(es) < INF
  }

  /** A walk to b followed by a walk from b is a walk. */
  lemma Join(edges: seq<Edge>, n: int, q1: seq<int>, es1: seq<Edge>, q2: seq<int>, es2: seq<Edge>)
    requires Walk(edges, n, q1, es1) && Walk(edges, n, q2, es2) && q1[|q1| - 1] == q2[0]
    ensures Walk(edges, n, q1 + q2[1..], es1 + es2)
  {
    var q, es := q1 + q2[1..], es1 + es2;
    forall t | 0 <= t < |es|
      ensures es[t] in edges && es[t].u == q[t] && es[t].v == q[t + 1]
    {
      if t < |es1| {
        assert es[t] == es1[t];
      } else {
        assert es[t] == es2[t - |es1|];
      }
    }
  }

  /** The part of a walk between its positions a and b is a walk. */
  lemma Part(edges: seq<Edge>, n: int, q: seq<int>, es: seq<Edge>, a: int, b: int)
    requires Walk(edges, n, q, es) && 0 <= a <= b <= |es|
    ensures Walk(edges, n, q[a..b + 1], es[a..b])
  {
    forall t | 0 <= t < b - a
      ensures es[a..b][t] in edges && es[a..b][t].u == q[a..b + 1][t] && es[a..b][t].v == q[a..b + 1][t + 1]
    {
      assert es[a..b][t] == es[a + t];
    }
  }

  // ---------------------------------------------------------------------------
  // Short walks.

  /** Among more than n vertices below n, two are the same. */
  lemma {:induction false} Pigeonhole(q: seq<int>, n: int) returns (i: int, j: int)
    requires n >= 1 && |q| > n && forall t :: 0 <= t < |q| ==> 0 <= q[t] < n
    ensures 0 <= i < j < |q| && q[i] == q[j]
    decreases n
  {
    var last := q[|q| - 1];
    if n == 1 {
      i, j := 0, 1;
    } else if exists k :: 0 <= k < |q| - 1 && q[k] == last {
      var k :| 0 <= k < |q| - 1 && q[k] == last;
      i, j := k, |q| - 1;
    } else {
      var r := seq(|q| - 1, t requires 0 <= t < |q| - 1 => if q[t] > last then q[t] - 1 else q[t]);
      forall t | 0 <= t < |r|
        ensures 0 <= r[t] < n - 1
      {
        assert q[t] != last;
      }
      i, j := Pigeonhole(r, n - 1);
      assert q[i] != last && q[j] != last;
    }
  }

  /** Any walk can be cut to one between the same ends with fewer than n edges. */
  lemma {:induction false} Shorten(edges: seq<Edge>, n: int, q: seq<int>, es: seq<Edge>) returns (q': seq<int>, es': seq<Edge>)
    requires n >= 1 && Walk(edges, n, q, es)
    ensures Walk(edges, n, q', es') && q'[0] == q[0] && q'[|q'| - 1] == q[|q| - 1] && |es'| < n
    decreases |es|
  {
    if |es| < n {
      q', es' := q, es;
    } else {
      var i, j := Pigeonhole(q, n);
      Part(edges, n, q, es, 0, i);
      Part(edges, n, q, es, j, |es|);
      assert q[..i + 1][i] == q[j..|es| + 1][0];
      Join(edges, n, q[..i + 1], es[..i], q[j..|es| + 1], es[j..]);
      var q1, es1 := q[..i + 1] + q[j..|es| + 1][1..], es[..i] + es[j..];
      assert q1[0] == q[0] && q1[|q1| - 1] == q[|q| - 1];
      q', es' := Shorten(edges, n, q1, es1);
    }
  }

  // ---------------------------------------------------------------------------
  // Passes only lower distances; marking only marks.

  /** d' agrees with d except where it is -INF. */
  predicate MarkOnly(d': seq<int>, d: seq<int>)
    requires |d'| == |d|
  {
    forall x :: 0 <= x < |d| ==> d'[x] == d[x] || d'[x] == -INF
  }

  /**
   * A sweep keeps distances in range and never raises one; a marking sweep only sets
   * -INF; once changed, a sweep stays changed, and a sweep that ends unchanged left the
   * distances alone.
   */
  lemma {:induction false} SweepLower(es: seq<Edge>, s: State, marking: bool)
    requires Targets(es, |s.d|) && |s.p| == |s.d| && InRange(s.d)
    ensures InRange(Sweep(es, s, marking).d) && Below(Sweep(es, s, marking).d, s.d)
    ensures marking ==> MarkOnly(Sweep(es, s, marking).d, s.d)
    ensures s.changed ==> Sweep(es, s, marking).changed
    ensures !Sweep(es, s, marking).changed ==> Sweep(es, s, marking).d == s.d
    decreases |es|
  {
    if es != [] {
      SweepLower(es[..|es| - 1], s, marking);
    }
  }

  /** Passes keep distances in range and never raise one. */
  lemma {:induction false} PassesLower(edges: seq<Edge>, d: seq<int>, p: seq<int>, i: int, marking: bool)
    requires Targets(edges, |d|) && |p| == |d| && InRange(d)
    ensures InRange(Passes(edges, d, p, i, marking).d) && Below(Passes(edges, d, p, i, marking).d, d)
    decreases i
  {
    if i > 0 {
      var s := Sweep(edges, State(d, p, false), marking);
      SweepLower(edges, State(d, p, false), marking);
      if s.changed {
        PassesLower(edges, s.d, s.p, i - 1, marking);
      }
    }
  }

  // ---------------------------------------------------------------------------
  // Phase one: after k passes, every walk of at most k edges is accounted for.

  /** Each partial sum of es, from c, lies between -INF and INF, INF excluded. */
  ghost predicate Fits(c: int, es: seq<Edge>)
  {
    forall j :: 0 <= j <= |es| ==> -INF <= c + Weight(es[..j]) < INF
  }

  /** q is a walk of at most k edges from a source s whose partial sums from d0[s] fit. */
  ghost predicate Candidate(edges: seq<Edge>, n: int, d0: seq<int>, q: seq<int>, ws: seq<Edge>, k: int)
  {
    |d0| == n && Walk(edges, n, q, ws) && |ws| <= k && d0[q[0]] < INF && Fits(d0[q[0]], ws)
  }

  /** The distance at the end of walk q is at most d0 at its start plus its weight. */
  ghost predicate Tight(d0: seq<int>, d: seq<int>, q: seq<int>, ws: seq<Edge>)
  {
    |q| >= 1 && 0 <= q[0] < |d0| && 0 <= q[|q| - 1] < |d| && d[q[|q| - 1]] <= d0[q[0]] + Weight(ws)
  }

  /** Every candidate walk of at most k edges is tight. */
  ghost predicate Bounded(edges: seq<Edge>, n: int, d0: seq<int>, d: seq<int>, k: int)
  {
    |d0| == n && |d| == n &&
    forall q, ws :: Candidate(edges, n, d0, q, ws, k) ==> Tight(d0, d, q, ws)
  }

  /** Before any pass, the walks of no edges are accounted for. */
  lemma Initially(edges: seq<Edge>, n: int, d0: seq<int>)
    requires |d0| == n
    ensures Bounded(edges, n, d0, d0, 0)
  {
    forall q, ws | Candidate(edges, n, d0, q, ws, 0)
      ensures Tight(d0, d0, q, ws)
    {
      assert |q| == 1;
    }
  }

  /** Relaxing the last edge of a candidate walk whose prefix is tight makes the walk tight. */
  lemma RelaxLast(edges: seq<Edge>, n: int, d0: seq<int>, m: State, q: seq<int>, ws: seq<Edge>, k: int)
    requires Targets(edges, n) && Sized(m, n) && InRange(m.d)
    requires Candidate(edges, n, d0, q, ws, k + 1) && |ws| >= 1
    requires Tight(d0, m.d, q[..|q| - 1], ws[..|ws| - 1])
    ensures Tight(d0, Relax(ws[|ws| - 1], m).d, q, ws)
  {
    assert ws[..|ws|] == ws;
    assert -INF <= d0[q[0]] + Weight(ws) < INF;
    assert ws[|ws| - 1].u == q[|q| - 2] && ws[|ws| - 1].v == q[|q| - 1];
  }

  /** The prefix of a candidate walk without its last edge is a candidate walk. */
  lemma Shorter(edges: seq<Edge>, n: int, d0: seq<int>, q: seq<int>, ws: seq<Edge>, k: int)
    requires Candidate(edges, n, d0, q, ws, k + 1) && |ws| >= 1
    ensures Candidate(edges, n, d0, q[..|q| - 1], ws[..|ws| - 1], k)
  {
    Part(edges, n, q, ws, 0, |ws| - 1);
    assert q[0..|ws|] == q[..|q| - 1] && ws[0..|ws| - 1] == ws[..|ws| - 1];
    var ws' := ws[..|ws| - 1];
    forall j | 0 <= j <= |ws'|
      ensures -INF <= d0[q[0]] + Weight(ws'[..j]) < INF
    {
      assert ws'[..j] == ws[..j];
    }
  }

  /** The last edge of ws, when it has one, is among es. */
  predicate LastIn(ws: seq<Edge>, es: seq<Edge>)
  {
    |ws| >= 1 && ws[|ws| - 1] in es
  }

  /**
   * A sweep over es, from a state accounting for walks of k edges, accounts for the walks
   * of k + 1 edges whose last edge it passed.
   */
  lemma {:induction false} SweepBound(edges: seq<Edge>, n: int, d0: seq<int>, es: seq<Edge>, s: State, k: int)
    requires Targets(edges, n) && Targets(es, n) && Sized(s, n) && InRange(s.d)
    requires Bounded(edges, n, d0, s.d, k)
    ensures forall q, ws :: Candidate(edges, n, d0, q, ws, k + 1) && (|ws| <= k || LastIn(ws, es)) ==>
              Tight(d0, Sweep(es, s, false).d, q, ws)
    decreases |es|
  {
    SweepLower(es, s, false);
    if es != [] {
      var es0, e := es[..|es| - 1], es[|es| - 1];
      SweepBound(edges, n, d0, es0, s, k);
      SweepLower(es0, s, false);
      var m := Sweep(es0, s, false);
      forall q, ws | Candidate(edges, n, d0, q, ws, k + 1) && (|ws| <= k || LastIn(ws, es))
        ensures Tight(d0, Relax(e, m).d, q, ws)
      {
        if |ws| <= k || LastIn(ws, es0) {
          assert Tight(d0, m.d, q, ws);
        } else {
          Shorter(edges, n, d0, q, ws, k);
          RelaxLast(edges, n, d0, m, q, ws, k);
        }
      }
    }
  }

  /** A pass over all edges from a state accounting for walks of k edges accounts for walks of k + 1. */
  lemma PassBound(edges: seq<Edge>, n: int, d0: seq<int>, s: State, k: int)
    requires k >= 0 && Targets(edges, n) && Sized(s, n) && InRange(s.d) && Bounded(edges, n, d0, s.d, k)
    ensures Bounded(edges, n, d0, Sweep(edges, s, false).d, k + 1)
  {
    SweepBound(edges, n, d0, edges, s, k);
    forall q, ws | Candidate(edges, n, d0, q, ws, k + 1)
      ensures Tight(d0, Sweep(edges, s, false).d, q, ws)
    {
      if |ws| > k {
        assert ws[|ws| - 1] in edges;
      }
    }
  }

  /**
   * From a state accounting for walks of k edges, phase one's passes either end without
   * change or account for walks of k + i edges.
   */
  lemma {:induction false} PassesBound(edges: seq<Edge>, n: int, d0: seq<int>, d: seq<int>, p: seq<int>, i: int, k: int)
    requires k >= 0 && Targets(edges, n) && |d| == n && |p| == n && InRange(d) && Bounded(edges, n, d0, d, k)
    ensures Passes(edges, d, p, i, false).changed ==> Bounded(edges, n, d0, Passes(edges, d, p, i, false).d, k + Max(i, 0))
    decreases i
  {
    if i > 0 {
      var s := Sweep(edges, State(d, p, false), false);
      PassBound(edges, n, d0, State(d, p, false), k);
      SweepLower(edges, State(d, p, false), false);
      if s.changed {
        PassesBound(edges, n, d0, s.d, s.p, i - 1, k + 1);
      }
    }
  }

  /** Phase one ends changed, or at a state where no edge can still relax. */
  lemma Settles(edges: seq<Edge>, d0: seq<int>, n: int)
    requires n >= 0 && |d0| == n && Targets(edges, n)
    ensures PhaseOne(edges, d0, n).changed || Fixed(edges, PhaseOne(edges, d0, n).d)
  {
    if !PhaseOne(edges, d0, n).changed {
      PassesFixed(edges, d0, Zeros(n), n - 1);
    }
  }

  /** A walk from the start of fewer than n edges, with no overflow, is a candidate walk of n - 1 edges. */
  lemma Simple(edges: seq<Edge>, d0: seq<int>, n: int, start: int, q: seq<int>, es: seq<Edge>)
    requires n >= 1 && |d0| == n && 0 <= start < n && d0[start] == 0 && NoOverflow(edges, n)
    requires Walk(edges, n, q, es) && q[0] == start && |es| < n
    ensures Candidate(edges, n, d0, q, es, n - 1) && -INF < Weight(es) < INF
  {
    forall j | 0 <= j <= |es|
      ensures -INF <= d0[q[0]] + Weight(es[..j]) < INF
    {
      Part(edges, n, q, es, 0, j);
      assert es[0..j] == es[..j];
    }
  }

  /**
   * After phase one from d0 with d0[start] = 0 and no overflow, every vertex connected to
   * the start is below INF.
   */
  lemma PhaseOneReaches(edges: seq<Edge>, d0: seq<int>, n: int, start: int, y: int)
    requires n >= 1 && |d0| == n && Targets(edges, n) && InRange(d0) && 0 <= start < n && d0[start] == 0
    requires NoOverflow(edges, n) && Connected(edges, n, start, y)
    ensures PhaseOne(edges, d0, n).d[y] < INF
  {
    var q0, es0 :| Walk(edges, n, q0, es0) && q0[0] == start && q0[|q0| - 1] == y;
    var q, es := Shorten(edges, n, q0, es0);
    Simple(edges, d0, n, start, q, es);
    PhaseOneShort(edges, d0, n, start, q, es);
  }

  /** After phase one, a walk from the start of fewer than n edges weighs at least its end's distance. */
  lemma PhaseOneShort(edges: seq<Edge>, d0: seq<int>, n: int, start: int, q: seq<int>, es: seq<Edge>)
    requires n >= 1 && |d0| == n && Targets(edges, n) && InRange(d0) && 0 <= start < n && d0[start] == 0
    requires NoOverflow(edges, n) && Walk(edges, n, q, es) && q[0] == start && |es| < n
    ensures PhaseOne(edges, d0, n).d[q[|q| - 1]] <= Weight(es)
  {
    var s := PhaseOne(edges, d0, n);
    Simple(edges, d0, n, start, q, es);
    Initially(edges, n, d0);
    PassesLower(edges, d0, Zeros(n), n - 1, false);
    PassesBound(edges, n, d0, d0, Zeros(n), n - 1, 0);
    Settles(edges, d0, n);
    if s.changed {
      assert Tight(d0, s.d, q, es);
    } else {
      FixedFits(edges, n, d0, s.d, q, es);
    }
  }

  /** At a fixed point below d0, a candidate walk is tight. */
  lemma FixedFits(edges: seq<Edge>, n: int, d0: seq<int>, d: seq<int>, q: seq<int>, es: seq<Edge>)
    requires Targets(edges, n) && |d| == n && |d0| == n && Below(d, d0) && Fixed(edges, d)
    requires Candidate(edges, n, d0, q, es, |es|)
    ensures Tight(d0, d, q, es)
  {
    FixedBound(edges, n, d0, d, q, es);
  }

  // ---------------------------------------------------------------------------
  // A negative cycle holds an edge that can still relax.

  /**
   * Along a walk whose vertices are all below INF, either some edge can still relax, or
   * the distance at the end is at most that at the start plus the weight.
   */
  lemma {:induction false} Telescope(edges: seq<Edge>, n: int, d: seq<int>, q: seq<int>, es: seq<Edge>) returns (t: int)
    requires Walk(edges, n, q, es) && |d| == n && forall k :: 0 <= k < |q| ==> d[q[k]] < INF
    ensures (t == |es| && d[q[|q| - 1]] <= d[q[0]] + Weight(es)) ||
            (0 <= t < |es| && d[q[t]] + es[t].w < d[q[t + 1]])
    decreases |es|
  {
    if es == [] {
      t := 0;
    } else {
      var k := |es| - 1;
      Part(edges, n, q, es, 0, k);
      var q', es' := q[0..k + 1], es[0..k];
      assert q'[0] == q[0] && q'[k] == q[k] && es' == es[..k];
      var t0 := Telescope(edges, n, d, q', es');
      if t0 < k {
        assert q'[t0] == q[t0] && q'[t0 + 1] == q[t0 + 1] && es'[t0] == es[t0];
        t := t0;
      } else if d[q[k]] + es[k].w < d[q[k + 1]] {
        t := k;
      } else {
        t := |es|;
      }
    }
  }

  /** On a negative cycle whose vertices are all below INF, some edge can still relax. */
  lemma Unsettled(edges: seq<Edge>, n: int, d: seq<int>, q: seq<int>, es: seq<Edge>) returns (t: int)
    requires Walk(edges, n, q, es) && |d| == n && forall k :: 0 <= k < |q| ==> d[q[k]] < INF
    requires q[0] == q[|q| - 1] && Weight(es) < 0
    ensures 0 <= t < |es| && es[t].u == q[t] && es[t].v == q[t + 1]
    ensures d[q[t]] < INF && d[q[t]] + es[t].w < d[q[t + 1]]
  {
    t := Telescope(edges, n, d, q, es);
  }

  // ---------------------------------------------------------------------------
  // Phase two spreads the marks.

  /** The marking condition of phase two, for one edge. */
  predicate Active(e: Edge, d: seq<int>)
    requires 0 <= e.u < |d| && 0 <= e.v < |d|
  {
    d[e.u] < INF && (d[e.u] == -INF || d[e.u] + e.w < d[e.v])
  }

  /** A marking sweep that passes an edge active at its start marks the edge's target and changes. */
  lemma {:induction false} SweepActive(es: seq<Edge>, s: State, e: Edge)
    requires Targets(es, |s.d|) && |s.p| == |s.d| && InRange(s.d) && !s.changed
    requires e in es && 0 <= e.u < |s.d| && 0 <= e.v < |s.d| && Active(e, s.d)
    ensures Sweep(es, s, true).d[e.v] == -INF && Sweep(es, s, true).changed
    decreases |es|
  {
    var es0 := es[..|es| - 1];
    SweepLower(es0, s, true);
    SweepLower(es, s, true);
    if e in es0 {
      SweepActive(es0, s, e);
    } else {
      assert es[|es| - 1] == e;
      var m := Sweep(es0, s, true);
      if m.d[e.v] == -INF && s.d[e.v] != -INF {
        assert m.d != s.d;
      }
    }
  }

  /** Passes of marking from a -INF vertex mark the end of any walk of at most as many edges. */
  lemma {:induction false} Spread(edges: seq<Edge>, n: int, d: seq<int>, p: seq<int>, i: int, q: seq<int>, es: seq<Edge>)
    requires Targets(edges, n) && |d| == n && |p| == n && InRange(d)
    requires Walk(edges, n, q, es) && d[q[0]] == -INF && |es| <= i
    ensures Passes(edges, d, p, i, true).d[q[|q| - 1]] == -INF
    decreases i
  {
    PassesLower(edges, d, p, i, true);
    if es != [] {
      var s := Sweep(edges, State(d, p, false), true);
      SweepActive(edges, State(d, p, false), es[0]);
      SweepLower(edges, State(d, p, false), true);
      Part(edges, n, q, es, 1, |es|);
      assert q[1..|es| + 1][0] == q[1] && q[1..|es| + 1][|es| - 1] == q[|q| - 1];
      Spread(edges, n, s.d, s.p, i - 1, q[1..|es| + 1], es[1..|es|]);
    }
  }

  // ---------------------------------------------------------------------------
  // Lighter short walks, and where -INF comes from.

  /** The weight of two edge lists one after the other is the sum of their weights. */
  lemma {:induction false} WeightAppend(a: seq<Edge>, b: seq<Edge>)
    ensures Weight(a + b) == Weight(a) + Weight(b)
    decreases |b|
  {
    if b == [] {
      assert a + b == a;
    } else {
      assert (a + b)[..|a + b| - 1] == a + b[..|b| - 1];
      WeightAppend(a, b[..|b| - 1]);
    }
  }

  /** Some negative cycle connected to the start leads to x. */
  ghost predicate Doomed(edges: seq<Edge>, n: int, start: int, x: int)
  {
    exists c :: Connected(edges, n, start, c) && NegativeCycle(edges, n, c) && Connected(edges, n, c, x)
  }

  /** A closed part of a walk, between positions i and j, of negative weight is a negative cycle on the way. */
  lemma Loop(edges: seq<Edge>, n: int, q: seq<int>, es: seq<Edge>, i: int, j: int)
    requires Walk(edges, n, q, es) && 0 <= i < j <= |es| && q[i] == q[j] && Weight(es[i..j]) < 0
    ensures Connected(edges, n, q[0], q[i]) && NegativeCycle(edges, n, q[i]) && Connected(edges, n, q[i], q[|q| - 1])
  {
    Part(edges, n, q, es, 0, i);
    Part(edges, n, q, es, i, j);
    Part(edges, n, q, es, j, |es|);
    assert q[0..i + 1][0] == q[0] && q[0..i + 1][i] == q[i];
    assert q[i..j + 1][0] == q[i] && q[i..j + 1][j - i] == q[i];
    assert q[j..|es| + 1][0] == q[i] && q[j..|es| + 1][|es| - j] == q[|q| - 1];
  }

  /** Taking positions i to j out of es takes their weight out of its weight. */
  lemma CutWeight(es: seq<Edge>, i: int, j: int)
    requires 0 <= i <= j <= |es|
    ensures Weight(es) == Weight(es[..i] + es[j..]) + Weight(es[i..j])
  {
    var a, b, z := es[..i], es[i..j], es[j..];
    assert es == a + b + z;
    WeightAppend(a, b);
    WeightAppend(a + b, z);
    WeightAppend(a, z);
  }

  /** Cutting the closed part between positions i and j out of a walk leaves a walk, lighter by that part's weight. */
  lemma Cut(edges: seq<Edge>, n: int, q: seq<int>, es: seq<Edge>, i: int, j: int) returns (q1: seq<int>, es1: seq<Edge>)
    requires Walk(edges, n, q, es) && 0 <= i < j <= |es| && q[i] == q[j]
    ensures Walk(edges, n, q1, es1) && q1[0] == q[0] && q1[|q1| - 1] == q[|q| - 1]
    ensures |es1| == |es| - (j - i) && Weight(es) == Weight(es1) + Weight(es[i..j])
  {
    Part(edges, n, q, es, 0, i);
    Part(edges, n, q, es, j, |es|);
    assert es[0..i] == es[..i] && es[j..|es|] == es[j..];
    assert q[0..i + 1][i] == q[j..|es| + 1][0];
    Join(edges, n, q[0..i + 1], es[..i], q[j..|es| + 1], es[j..]);
    CutWeight(es, i, j);
    q1, es1 := q[0..i + 1] + q[j..|es| + 1][1..], es[..i] + es[j..];
    assert q1[0] == q[0] && q1[|q1| - 1] == q[|q| - 1];
  }

  /** A walk followed by an edge from its end is a walk. */
  lemma Snoc(edges: seq<Edge>, n: int, q: seq<int>, es: seq<Edge>, e: Edge)
    requires Walk(edges, n, q, es) && e in edges && e.u == q[|q| - 1] && 0 <= e.v < n
    ensures Walk(edges, n, q + [e.v], es + [e]) && (q + [e.v])[0] == q[0] && (q + [e.v])[|q|] == e.v
    ensures Weight(es + [e]) == Weight(es) + e.w
  {
    assert (es + [e])[..|es|] == es;
  }

  /**
   * Any walk can be cut to one between the same ends with fewer than n edges that weighs
   * no more, unless a negative cycle through some c lies on the way from its start to its end.
   */
  lemma {:induction false} Lighten(edges: seq<Edge>, n: int, q: seq<int>, es: seq<Edge>) returns (q': seq<int>, es': seq<Edge>, c: int)
    requires n >= 1 && Walk(edges, n, q, es)
    ensures Walk(edges, n, q', es') && q'[0] == q[0] && q'[|q'| - 1] == q[|q| - 1] && |es'| < n
    ensures Weight(es') <= Weight(es) ||
            (Connected(edges, n, q[0], c) && NegativeCycle(edges, n, c) && Connected(edges, n, c, q[|q| - 1]))
    decreases |es|
  {
    if |es| < n {
      q', es', c := q, es, 0;
    } else {
      var i, j := Pigeonhole(q, n);
      if Weight(es[i..j]) < 0 {
        Loop(edges, n, q, es, i, j);
        c := q[i];
        q', es' := Shorten(edges, n, q, es);
      } else {
        var q1, es1 := Cut(edges, n, q, es, i, j);
        q', es', c := Lighten(edges, n, q1, es1);
      }
    }
  }

  /** A negative cycle connected to the start that leads to e.u leads on to e.v. */
  lemma ExtendDoomed(edges: seq<Edge>, n: int, start: int, e: Edge)
    requires e in edges && 0 <= e.v < n && Doomed(edges, n, start, e.u)
    ensures Doomed(edges, n, start, e.v)
  {
    var c :| Connected(edges, n, start, c) && NegativeCycle(edges, n, c) && Connected(edges, n, c, e.u);
    var q, es :| Walk(edges, n, q, es) && q[0] == c && q[|q| - 1] == e.u;
    Snoc(edges, n, q, es, e);
    var q' := q + [e.v];
    assert q'[0] == c && q'[|q'| - 1] == e.v;
    assert Connected(edges, n, c, e.v);
  }

  /** d0 is 0 at the start and INF everywhere else, as shortest_path's caller sets it. */
  predicate FromStart(d0: seq<int>, start: int)
  {
    0 <= start < |d0| && forall y :: 0 <= y < |d0| ==> d0[y] == (if y == start then 0 else INF)
  }

  /** Every vertex at -INF in d is reached from a negative cycle connected to the start. */
  ghost predicate Explained(edges: seq<Edge>, n: int, start: int, d: seq<int>)
  {
    |d| == n && forall x :: 0 <= x < n && d[x] == -INF ==> Doomed(edges, n, start, x)
  }

  /** After phase one from the start, a walk from the start weighs at most the distance of each vertex below INF. */
  lemma PhaseOneWalk(edges: seq<Edge>, d0: seq<int>, n: int, start: int, y: int) returns (q: seq<int>, es: seq<Edge>)
    requires n >= 1 && |d0| == n && Targets(edges, n) && FromStart(d0, start)
    requires 0 <= y < n && PhaseOne(edges, d0, n).d[y] < INF
    ensures Walk(edges, n, q, es) && q[0] == start && q[|q| - 1] == y && Weight(es) <= PhaseOne(edges, d0, n).d[y]
  {
    var d1 := PhaseOne(edges, d0, n).d;
    assert InRange(d0);
    Start(edges, n, d0);
    PassesSound(edges, n, d0, d0, Zeros(n), n - 1, false);
    assert Upper(edges, n, d0, y, d1[y]);
    q, es :| Walk(edges, n, q, es) && d0[q[0]] < INF && q[|q| - 1] == y && d0[q[0]] + Weight(es) <= d1[y];
    assert d0[q[0]] == (if q[0] == start then 0 else INF);
  }

  /** Without overflow, phase one from the start sets -INF only where a negative cycle leads. */
  lemma PhaseOneExplained(edges: seq<Edge>, d0: seq<int>, n: int, start: int)
    requires n >= 1 && |d0| == n && Targets(edges, n) && FromStart(d0, start) && NoOverflow(edges, n)
    ensures Explained(edges, n, start, PhaseOne(edges, d0, n).d)
  {
    var d1 := PhaseOne(edges, d0, n).d;
    forall x | 0 <= x < n && d1[x] == -INF
      ensures Doomed(edges, n, start, x)
    {
      var q, es := PhaseOneWalk(edges, d0, n, start, x);
      var q', es', c := Lighten(edges, n, q, es);
      assert -INF < Weight(es');
    }
  }

  /**
   * Without overflow, an edge that can still relax after phase one from the start leads
   * to a vertex reached from a negative cycle connected to the start.
   */
  lemma Escape(edges: seq<Edge>, d0: seq<int>, n: int, start: int, e: Edge)
    requires n >= 1 && |d0| == n && Targets(edges, n) && FromStart(d0, start) && NoOverflow(edges, n)
    requires e in edges && 0 <= e.u < n && 0 <= e.v < n
    requires PhaseOne(edges, d0, n).d[e.u] < INF && PhaseOne(edges, d0, n).d[e.u] + e.w < PhaseOne(edges, d0, n).d[e.v]
    ensures Doomed(edges, n, start, e.v)
  {
    var q, es := PhaseOneWalk(edges, d0, n, start, e.u);
    Snoc(edges, n, q, es, e);
    var q', es', c := Lighten(edges, n, q + [e.v], es + [e]);
    PhaseOneShort(edges, d0, n, start, q', es');
  }

  /** Every edge of edges from a vertex of D leads into D. */
  ghost predicate Closed(edges: seq<Edge>, D: set<int>)
  {
    forall k :: 0 <= k < |edges| && edges[k].u in D ==> edges[k].v in D
  }

  /** Every edge that can still relax at d1 leads into D. */
  ghost predicate Escapes(edges: seq<Edge>, d1: seq<int>, D: set<int>)
  {
    Targets(edges, |d1|) &&
    forall k :: 0 <= k < |edges| && d1[edges[k].u] < INF && d1[edges[k].u] + edges[k].w < d1[edges[k].v] ==>
      edges[k].v in D
  }

  /** Every vertex at -INF in d is in D. */
  ghost predicate Within(d: seq<int>, D: set<int>)
  {
    forall x :: 0 <= x < |d| && d[x] == -INF ==> x in D
  }

  /** One marking, from a state that only marked d1, keeps every -INF vertex in D. */
  lemma MarkWithin(edges: seq<Edge>, d1: seq<int>, D: set<int>, e: Edge, s: State)
    requires e in edges && Escapes(edges, d1, D) && Closed(edges, D) && Sized(s, |d1|)
    requires MarkOnly(s.d, d1) && Within(s.d, D)
    ensures MarkOnly(Mark(e, s).d, d1) && Within(Mark(e, s).d, D)
  {
    var k :| 0 <= k < |edges| && edges[k] == e;
    if s.d[e.u] < INF && (s.d[e.u] == -INF || s.d[e.u] + e.w < s.d[e.v]) && s.d[e.u] != -INF && s.d[e.v] != -INF {
      assert s.d[e.u] == d1[e.u] && s.d[e.v] == d1[e.v];
    }
  }

  /** A marking sweep, from a state that only marked d1, keeps every -INF vertex in D. */
  lemma {:induction false} SweepWithin(edges: seq<Edge>, d1: seq<int>, D: set<int>, es: seq<Edge>, s: State)
    requires (forall e :: e in es ==> e in edges) && Targets(es, |d1|) && Escapes(edges, d1, D) && Closed(edges, D)
    requires Sized(s, |d1|) && MarkOnly(s.d, d1) && Within(s.d, D)
    ensures MarkOnly(Sweep(es, s, true).d, d1) && Within(Sweep(es, s, true).d, D)
    decreases |es|
  {
    if es != [] {
      var es', e := es[..|es| - 1], es[|es| - 1];
      assert e in es;
      SweepWithin(edges, d1, D, es', s);
      MarkWithin(edges, d1, D, e, Sweep(es', s, true));
    }
  }

  /** Marking passes, from a state that only marked d1, keep every -INF vertex in D. */
  lemma {:induction false} PassesWithin(edges: seq<Edge>, d1: seq<int>, D: set<int>, d: seq<int>, p: seq<int>, i: int)
    requires Escapes(edges, d1, D) && Closed(edges, D) && |d| == |d1| && |p| == |d1|
    requires MarkOnly(d, d1) && Within(d, D)
    ensures MarkOnly(Passes(edges, d, p, i, true).d, d1) && Within(Passes(edges, d, p, i, true).d, D)
    decreases i
  {
    if i > 0 {
      SweepWithin(edges, d1, D, edges, State(d, p, false));
      var s := Sweep(edges, State(d, p, false), true);
      if s.changed {
        PassesWithin(edges, d1, D, s.d, s.p, i - 1);
      }
    }
  }

  /**
   * From d0 = 0 at the start and INF elsewhere, without overflow, after any number of
   * marking passes every vertex at -INF is reached from a negative cycle connected to the start.
   */
  lemma MarkedFromCycle(edges: seq<Edge>, d0: seq<int>, n: int, start: int, rounds: int)
    requires n >= 1 && |d0| == n && Targets(edges, n) && FromStart(d0, start) && NoOverflow(edges, n)
    ensures Explained(edges, n, start, BellmanFord(edges, d0, n, rounds).d)
  {
    var s := PhaseOne(edges, d0, n);
    PhaseOneExplained(edges, d0, n, start);
    if s.changed {
      var D := set x | 0 <= x < n && Doomed(edges, n, start, x);
      forall k | 0 <= k < |edges| && edges[k].u in D
        ensures edges[k].v in D
      {
        ExtendDoomed(edges, n, start, edges[k]);
      }
      forall k | 0 <= k < |edges| && s.d[edges[k].u] < INF && s.d[edges[k].u] + edges[k].w < s.d[edges[k].v]
        ensures edges[k].v in D
      {
        Escape(edges, d0, n, start, edges[k]);
      }
      PassesWithin(edges, s.d, D, s.d, s.p, rounds);
    }
  }

  // ---------------------------------------------------------------------------
  // The theorem, and the counterexample for n - 1 passes.

  /** Every vertex of a closed walk through c, when c is connected to the start, is below INF after phase one. */
  lemma CycleFinite(edges: seq<Edge>, d0: seq<int>, n: int, start: int, cq: seq<int>, ces: seq<Edge>)
    requires n >= 1 && |d0| == n && Targets(edges, n) && InRange(d0) && 0 <= start < n && d0[start] == 0
    requires NoOverflow(edges, n) && Walk(edges, n, cq, ces) && Connected(edges, n, start, cq[0])
    ensures forall k :: 0 <= k < |cq| ==> PhaseOne(edges, d0, n).d[cq[k]] < INF
  {
    var sq, ses :| Walk(edges, n, sq, ses) && sq[0] == start && sq[|sq| - 1] == cq[0];
    forall k | 0 <= k < |cq|
      ensures PhaseOne(edges, d0, n).d[cq[k]] < INF
    {
      Part(edges, n, cq, ces, 0, k);
      Join(edges, n, sq, ses, cq[0..k + 1], ces[0..k]);
      assert (sq + cq[0..k + 1][1..])[0] == start;
      assert (sq + cq[0..k + 1][1..])[|sq + cq[0..k + 1][1..]| - 1] == cq[k];
      PhaseOneReaches(edges, d0, n, start, cq[k]);
    }
  }

  /**
   * A walk from the target of edge t of a closed walk through c, on to x from c, cut to
   * fewer than n edges.
   */
  lemma Onward(edges: seq<Edge>, n: int, cq: seq<int>, ces: seq<Edge>, t: int, xq: seq<int>, xes: seq<Edge>)
    returns (q: seq<int>, es: seq<Edge>)
    requires n >= 1 && Walk(edges, n, cq, ces) && 0 <= t < |ces| && cq[0] == cq[|cq| - 1]
    requires Walk(edges, n, xq, xes) && xq[0] == cq[0]
    ensures Walk(edges, n, q, es) && q[0] == ces[t].v && q[|q| - 1] == xq[|xq| - 1] && |es| < n
  {
    Part(edges, n, cq, ces, t + 1, |ces|);
    Join(edges, n, cq[t + 1..|ces| + 1], ces[t + 1..|ces|], xq, xes);
    var q1 := cq[t + 1..|ces| + 1] + xq[1..];
    assert q1[0] == cq[t + 1] && q1[|q1| - 1] == xq[|xq| - 1];
    q, es := Shorten(edges, n, q1, ces[t + 1..|ces|] + xes);
  }

  /**
   * With n passes of phase two, every vertex x that a negative cycle through c can reach,
   * where c is connected to the start, ends at -INF; this needs d0[start] = 0 and sums
   * along simple paths that do not overflow.
   */
  lemma NegativeCycleMarked(edges: seq<Edge>, d0: seq<int>, n: int, start: int, c: int, x: int)
    requires n >= 1 && |d0| == n && Targets(edges, n) && InRange(d0) && 0 <= start < n && d0[start] == 0
    requires NoOverflow(edges, n)
    requires Connected(edges, n, start, c) && NegativeCycle(edges, n, c) && Connected(edges, n, c, x)
    ensures BellmanFord(edges, d0, n, n).d[x] == -INF
  {
    var s, q, es := FirstMark(edges, d0, n, start, c, x);
    Spread(edges, n, s.d, s.p, n - 1, q, es);
  }

  /**
   * With n marking passes from d0 = 0 at the start and INF elsewhere, without overflow, a
   * vertex ends at -INF exactly when a negative cycle connected to the start leads to it.
   */
  lemma MarkedIffDoomed(edges: seq<Edge>, d0: seq<int>, n: int, start: int, x: int)
    requires n >= 1 && |d0| == n && Targets(edges, n) && FromStart(d0, start) && NoOverflow(edges, n) && 0 <= x < n
    ensures BellmanFord(edges, d0, n, n).d[x] == -INF <==> Doomed(edges, n, start, x)
  {
    MarkedFromCycle(edges, d0, n, start, n);
    if Doomed(edges, n, start, x) {
      var c :| Connected(edges, n, start, c) && NegativeCycle(edges, n, c) && Connected(edges, n, c, x);
      NegativeCycleMarked(edges, d0, n, start, c, x);
    }
  }

  /**
   * With n marking passes from d0[start] = 0, without overflow, every walk from the start
   * weighs at least its end's distance unless that end is at -INF: the finite distances
   * are the least weights.
   */
  lemma LeastCorrected(edges: seq<Edge>, d0: seq<int>, n: int, start: int, q: seq<int>, es: seq<Edge>)
    requires n >= 1 && |d0| == n && Targets(edges, n) && InRange(d0) && 0 <= start < n && d0[start] == 0
    requires NoOverflow(edges, n) && Walk(edges, n, q, es) && q[0] == start
    ensures BellmanFord(edges, d0, n, n).d[q[|q| - 1]] == -INF || BellmanFord(edges, d0, n, n).d[q[|q| - 1]] <= Weight(es)
  {
    var s := PhaseOne(edges, d0, n);
    var q', es', c := Lighten(edges, n, q, es);
    PassesLower(edges, d0, Zeros(n), n - 1, false);
    if s.changed {
      PassesLower(edges, s.d, s.p, n, true);
    }
    if Weight(es') <= Weight(es) {
      PhaseOneShort(edges, d0, n, start, q', es');
    } else {
      NegativeCycleMarked(edges, d0, n, start, c, q[|q| - 1]);
    }
  }

  /**
   * Under the assumptions of NegativeCycleMarked, the first pass of phase two marks a
   * vertex of the cycle, from which a walk of fewer than n edges leads to x.
   */
  lemma FirstMark(edges: seq<Edge>, d0: seq<int>, n: int, start: int, c: int, x: int)
    returns (s: State, q: seq<int>, es: seq<Edge>)
    requires n >= 1 && |d0| == n && Targets(edges, n) && InRange(d0) && 0 <= start < n && d0[start] == 0
    requires NoOverflow(edges, n)
    requires Connected(edges, n, start, c) && NegativeCycle(edges, n, c) && Connected(edges, n, c, x)
    ensures Sized(s, n) && InRange(s.d) && BellmanFord(edges, d0, n, n) == Passes(edges, s.d, s.p, n - 1, true)
    ensures Walk(edges, n, q, es) && s.d[q[0]] == -INF && q[|q| - 1] == x && |es| <= n - 1
  {
    var s1 := PhaseOne(edges, d0, n);
    PassesLower(edges, d0, Zeros(n), n - 1, false);
    var cq, ces :| Walk(edges, n, cq, ces) && cq[0] == c && cq[|cq| - 1] == c && Weight(ces) < 0;
    CycleFinite(edges, d0, n, start, cq, ces);
    var t := Unsettled(edges, n, s1.d, cq, ces);
    s := MarkFirst(edges, d0, n, ces[t]);
    var xq, xes :| Walk(edges, n, xq, xes) && xq[0] == c && xq[|xq| - 1] == x;
    q, es := Onward(edges, n, cq, ces, t, xq, xes);
  }

  /**
   * An edge that can still relax after phase one makes phase one end changed, and the
   * first pass of phase two marks its target and changes.
   */
  lemma MarkFirst(edges: seq<Edge>, d0: seq<int>, n: int, e: Edge) returns (s: State)
    requires n >= 1 && |d0| == n && Targets(edges, n) && InRange(d0) && e in edges
    requires PhaseOne(edges, d0, n).d[e.u] < INF
    requires PhaseOne(edges, d0, n).d[e.u] + e.w < PhaseOne(edges, d0, n).d[e.v]
    ensures Sized(s, n) && InRange(s.d) && s.d[e.v] == -INF
    ensures BellmanFord(edges, d0, n, n) == Passes(edges, s.d, s.p, n - 1, true)
  {
    var s1 := PhaseOne(edges, d0, n);
    s := Sweep(edges, State(s1.d, s1.p, false), true);
    PassesLower(edges, d0, Zeros(n), n - 1, false);
    var j :| 0 <= j < |edges| && edges[j] == e;
    Settles(edges, d0, n);
    assert !Fixed(edges, s1.d);
    SweepActive(edges, State(s1.d, s1.p, false), e);
    SweepLower(edges, State(s1.d, s1.p, false), true);
  }

  /** The graph of MissedCycle: 1 -> 0 of weight 2, 0 -> 1 of weight 0, and a loop 1 -> 1 of weight -2. */
  const Missed: seq<Edge> := [Edge(1, 0, 2), Edge(0, 1, 0), Edge(1, 1, -2)]

  /** One pass over Missed from s. */
  lemma MissedPass(s: State, marking: bool)
    requires Sized(s, 2)
    ensures Sweep(Missed, s, marking) == Step(Missed[2], Step(Missed[1], Step(Missed[0], s, marking), marking), marking)
  {
    var a := Step(Missed[0], s, marking);
    var b := Step(Missed[1], a, marking);
    assert Missed[..0] == [] && Missed[..1][..0] == [];
    assert Sweep(Missed[..1], s, marking) == a;
    assert Missed[..2][..1] == Missed[..1];
    assert Sweep(Missed[..2], s, marking) == b;
    assert Missed[..3][..2] == Missed[..2] && Missed[..3] == Missed;
  }

  /**
   * From start 0, the loop at 1 is a negative cycle connected to the start, and it reaches
   * 0; yet with the n - 1 = 1 pass of phase two that shortest_path runs, vertex 0 keeps
   * distance 0, while n = 2 passes mark it.
   */
  lemma MissedCycle()
    ensures Connected(Missed, 2, 0, 1) && NegativeCycle(Missed, 2, 1) && Connected(Missed, 2, 1, 0)
    ensures BellmanFord(Missed, [0, INF], 2, 1).d == [0, -INF]
    ensures BellmanFord(Missed, [0, INF], 2, 2).d == [-INF, -INF]
  {
    assert Walk(Missed, 2, [0, 1], [Missed[1]]);
    assert Walk(Missed, 2, [1, 1], [Missed[2]]);
    assert Walk(Missed, 2, [1, 0], [Missed[0]]);
    assert [Missed[2]][..0] == [];
    assert Weight([Missed[2]]) == -2;
    var s0 := State([0, INF], [0, 0], false);
    assert Zeros(2) == [0, 0];
    MissedPass(s0, false);
    var s1 := State([0, -2], [0, 1], true);
    assert Sweep(Missed, s0, false) == s1;
    assert PhaseOne(Missed, [0, INF], 2) == s1;
    var s2 := State([0, -INF], [0, 1], true);
    MissedPass(State(s1.d, s1.p, false), true);
    assert Sweep(Missed, State(s1.d, s1.p, false), true) == s2;
    var s3 := State([-INF, -INF], [1, 1], true);
    MissedPass(State(s2.d, s2.p, false), true);
    assert Sweep(Missed, State(s2.d, s2.p, false), true) == s3;
  }

  /**
   * shortest_path with n passes of phase two: the result is BellmanFord with n rounds, so
   * NegativeCycleMarked applies to it.
   */
  method ShortestPathCorrected(edges: seq<Edge>, d0: seq<int>, n: int) returns (p: seq<int>, d: seq<int>)
    requires n >= 0 && |d0| == n && Targets(edges, n) && InRange(d0)
    ensures State(d, p, BellmanFord(edges, d0, n, n).changed) == BellmanFord(edges, d0, n, n)
    ensures InRange(d) && Below(d, d0)
    ensures forall x :: 0 <= x < n && d[x] < INF ==> Reach(edges, n, d0, x)
    ensures forall x :: 0 <= x < n && -INF < d[x] < INF ==> Upper(edges, n, d0, x, d[x])
    ensures Traced(edges, d0, d, p)
    ensures n >= 1 && NoOverflow(edges, n) ==>
              forall start, x :: FromStart(d0, start) && 0 <= x < n ==> (d[x] == -INF <==> Doomed(edges, n, start, x))
    ensures n >= 1 && NoOverflow(edges, n) ==>
              forall q, es :: Walk(edges, n, q, es) && d0[q[0]] == 0 ==> d[q[|q| - 1]] == -INF || d[q[|q| - 1]] <= Weight(es)
  {
    var changed;
    d, p, changed := Relaxation(edges, d0, n);
    if changed {
      d, p := Marking(edges, d, p, n);
    }
    Justified(edges, d0, n, n, d);
    Traces(edges, d0, n, n);
    if n >= 1 && NoOverflow(edges, n) {
      forall start, x | FromStart(d0, start) && 0 <= x < n
        ensures d[x] == -INF <==> Doomed(edges, n, start, x)
      {
        MarkedIffDoomed(edges, d0, n, start, x);
      }
      forall q, es | Walk(edges, n, q, es) && d0[q[0]] == 0
        ensures d[q[|q| - 1]] == -INF || d[q[|q| - 1]] <= Weight(es)
      {
        LeastCorrected(edges, d0, n, q[0], q, es);
      }
    }
  }
}
