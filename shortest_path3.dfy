/**
 * Single-source shortest distances with negative weights by Bellman-Ford over an edge
 * list. Phase one runs up to n - 1 passes over the edges, each relaxing d[v] to
 * max(-INF, d[u] + w) when d[u] is finite and that is smaller, and returns as soon as a
 * pass changes nothing. Phase two runs up to n - 1 further passes that set d[v] to -INF
 * whenever d[u] is already -INF or could still be relaxed, again returning after a pass
 * without change.
 *
 * State, Relax, Mark, Sweep, Passes and BellmanFord state the computation as functions;
 * the method ShortestPath runs its loops and returns what BellmanFord describes. The
 * lemmas give the distances' meaning: they never rise, each finite one is the weight of a
 * walk from a source, and when phase one settles they are the least such weights. Each
 * predecessor is the tail of an edge into its vertex (Traces), an exact one when phase
 * one settles.
 */
module ShortestPath3 {
  import SP1 = ShortestPath1

  const INF := SP1.INF

  /** The edge from u to v of weight w. */
  datatype Edge = Edge(u: int, v: int, w: int)

  /** The distances, the predecessors, and whether the current pass changed anything. */
  datatype State = State(d: seq<int>, p: seq<int>, changed: bool)

  /** Every edge joins two of the n vertices. */
  predicate Targets(edges: seq<Edge>, n: int)
  {
    forall k :: 0 <= k < |edges| ==> 0 <= edges[k].u < n && 0 <= edges[k].v < n
  }

  /** Every distance lies between -INF and INF. */
  predicate InRange(d: seq<int>)
  {
    forall x :: 0 <= x < |d| ==> -INF <= d[x] <= INF
  }

  /** No distance of d' is above that of d. */
  predicate Below(d': seq<int>, d: seq<int>)
    requires |d'| == |d|
  {
    forall x :: 0 <= x < |d| ==> d'[x] <= d[x]
  }

  function Max(a: int, b: int): int
  {
    if a >= b then a else b
  }

  /** A state whose distances and predecessors cover the n vertices. */
  predicate Sized(s: State, n: int)
  {
    |s.d| == n && |s.p| == n
  }

  /** The relaxation of phase one, for one edge. */
  function Relax(e: Edge, s: State): (r: State)
    requires 0 <= e.u < |s.d| && 0 <= e.v < |s.d| && |s.p| == |s.d|
    ensures Sized(r, |s.d|)
  {
    if s.d[e.u] < INF && s.d[e.u] + e.w < s.d[e.v] then
      State(s.d[e.v := Max(-INF, s.d[e.u] + e.w)], s.p[e.v := e.u], true)
    else s
  }

  /** The marking of phase two, for one edge. */
  function Mark(e: Edge, s: State): (r: State)
    requires 0 <= e.u < |s.d| && 0 <= e.v < |s.d| && |s.p| == |s.d|
    ensures Sized(r, |s.d|)
  {
    if s.d[e.u] < INF && (s.d[e.u] == -INF || s.d[e.u] + e.w < s.d[e.v]) then
      State(s.d[e.v := -INF], s.p[e.v := e.u], true)
    else s
  }

  /** One edge of a pass of phase one (marking false) or phase two (marking true). */
  function Step(e: Edge, s: State, marking: bool): (r: State)
    requires 0 <= e.u < |s.d| && 0 <= e.v < |s.d| && |s.p| == |s.d|
    ensures Sized(r, |s.d|)
  {
    if marking then Mark(e, s) else Relax(e, s)
  }

  /** The state after the edges es, in order, from s. */
  function Sweep(es: seq<Edge>, s: State, marking: bool): (r: State)
    requires Targets(es, |s.d|) && |s.p| == |s.d|
    ensures Sized(r, |s.d|)
    decreases |es|
  {
    if es == [] then s
    else Step(es[|es| - 1], Sweep(es[..|es| - 1], s, marking), marking)
  }

  /**
   * At most i passes from d and p: after a pass that changes nothing the result is that
   * pass's state, whose changed is false; after i passes that all changed, or none, the
   * state reached with changed true.
   */
  function Passes(edges: seq<Edge>, d: seq<int>, p: seq<int>, i: int, marking: bool): (r: State)
    requires Targets(edges, |d|) && |p| == |d|
    ensures Sized(r, |d|)
    decreases i
  {
    if i <= 0 then State(d, p, true)
    else
      var s := Sweep(edges, State(d, p, false), marking);
      if !s.changed then s else Passes(edges, s.d, s.p, i - 1, marking)
  }

  /** n predecessors, each 0. */
  function Zeros(n: int): (r: seq<int>)
    requires n >= 0
    ensures |r| == n && forall x :: 0 <= x < n ==> r[x] == 0
  {
    seq(n, _ => 0)
  }

  /** Phase one from d0 with every predecessor 0. */
  function PhaseOne(edges: seq<Edge>, d0: seq<int>, n: int): (r: State)
    requires n >= 0 && |d0| == n && Targets(edges, n)
    ensures Sized(r, n)
  {
    Passes(edges, d0, Zeros(n), n - 1, false)
  }

  /**
   * The distances and predecessors: phase one, and when its last pass changed something
   * (or it ran no pass), `rounds` passes of phase two.
   */
  function BellmanFord(edges: seq<Edge>, d0: seq<int>, n: int, rounds: int): (r: State)
    requires n >= 0 && |d0| == n && Targets(edges, n)
    ensures Sized(r, n)
  {
    var s := PhaseOne(edges, d0, n);
    if !s.changed then s else Passes(edges, s.d, s.p, rounds, true)
  }

  // ---------------------------------------------------------------------------
  // Walks.

  /** q is a walk along the listed edges es, each of them in edges. */
  ghost predicate Walk(edges: seq<Edge>, n: int, q: seq<int>, es: seq<Edge>)
  {
    && |q| == |es| + 1
    && (forall t :: 0 <= t < |q| ==> 0 <= q[t] < n)
    && (forall t :: 0 <= t < |es| ==> es[t] in edges && es[t].u == q[t] && es[t].v == q[t + 1])
  }

  /** The total weight of es. */
  function Weight(es: seq<Edge>): int
  {
    if es == [] then 0 else Weight(es[..|es| - 1]) + es[|es| - 1].w
  }

  /** Some walk to x starts at a source, a vertex s with d0[s] < INF. */
  ghost predicate Reach(edges: seq<Edge>, n: int, d0: seq<int>, x: int)
  {
    |d0| == n && exists q, es :: Walk(edges, n, q, es) && d0[q[0]] < INF && q[|q| - 1] == x
  }

  /** Some walk to x from a source s weighs at most c - d0[s]. */
  ghost predicate Upper(edges: seq<Edge>, n: int, d0: seq<int>, x: int, c: int)
  {
    |d0| == n && exists q, es :: Walk(edges, n, q, es) && d0[q[0]] < INF && q[|q| - 1] == x
                                 && d0[q[0]] + Weight(es) <= c
  }

  /**
   * Every vertex below INF is reached from a source, by a walk no heavier than its
   * distance; in phase two (marking) the walk is claimed for the distances above -INF only,
   * those that marking has not set.
   */
  ghost predicate Sound(edges: seq<Edge>, n: int, d0: seq<int>, d: seq<int>, marking: bool)
  {
    |d| == n && forall x :: 0 <= x < n && d[x] < INF ==>
      Reach(edges, n, d0, x) && ((!marking || d[x] > -INF) ==> Upper(edges, n, d0, x, d[x]))
  }

  /** A source is reached by the walk of no edges. */
  lemma Start(edges: seq<Edge>, n: int, d0: seq<int>)
    requires |d0| == n
    ensures Sound(edges, n, d0, d0, false)
  {
    forall x | 0 <= x < n && d0[x] < INF
      ensures Reach(edges, n, d0, x) && Upper(edges, n, d0, x, d0[x])
    {
      assert Walk(edges, n, [x], []);
    }
  }

  /** A walk to e.u followed by e is a walk to e.v. */
  lemma ExtendReach(edges: seq<Edge>, n: int, d0: seq<int>, e: Edge)
    requires e in edges && 0 <= e.v < n && Reach(edges, n, d0, e.u)
    ensures Reach(edges, n, d0, e.v)
  {
    var q, es :| Walk(edges, n, q, es) && d0[q[0]] < INF && q[|q| - 1] == e.u;
    assert Walk(edges, n, q + [e.v], es + [e]);
  }

  /** A walk to e.u of weight at most c, followed by e, is a walk to e.v of weight at most c + e.w. */
  lemma ExtendUpper(edges: seq<Edge>, n: int, d0: seq<int>, e: Edge, c: int)
    requires e in edges && 0 <= e.v < n && Upper(edges, n, d0, e.u, c)
    ensures Upper(edges, n, d0, e.v, c + e.w)
  {
    var q, es :| Walk(edges, n, q, es) && d0[q[0]] < INF && q[|q| - 1] == e.u && d0[q[0]] + Weight(es) <= c;
    assert (es + [e])[..|es|] == es;
    assert Walk(edges, n, q + [e.v], es + [e]);
  }

  // ---------------------------------------------------------------------------
  // What a pass keeps.

  /** One relaxation keeps the range and the justification, and lowers distances only. */
  lemma RelaxSound(edges: seq<Edge>, n: int, d0: seq<int>, e: Edge, s: State)
    requires e in edges && 0 <= e.u < n && 0 <= e.v < n && Sized(s, n)
    requires InRange(s.d) && Sound(edges, n, d0, s.d, false)
    ensures InRange(Relax(e, s).d) && Sound(edges, n, d0, Relax(e, s).d, false) && Below(Relax(e, s).d, s.d)
  {
    if s.d[e.u] < INF && s.d[e.u] + e.w < s.d[e.v] {
      ExtendReach(edges, n, d0, e);
      ExtendUpper(edges, n, d0, e, s.d[e.u]);
      assert e.w + s.d[e.u] <= Max(-INF, s.d[e.u] + e.w);
    }
  }

  /** One marking keeps the range and the justification, and lowers distances only. */
  lemma MarkSound(edges: seq<Edge>, n: int, d0: seq<int>, e: Edge, s: State)
    requires e in edges && 0 <= e.u < n && 0 <= e.v < n && Sized(s, n)
    requires InRange(s.d) && Sound(edges, n, d0, s.d, true)
    ensures InRange(Mark(e, s).d) && Sound(edges, n, d0, Mark(e, s).d, true) && Below(Mark(e, s).d, s.d)
  {
    if s.d[e.u] < INF && (s.d[e.u] == -INF || s.d[e.u] + e.w < s.d[e.v]) {
      ExtendReach(edges, n, d0, e);
    }
  }

  /** A sweep keeps the range and the justification, and lowers distances only. */
  lemma {:induction false} SweepSound(edges: seq<Edge>, n: int, d0: seq<int>, es: seq<Edge>, s: State, marking: bool)
    requires (forall e :: e in es ==> e in edges) && Targets(es, n) && Sized(s, n)
    requires InRange(s.d) && Sound(edges, n, d0, s.d, marking)
    ensures InRange(Sweep(es, s, marking).d) && Sound(edges, n, d0, Sweep(es, s, marking).d, marking)
    ensures Below(Sweep(es, s, marking).d, s.d)
    decreases |es|
  {
    if es != [] {
      var es', e := es[..|es| - 1], es[|es| - 1];
      assert e in es;
      SweepSound(edges, n, d0, es', s, marking);
      var m := Sweep(es', s, marking);
      if marking {
        MarkSound(edges, n, d0, e, m);
      } else {
        RelaxSound(edges, n, d0, e, m);
      }
    }
  }

  /** Passes keep the range and the justification, and lower distances only. */
  lemma {:induction false} PassesSound(edges: seq<Edge>, n: int, d0: seq<int>, d: seq<int>, p: seq<int>, i: int, marking: bool)
    requires Targets(edges, n) && |d| == n && |p| == n
    requires InRange(d) && Sound(edges, n, d0, d, marking)
    ensures InRange(Passes(edges, d, p, i, marking).d) && Sound(edges, n, d0, Passes(edges, d, p, i, marking).d, marking)
    ensures Below(Passes(edges, d, p, i, marking).d, d)
    decreases i
  {
    if i > 0 {
      SweepSound(edges, n, d0, edges, State(d, p, false), marking);
      var s := Sweep(edges, State(d, p, false), marking);
      if s.changed {
        PassesSound(edges, n, d0, s.d, s.p, i - 1, marking);
      }
    }
  }

  /**
   * Both phases keep every distance between -INF and INF and no higher than where it
   * started; every vertex with a distance below INF is reached from a source s, and every
   * distance above -INF is at least the weight of some walk from a source s plus d0[s].
   */
  lemma Justified(edges: seq<Edge>, d0: seq<int>, n: int, rounds: int, d: seq<int>)
    requires n >= 0 && |d0| == n && Targets(edges, n) && InRange(d0)
    requires d == BellmanFord(edges, d0, n, rounds).d
    ensures InRange(d) && Below(d, d0)
    ensures forall x :: 0 <= x < n && d[x] < INF ==> Reach(edges, n, d0, x)
    ensures forall x :: 0 <= x < n && -INF < d[x] < INF ==> Upper(edges, n, d0, x, d[x])
  {
    Start(edges, n, d0);
    PassesSound(edges, n, d0, d0, Zeros(n), n - 1, false);
    var s := PhaseOne(edges, d0, n);
    if s.changed {
      PassesSound(edges, n, d0, s.d, s.p, rounds, true);
    }
  }

  // ---------------------------------------------------------------------------
  // A pass without change.

  /** A sweep that changes nothing leaves the state as it was, and no edge it passed fires there. */
  lemma {:induction false} Unchanged(es: seq<Edge>, s: State, marking: bool)
    requires Targets(es, |s.d|) && |s.p| == |s.d| && !s.changed && !Sweep(es, s, marking).changed
    ensures Sweep(es, s, marking) == s
    ensures forall k :: 0 <= k < |es| ==> Step(es[k], s, marking) == s
    decreases |es|
  {
    if es != [] {
      var es' := es[..|es| - 1];
      assert !Sweep(es', s, marking).changed;
      Unchanged(es', s, marking);
    }
  }

  /** In phase one's state without change, no edge from a vertex below INF can lower its target. */
  predicate Fixed(edges: seq<Edge>, d: seq<int>)
    requires Targets(edges, |d|)
  {
    forall k :: 0 <= k < |edges| ==> !(d[edges[k].u] < INF && d[edges[k].u] + edges[k].w < d[edges[k].v])
  }

  /** Passes that end in a pass without change end at a fixed point of the relaxation. */
  lemma {:induction false} PassesFixed(edges: seq<Edge>, d: seq<int>, p: seq<int>, i: int)
    requires Targets(edges, |d|) && |p| == |d| && !Passes(edges, d, p, i, false).changed
    ensures Fixed(edges, Passes(edges, d, p, i, false).d)
    decreases i
  {
    var s := Sweep(edges, State(d, p, false), false);
    if s.changed {
      PassesFixed(edges, s.d, s.p, i - 1);
    } else {
      Unchanged(edges, State(d, p, false), false);
      forall k | 0 <= k < |edges|
        ensures !(d[edges[k].u] < INF && d[edges[k].u] + edges[k].w < d[edges[k].v])
        {
          assert Relax(edges[k], State(d, p, false)) == State(d, p, false);
        }
    }
  }

  /**
   * At a fixed point no walk from a source s lowers its end below d0[s] plus its weight,
   * provided each of its prefixes stays below INF.
   */
  lemma {:induction false} FixedBound(edges: seq<Edge>, n: int, d0: seq<int>, d: seq<int>, q: seq<int>, es: seq<Edge>)
    requires Targets(edges, n) && |d| == n && |d0| == n && Below(d, d0) && Fixed(edges, d)
    requires Walk(edges, n, q, es) && forall j :: 0 <= j <= |es| ==> d0[q[0]] + Weight(es[..j]) < INF
    ensures d[q[|q| - 1]] <= d0[q[0]] + Weight(es)
    decreases |es|
  {
    if es != [] {
      var es' := es[..|es| - 1];
      var e := es[|es| - 1];
      assert Walk(edges, n, q[..|q| - 1], es');
      forall j | 0 <= j <= |es'|
        ensures d0[q[0]] + Weight(es'[..j]) < INF
      {
        assert es'[..j] == es[..j];
      }
      FixedBound(edges, n, d0, d, q[..|q| - 1], es');
      assert es[..|es|] == es && es[..|es| - 1] == es';
      var k :| 0 <= k < |edges| && edges[k] == e;
    }
  }

  /**
   * When phase one settles, that is, one of its passes changes nothing, the result is its
   * state, and no walk from a source whose prefixes stay below INF ends below its end's
   * distance: with the justification above, the distances are the least weights.
   */
  lemma Settled(edges: seq<Edge>, d0: seq<int>, n: int, rounds: int, q: seq<int>, es: seq<Edge>)
    requires n >= 0 && |d0| == n && Targets(edges, n) && InRange(d0)
    requires !PhaseOne(edges, d0, n).changed
    requires Walk(edges, n, q, es) && forall j :: 0 <= j <= |es| ==> d0[q[0]] + Weight(es[..j]) < INF
    ensures BellmanFord(edges, d0, n, rounds) == PhaseOne(edges, d0, n)
    ensures BellmanFord(edges, d0, n, rounds).d[q[|q| - 1]] <= d0[q[0]] + Weight(es)
  {
    Start(edges, n, d0);
    PassesSound(edges, n, d0, d0, Zeros(n), n - 1, false);
    PassesFixed(edges, d0, Zeros(n), n - 1);
    FixedBound(edges, n, d0, PhaseOne(edges, d0, n).d, q, es);
  }

  // ---------------------------------------------------------------------------
  // Predecessors.

  /**
   * Some edge of edges runs from p[x], a vertex below INF, to x; unless x is at -INF, the
   * distance of p[x] plus that edge's weight is at most the distance of x.
   */
  predicate Tail(edges: seq<Edge>, d: seq<int>, p: seq<int>, x: int)
    requires 0 <= x < |d| && |p| == |d|
  {
    exists k :: 0 <= k < |edges| && edges[k].u == p[x] && edges[k].v == x && 0 <= p[x] < |d| && d[p[x]] < INF
                && (d[x] == -INF || d[p[x]] + edges[k].w <= d[x])
  }

  /** Every vertex either kept its initial distance and the predecessor 0, or has a Tail. */
  predicate Traced(edges: seq<Edge>, d0: seq<int>, d: seq<int>, p: seq<int>)
    requires |d| == |d0| && |p| == |d0|
  {
    forall x :: 0 <= x < |d0| ==> (p[x] == 0 && d[x] == d0[x]) || Tail(edges, d, p, x)
  }

  /** Some edge of edges runs from p[x] to x, and the distance of p[x] plus its weight is that of x. */
  predicate Exact(edges: seq<Edge>, d: seq<int>, p: seq<int>, x: int)
    requires 0 <= x < |d| && |p| == |d|
  {
    exists k :: 0 <= k < |edges| && edges[k].u == p[x] && edges[k].v == x && 0 <= p[x] < |d|
                && d[p[x]] + edges[k].w == d[x]
  }

  /** One relaxation keeps the range, lowers distances only, and keeps every vertex traced. */
  lemma RelaxTraced(edges: seq<Edge>, d0: seq<int>, e: Edge, s: State)
    requires e in edges && 0 <= e.u < |d0| && 0 <= e.v < |d0| && Sized(s, |d0|)
    requires InRange(s.d) && Traced(edges, d0, s.d, s.p)
    ensures InRange(Relax(e, s).d) && Below(Relax(e, s).d, s.d) && Traced(edges, d0, Relax(e, s).d, Relax(e, s).p)
  {
    var r := Relax(e, s);
    if s.d[e.u] < INF && s.d[e.u] + e.w < s.d[e.v] {
      var k :| 0 <= k < |edges| && edges[k] == e;
      forall x | 0 <= x < |d0|
        ensures (r.p[x] == 0 && r.d[x] == d0[x]) || Tail(edges, r.d, r.p, x)
      {
        if x == e.v {
          assert edges[k].u == r.p[x] && r.d[r.p[x]] < INF && r.d[r.p[x]] + edges[k].w <= r.d[x];
        } else if !(s.p[x] == 0 && s.d[x] == d0[x]) {
          var j :| 0 <= j < |edges| && edges[j].u == s.p[x] && edges[j].v == x && 0 <= s.p[x] < |d0|
                   && s.d[s.p[x]] < INF && (s.d[x] == -INF || s.d[s.p[x]] + edges[j].w <= s.d[x]);
          assert edges[j].u == r.p[x] && r.d[r.p[x]] <= s.d[s.p[x]];
        }
      }
    }
  }

  /** One marking keeps the range, lowers distances only, and keeps every vertex traced. */
  lemma MarkTraced(edges: seq<Edge>, d0: seq<int>, e: Edge, s: State)
    requires e in edges && 0 <= e.u < |d0| && 0 <= e.v < |d0| && Sized(s, |d0|)
    requires InRange(s.d) && Traced(edges, d0, s.d, s.p)
    ensures InRange(Mark(e, s).d) && Below(Mark(e, s).d, s.d) && Traced(edges, d0, Mark(e, s).d, Mark(e, s).p)
  {
    var r := Mark(e, s);
    if s.d[e.u] < INF && (s.d[e.u] == -INF || s.d[e.u] + e.w < s.d[e.v]) {
      var k :| 0 <= k < |edges| && edges[k] == e;
      forall x | 0 <= x < |d0|
        ensures (r.p[x] == 0 && r.d[x] == d0[x]) || Tail(edges, r.d, r.p, x)
      {
        if x == e.v {
          assert edges[k].u == r.p[x] && r.d[r.p[x]] < INF && r.d[x] == -INF;
        } else if !(s.p[x] == 0 && s.d[x] == d0[x]) {
          var j :| 0 <= j < |edges| && edges[j].u == s.p[x] && edges[j].v == x && 0 <= s.p[x] < |d0|
                   && s.d[s.p[x]] < INF && (s.d[x] == -INF || s.d[s.p[x]] + edges[j].w <= s.d[x]);
          assert edges[j].u == r.p[x] && r.d[r.p[x]] <= s.d[s.p[x]];
        }
      }
    }
  }

  /** A sweep keeps the range and every vertex traced. */
  lemma {:induction false} SweepTraced(edges: seq<Edge>, d0: seq<int>, es: seq<Edge>, s: State, marking: bool)
    requires (forall e :: e in es ==> e in edges) && Targets(es, |d0|) && Sized(s, |d0|)
    requires InRange(s.d) && Traced(edges, d0, s.d, s.p)
    ensures InRange(Sweep(es, s, marking).d) && Traced(edges, d0, Sweep(es, s, marking).d, Sweep(es, s, marking).p)
    decreases |es|
  {
    if es != [] {
      var es', e := es[..|es| - 1], es[|es| - 1];
      assert e in es;
      SweepTraced(edges, d0, es', s, marking);
      var m := Sweep(es', s, marking);
      if marking {
        MarkTraced(edges, d0, e, m);
      } else {
        RelaxTraced(edges, d0, e, m);
      }
    }
  }

  /** Passes keep the range and every vertex traced. */
  lemma {:induction false} PassesTraced(edges: seq<Edge>, d0: seq<int>, d: seq<int>, p: seq<int>, i: int, marking: bool)
    requires Targets(edges, |d0|) && |d| == |d0| && |p| == |d0|
    requires InRange(d) && Traced(edges, d0, d, p)
    ensures InRange(Passes(edges, d, p, i, marking).d)
    ensures Traced(edges, d0, Passes(edges, d, p, i, marking).d, Passes(edges, d, p, i, marking).p)
    decreases i
  {
    if i > 0 {
      SweepTraced(edges, d0, edges, State(d, p, false), marking);
      var s := Sweep(edges, State(d, p, false), marking);
      if s.changed {
        PassesTraced(edges, d0, s.d, s.p, i - 1, marking);
      }
    }
  }

  /**
   * Both phases leave each predecessor 0 at a vertex that kept its initial distance, or
   * the tail of an edge into the vertex from a vertex below INF that does not overshoot it;
   * when phase one settles, that edge is exact: the predecessor is the penultimate vertex
   * of a walk whose weight is the distance.
   */
  lemma Traces(edges: seq<Edge>, d0: seq<int>, n: int, rounds: int)
    requires n >= 0 && |d0| == n && Targets(edges, n) && InRange(d0)
    ensures Traced(edges, d0, BellmanFord(edges, d0, n, rounds).d, BellmanFord(edges, d0, n, rounds).p)
    ensures !PhaseOne(edges, d0, n).changed ==>
              var r := BellmanFord(edges, d0, n, rounds);
              forall x :: 0 <= x < n && r.d[x] > -INF && Tail(edges, r.d, r.p, x) ==> Exact(edges, r.d, r.p, x)
  {
    var s := PhaseOne(edges, d0, n);
    PassesTraced(edges, d0, d0, Zeros(n), n - 1, false);
    if s.changed {
      PassesTraced(edges, d0, s.d, s.p, rounds, true);
    } else {
      PassesFixed(edges, d0, Zeros(n), n - 1);
      forall x | 0 <= x < n && s.d[x] > -INF && Tail(edges, s.d, s.p, x)
        ensures Exact(edges, s.d, s.p, x)
      {
        var k :| 0 <= k < |edges| && edges[k].u == s.p[x] && edges[k].v == x && 0 <= s.p[x] < n && s.d[s.p[x]] < INF
                 && (s.d[x] == -INF || s.d[s.p[x]] + edges[k].w <= s.d[x]);
        assert !(s.d[edges[k].u] < INF && s.d[edges[k].u] + edges[k].w < s.d[edges[k].v]);
      }
    }
  }

  // ---------------------------------------------------------------------------
  // The method.

  /**
   * One pass of either phase over all edges, in order: the inner loop of shortest_path,
   * updating d and p in place; changed says whether any edge fired.
   */
  method Pass(edges: seq<Edge>, d0: seq<int>, p0: seq<int>, marking: bool) returns (d: seq<int>, p: seq<int>, changed: bool)
    requires Targets(edges, |d0|) && |p0| == |d0|
    ensures State(d, p, changed) == Sweep(edges, State(d0, p0, false), marking)
  {
    d, p, changed := d0, p0, false;
    for j := 0 to |edges|
      invariant |d| == |d0| && |p| == |d0|
      invariant State(d, p, changed) == Sweep(edges[..j], State(d0, p0, false), marking)
    {
      assert edges[..j + 1][..j] == edges[..j];
      var e := edges[j];
      if marking {
        if d[e.u] < INF && (d[e.u] == -INF || d[e.u] + e.w < d[e.v]) {
          d := d[e.v := -INF];
          p := p[e.v := e.u];
          changed := true;
        }
      } else {
        if d[e.u] < INF && d[e.u] + e.w < d[e.v] {
          d := d[e.v := Max(-INF, d[e.u] + e.w)];
          p := p[e.v := e.u];
          changed := true;
        }
      }
    }
    assert edges[..|edges|] == edges;
  }

  /** The first loop of shortest_path: at most n - 1 passes of relaxation, stopping after one without change. */
  method Relaxation(edges: seq<Edge>, d0: seq<int>, n: int) returns (d: seq<int>, p: seq<int>, changed: bool)
    requires n >= 0 && |d0| == n && Targets(edges, n)
    ensures State(d, p, changed) == PhaseOne(edges, d0, n)
  {
    d, p, changed := d0, Zeros(n), true;
    var i := 0;
    while i < n - 1
      invariant 0 <= i <= Max(n - 1, 0) && |d| == n && |p| == n && changed
      invariant Passes(edges, d, p, n - 1 - i, false) == PhaseOne(edges, d0, n)
    {
      d, p, changed := Pass(edges, d, p, false);
      if !changed {
        return;
      }
      i := i + 1;
    }
  }

  /** The second loop of shortest_path, run for `rounds` passes of marking at most, stopping after one without change. */
  method Marking(edges: seq<Edge>, d0: seq<int>, p0: seq<int>, rounds: int) returns (d: seq<int>, p: seq<int>)
    requires Targets(edges, |d0|) && |p0| == |d0|
    ensures State(d, p, Passes(edges, d0, p0, rounds, true).changed) == Passes(edges, d0, p0, rounds, true)
  {
    d, p := d0, p0;
    var i := 0;
    while i < rounds
      invariant 0 <= i <= Max(rounds, 0) && |d| == |d0| && |p| == |d0|
      invariant Passes(edges, d, p, rounds - i, true) == Passes(edges, d0, p0, rounds, true)
    {
      var changed;
      d, p, changed := Pass(edges, d, p, true);
      if !changed {
        return;
      }
      i := i + 1;
    }
  }

  /**
   * shortest_path(edges, d, n): relaxation, then, unless its last pass changed nothing,
   * n - 1 passes of marking; the result is BellmanFord with n - 1 rounds of phase two.
   */
  method ShortestPath(edges: seq<Edge>, d0: seq<int>, n: int) returns (p: seq<int>, d: seq<int>)
    requires n >= 0 && |d0| == n && Targets(edges, n) && InRange(d0)
    ensures State(d, p, BellmanFord(edges, d0, n, n - 1).changed) == BellmanFord(edges, d0, n, n - 1)
    ensures InRange(d) && Below(d, d0)
    ensures forall x :: 0 <= x < n && d[x] < INF ==> Reach(edges, n, d0, x)
    ensures forall x :: 0 <= x < n && -INF < d[x] < INF ==> Upper(edges, n, d0, x, d[x])
    ensures Traced(edges, d0, d, p)
    ensures !PhaseOne(edges, d0, n).changed ==>
              forall x :: 0 <= x < n && d[x] > -INF && Tail(edges, d, p, x) ==> Exact(edges, d, p, x)
  {
    var changed;
    d, p, changed := Relaxation(edges, d0, n);
    if changed {
      d, p := Marking(edges, d, p, n - 1);
    }
    Justified(edges, d0, n, n - 1, d);
    Traces(edges, d0, n, n - 1);
  }
}
