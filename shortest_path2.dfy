/**
 * Single-source shortest arrival times in a time-table graph by Dijkstra's algorithm: an
 * edge of vertex v to dest departs first at time t0 and then every P time units (only once
 * when P = 0) and takes d time units. The caller gives each vertex its initial time d[v]
 * (INF for none). Each round takes an unvisited vertex of least time, stops when that time
 * is INF, waits at it for each edge's next departure and relaxes the arrival, and marks
 * it visited. The times end as the earliest arrivals over all journeys.
 *
 * The selection of each round and the order, least and settled conditions are those of
 * ShortestPath1 and are used from there.
 */
module ShortestPath2 {
  import opened NumberTheory
  import opened Graphs
  import SP1 = ShortestPath1

  const INF := SP1.INF

  /** An edge to dest, departing at t0, t0 + P, t0 + 2P, ..., and taking d time units. */
  datatype Edge = Edge(dest: int, t0: int, P: int, d: int)

  /** Every edge leads to a vertex. */
  predicate Targets(adj: seq<seq<Edge>>)
  {
    forall v, e :: 0 <= v < |adj| && e in adj[v] ==> 0 <= e.dest < |adj|
  }

  /** No period or travel time is negative. */
  predicate NonNegative(adj: seq<seq<Edge>>)
  {
    forall v, e :: 0 <= v < |adj| && e in adj[v] ==> e.P >= 0 && e.d >= 0
  }

  /**
   * The wait at time t for the edge e: up to t0 when the edge runs once or has not started
   * yet (negative when that departure is past), otherwise up to the next multiple of P
   * after t0, by the C++ remainder.
   */
  function Wait(t: int, e: Edge): int
  {
    if e.P == 0 || t < e.t0 then e.t0 - t
    else
      var diff := CppRem(t - e.t0, e.P);
      if diff != 0 then e.P - diff else 0
  }

  /** The arrival at e.dest when taking e at time t. */
  function Arrive(t: int, e: Edge): int
  {
    t + Wait(t, e) + e.d
  }

  /** The edge e departs at time tau. */
  ghost predicate Departs(e: Edge, tau: int)
  {
    || (e.P == 0 && tau == e.t0)
    || (e.P > 0 && tau >= e.t0 && (tau - e.t0) % e.P == 0)
  }

  /** (P * k + s) % P is s for s in [0, P). */
  lemma Remainder(P: int, k: int, s: int)
    requires 0 <= s < P
    ensures (P * k + s) % P == s
  {
    WitnessCongruent(s, P * k + s, P, -k);
    CongruentRemainder(s, P * k + s, P);
  }

  /**
   * The wait is that for the next departure: it is nonnegative exactly when some departure
   * is at t or later, and then t + wait is a departure and none lies between t and it.
   */
  lemma NextDeparture(t: int, e: Edge)
    requires e.P >= 0
    ensures Wait(t, e) >= 0 <==> exists tau :: t <= tau && Departs(e, tau)
    ensures Wait(t, e) >= 0 ==> Departs(e, t + Wait(t, e))
    ensures forall tau :: t <= tau < t + Wait(t, e) ==> !Departs(e, tau)
  {
    if e.P == 0 || t < e.t0 {
      if e.P == 0 && t > e.t0 {
        forall tau | t <= tau
          ensures !Departs(e, tau)
        {
        }
      } else {
        assert Departs(e, e.t0);
      }
    } else {
      var a := t - e.t0;
      var k, r := a / e.P, CppRem(a, e.P);
      assert r == a % e.P && a == e.P * k + r;
      if r != 0 {
        assert a + Wait(t, e) == e.P * (k + 1);
        MultipleMod(e.P, k + 1);
        forall tau | t <= tau < t + Wait(t, e)
          ensures !Departs(e, tau)
        {
          Remainder(e.P, k, r + (tau - t));
          assert tau - e.t0 == e.P * k + r + (tau - t);
        }
      }
      assert Departs(e, t + Wait(t, e));
    }
  }

  /**
   * Time tables are first in, first out: an edge that can be taken at t' can be taken at
   * any earlier t, arriving no later.
   */
  lemma Fifo(t: int, t': int, e: Edge)
    requires e.P >= 0 && t <= t' && Wait(t', e) >= 0
    ensures Wait(t, e) >= 0 && Arrive(t, e) <= Arrive(t', e)
  {
    NextDeparture(t', e);
    NextDeparture(t, e);
    assert t <= t' + Wait(t', e) && Departs(e, t' + Wait(t', e));
  }

  /** q is a journey whose k-th edge es[k] is listed at q[k] and leads to q[k + 1]. */
  ghost predicate Journey(adj: seq<seq<Edge>>, q: seq<int>, es: seq<Edge>)
  {
    && |q| == |es| + 1
    && (forall k :: 0 <= k < |q| ==> 0 <= q[k] < |adj|)
    && (forall k :: 0 <= k < |es| ==> es[k] in adj[q[k]] && es[k].dest == q[k + 1])
  }

  /** The arrival at the end of the edges es, taken in turn from time t. */
  function Time(t: int, es: seq<Edge>): int
  {
    if es == [] then t else Arrive(Time(t, es[..|es| - 1]), es[|es| - 1])
  }

  /** Each edge of es, taken in turn from time t, still has a departure when it is reached. */
  ghost predicate Legal(t: int, es: seq<Edge>)
  {
    es == [] || (Legal(t, es[..|es| - 1]) && Wait(Time(t, es[..|es| - 1]), es[|es| - 1]) >= 0)
  }

  /** Some journey from a vertex s with an initial time d0[s] < INF arrives at x at time c. */
  ghost predicate Reached(adj: seq<seq<Edge>>, d0: seq<int>, x: int, c: int)
  {
    |d0| == |adj| &&
    exists q, es :: Journey(adj, q, es) && d0[q[0]] < INF && q[|q| - 1] == x
                    && Legal(d0[q[0]], es) && Time(d0[q[0]], es) == c
  }

  /** A vertex with an initial time is reached at it, by the journey of no edges. */
  lemma ReachedSelf(adj: seq<seq<Edge>>, d0: seq<int>, x: int)
    requires |d0| == |adj| && 0 <= x < |adj| && d0[x] < INF
    ensures Reached(adj, d0, x, d0[x])
  {
    assert Journey(adj, [x], []);
  }

  /** A journey to v at c, followed by an edge e of v that departs later, arrives at e.dest. */
  lemma ReachedStep(adj: seq<seq<Edge>>, d0: seq<int>, v: int, c: int, e: Edge)
    requires Targets(adj) && Reached(adj, d0, v, c) && 0 <= v < |adj| && e in adj[v] && Wait(c, e) >= 0
    ensures Reached(adj, d0, e.dest, Arrive(c, e))
  {
    var q, es :| Journey(adj, q, es) && d0[q[0]] < INF && q[|q| - 1] == v
                 && Legal(d0[q[0]], es) && Time(d0[q[0]], es) == c;
    var q', es' := q + [e.dest], es + [e];
    assert es'[..|es'| - 1] == es;
    assert Journey(adj, q', es');
  }

  /** The first edges of a journey are a journey. */
  lemma Prefix(adj: seq<seq<Edge>>, q: seq<int>, es: seq<Edge>)
    requires Journey(adj, q, es) && |es| > 0
    ensures Journey(adj, q[..|q| - 1], es[..|es| - 1])
  {
  }

  /** The sizes, and no time later than the initial one. */
  predicate Shaped(n: int, d0: seq<int>, d: seq<int>, p: seq<int>, visited: seq<bool>)
  {
    && |d0| == n && |d| == n && |p| == n && |visited| == n
    && (forall x :: 0 <= x < n ==> d0[x] <= INF && d[x] <= d0[x])
  }

  /** Every finite time is the arrival of a journey. */
  ghost predicate Sound(adj: seq<seq<Edge>>, d0: seq<int>, d: seq<int>)
  {
    forall x :: 0 <= x < |d| && d[x] < INF ==> Reached(adj, d0, x, d[x])
  }

  /** Some edge of u to x, taken at u's time, arrives at x's time. */
  ghost predicate Via(adj: seq<seq<Edge>>, d: seq<int>, u: int, x: int)
    requires |d| == |adj| && 0 <= u < |d| && 0 <= x < |d|
  {
    exists e :: e in adj[u] && e.dest == x && Wait(d[u], e) >= 0 && d[x] == Arrive(d[u], e)
  }

  /**
   * The predecessors: 0 for a vertex whose initial time stands; otherwise a visited vertex,
   * or the vertex v being scanned, with an edge arriving at x's time.
   */
  ghost predicate Tree(adj: seq<seq<Edge>>, d0: seq<int>, d: seq<int>, p: seq<int>, visited: seq<bool>, v: int)
    requires |d0| == |d| == |p| == |visited| == |adj|
  {
    forall x {:trigger p[x]} :: 0 <= x < |d| ==>
      if d[x] == d0[x] then p[x] == 0
      else 0 <= p[x] < |d| && (visited[p[x]] || p[x] == v) && d[p[x]] < INF && Via(adj, d, p[x], x)
  }

  /** No edge of a visited vertex can bring a time forward. */
  predicate Relaxed(adj: seq<seq<Edge>>, d: seq<int>, visited: seq<bool>)
    requires |d| == |visited| == |adj| && Targets(adj)
  {
    forall a, e :: 0 <= a < |d| && visited[a] && e in adj[a] && Wait(d[a], e) >= 0 ==> d[e.dest] <= Arrive(d[a], e)
  }

  /** The first k edges of v cannot bring a time forward. */
  predicate Scanned(adj: seq<seq<Edge>>, d: seq<int>, v: int, k: int)
    requires Targets(adj) && |d| == |adj| && 0 <= v < |d| && 0 <= k <= |adj[v]|
  {
    forall t :: 0 <= t < k && Wait(d[v], adj[v][t]) >= 0 ==> d[adj[v][t].dest] <= Arrive(d[v], adj[v][t])
  }

  /** The state between rounds. */
  ghost predicate Round(adj: seq<seq<Edge>>, n: int, d0: seq<int>, d: seq<int>, p: seq<int>, visited: seq<bool>)
  {
    && |adj| == n && Targets(adj) && Shaped(n, d0, d, p, visited)
    && Sound(adj, d0, d) && Tree(adj, d0, d, p, visited, -1)
    && SP1.Order(d, visited) && Relaxed(adj, d, visited)
  }

  /** The state while the unvisited vertex v, of least and finite time, has its first k edges relaxed. */
  ghost predicate Scan(adj: seq<seq<Edge>>, n: int, d0: seq<int>, d: seq<int>, p: seq<int>,
                       visited: seq<bool>, v: int, k: int)
  {
    && |adj| == n && Targets(adj) && Shaped(n, d0, d, p, visited)
    && 0 <= v < n && !visited[v] && d[v] < INF && 0 <= k <= |adj[v]|
    && Sound(adj, d0, d) && Tree(adj, d0, d, p, visited, v)
    && SP1.Order(d, visited) && Relaxed(adj, d, visited)
    && SP1.Least(d, visited, v) && Scanned(adj, d, v, k)
  }

  /** Choosing v, an unvisited vertex of least and finite time, starts its scan. */
  lemma Choose(adj: seq<seq<Edge>>, n: int, d0: seq<int>, d: seq<int>, p: seq<int>, visited: seq<bool>, v: int)
    requires Round(adj, n, d0, d, p, visited)
    requires 0 <= v < n && !visited[v] && d[v] < INF && SP1.Least(d, visited, v)
    ensures Scan(adj, n, d0, d, p, visited, v, 0)
  {
  }

  /** Passing over the k-th edge of v, which cannot bring its target forward, keeps the scan's state. */
  lemma KeepEdge(adj: seq<seq<Edge>>, n: int, d0: seq<int>, d: seq<int>, p: seq<int>,
                 visited: seq<bool>, v: int, k: int)
    requires Scan(adj, n, d0, d, p, visited, v, k) && k < |adj[v]|
    requires !(Arrive(d[v], adj[v][k]) < d[adj[v][k].dest] && Wait(d[v], adj[v][k]) >= 0)
    ensures Scan(adj, n, d0, d, p, visited, v, k + 1)
  {
  }

  /** Bringing the target u of v's k-th edge forward to its arrival c keeps the scan's state. */
  lemma LowerEdge(adj: seq<seq<Edge>>, n: int, d0: seq<int>, d: seq<int>, p: seq<int>,
                  visited: seq<bool>, v: int, k: int, u: int, c: int)
    requires NonNegative(adj) && Scan(adj, n, d0, d, p, visited, v, k) && k < |adj[v]|
    requires u == adj[v][k].dest && c == Arrive(d[v], adj[v][k]) && c < d[u] && Wait(d[v], adj[v][k]) >= 0
    ensures Scan(adj, n, d0, d[u := c], p[u := v], visited, v, k + 1)
  {
    var e := adj[v][k];
    assert e in adj[v];
    assert !visited[u] && u != v;
    ReachedStep(adj, d0, v, d[v], e);
    Improve(adj, d0, d, u, c);
    Reparent(adj, d0, d, p, visited, v, k, u, c);
    Lowered(adj, d, visited, v, u, c);
    LoweredScan(adj, d, visited, v, k, u, c);
    LoweredShape(n, d0, d, p, visited, v, u, c);
  }

  /** Bringing u forward to c, an arrival of a journey, keeps every time justified. */
  lemma Improve(adj: seq<seq<Edge>>, d0: seq<int>, d: seq<int>, u: int, c: int)
    requires Sound(adj, d0, d) && 0 <= u < |d| && Reached(adj, d0, u, c)
    ensures Sound(adj, d0, d[u := c])
  {
  }

  /** Bringing u forward keeps every time no later than the initial one. */
  lemma LoweredShape(n: int, d0: seq<int>, d: seq<int>, p: seq<int>, visited: seq<bool>, v: int, u: int, c: int)
    requires Shaped(n, d0, d, p, visited) && 0 <= u < n && 0 <= v < n && c < d[u]
    ensures Shaped(n, d0, d[u := c], p[u := v], visited)
  {
  }

  /** Bringing u forward to c, from the edge e of v, gives u the predecessor v. */
  lemma Reparent(adj: seq<seq<Edge>>, d0: seq<int>, d: seq<int>, p: seq<int>, visited: seq<bool>,
                 v: int, k: int, u: int, c: int)
    requires |d0| == |d| == |p| == |visited| == |adj| && Tree(adj, d0, d, p, visited, v)
    requires 0 <= v < |d| && 0 <= u < |d| && u != v && !visited[u] && 0 <= k < |adj[v]|
    requires d[v] < INF && c < d[u] <= d0[u] && u == adj[v][k].dest
    requires Wait(d[v], adj[v][k]) >= 0 && c == Arrive(d[v], adj[v][k])
    ensures Tree(adj, d0, d[u := c], p[u := v], visited, v)
  {
    var d', p' := d[u := c], p[u := v];
    assert adj[v][k] in adj[v];
    forall x | 0 <= x < |d|
      ensures if d'[x] == d0[x] then p'[x] == 0
              else 0 <= p'[x] < |d| && (visited[p'[x]] || p'[x] == v) && d'[p'[x]] < INF && Via(adj, d', p'[x], x)
    {
      if x != u && d[x] != d0[x] {
        assert p[x] != u;
        var e :| e in adj[p[x]] && e.dest == x && Wait(d[p[x]], e) >= 0 && d[x] == Arrive(d[p[x]], e);
        assert d'[p'[x]] == d[p[x]];
      }
    }
  }

  /** Bringing the unvisited u forward to c, no earlier than v's time, keeps the order and the relaxed edges. */
  lemma Lowered(adj: seq<seq<Edge>>, d: seq<int>, visited: seq<bool>, v: int, u: int, c: int)
    requires |d| == |visited| == |adj| && Targets(adj)
    requires SP1.Order(d, visited) && Relaxed(adj, d, visited)
    requires 0 <= v < |d| && !visited[v] && 0 <= u < |d| && !visited[u] && d[v] <= c < d[u]
    ensures SP1.Order(d[u := c], visited) && Relaxed(adj, d[u := c], visited)
  {
    var d' := d[u := c];
    forall a, e | 0 <= a < |d| && visited[a] && e in adj[a] && Wait(d'[a], e) >= 0
      ensures d'[e.dest] <= Arrive(d'[a], e)
    {
      assert d[e.dest] <= Arrive(d[a], e);
    }
  }

  /** Bringing u forward to the arrival c of v's k-th edge keeps v least and relaxes k + 1 edges. */
  lemma LoweredScan(adj: seq<seq<Edge>>, d: seq<int>, visited: seq<bool>, v: int, k: int, u: int, c: int)
    requires Targets(adj) && NonNegative(adj) && |d| == |adj| && 0 <= v < |d| && 0 <= k < |adj[v]|
    requires u == adj[v][k].dest && u != v && Wait(d[v], adj[v][k]) >= 0
    requires c == Arrive(d[v], adj[v][k]) && c < d[u]
    requires |visited| == |d| && Scanned(adj, d, v, k) && SP1.Least(d, visited, v) && !visited[u]
    ensures Scanned(adj, d[u := c], v, k + 1) && SP1.Least(d[u := c], visited, v)
  {
    assert adj[v][k] in adj[v];
  }

  /** Once all of v's edges are relaxed, marking v visited ends the round. */
  lemma Visit(adj: seq<seq<Edge>>, n: int, d0: seq<int>, d: seq<int>, p: seq<int>, visited: seq<bool>, v: int)
    requires 0 <= v < |adj| && Scan(adj, n, d0, d, p, visited, v, |adj[v]|)
    ensures Round(adj, n, d0, d, p, visited[v := true])
  {
    forall e | e in adj[v] && Wait(d[v], e) >= 0
      ensures d[e.dest] <= Arrive(d[v], e)
    {
      var t :| 0 <= t < |adj[v]| && adj[v][t] == e;
    }
  }

  /** Waiting and travelling never take a journey back in time. */
  lemma Later(t: int, e: Edge)
    requires e.d >= 0 && Wait(t, e) >= 0
    ensures t <= Arrive(t, e)
  {
  }

  /**
   * Along any legal journey from a vertex with an initial time there is a vertex, the
   * journey's end or an unvisited one, whose time is at most the journey's arrival.
   */
  lemma {:induction false} Frontier(adj: seq<seq<Edge>>, d0: seq<int>, d: seq<int>, visited: seq<bool>,
                                    q: seq<int>, es: seq<Edge>) returns (x: int)
    requires Targets(adj) && NonNegative(adj) && |d0| == |d| == |visited| == |adj|
    requires Relaxed(adj, d, visited) && forall y :: 0 <= y < |d| ==> d[y] <= d0[y]
    requires Journey(adj, q, es) && Legal(d0[q[0]], es)
    ensures 0 <= x < |adj| && (x == q[|q| - 1] || !visited[x]) && d[x] <= Time(d0[q[0]], es)
    decreases |es|
  {
    if es == [] {
      x := q[0];
    } else {
      Prefix(adj, q, es);
      var es' := es[..|es| - 1];
      var x' := Frontier(adj, d0, d, visited, q[..|q| - 1], es');
      var z, e := q[|q| - 2], es[|es| - 1];
      var t' := Time(d0[q[0]], es');
      assert e in adj[z] && e.dest == q[|q| - 1] && Wait(t', e) >= 0;
      Later(t', e);
      if x' == z && visited[z] {
        Fifo(d[z], t', e);
        x := e.dest;
      } else {
        x := x';
      }
    }
  }

  /** At the end, with every unvisited vertex unreached, the times are the earliest arrivals. */
  lemma Finish(adj: seq<seq<Edge>>, n: int, d0: seq<int>, d: seq<int>, p: seq<int>, visited: seq<bool>)
    requires NonNegative(adj) && Round(adj, n, d0, d, p, visited) && SP1.Settled(d, visited)
    ensures forall q, es :: Journey(adj, q, es) && d0[q[0]] < INF && Legal(d0[q[0]], es) && Time(d0[q[0]], es) < INF
              ==> d[q[|q| - 1]] <= Time(d0[q[0]], es)
    ensures forall x {:trigger p[x]} :: 0 <= x < n && d[x] < d0[x] ==>
              0 <= p[x] < n && d[p[x]] < INF && Via(adj, d, p[x], x)
    ensures forall x :: 0 <= x < n && d[x] == d0[x] ==> p[x] == 0
  {
    forall q, es | Journey(adj, q, es) && d0[q[0]] < INF && Legal(d0[q[0]], es) && Time(d0[q[0]], es) < INF
      ensures d[q[|q| - 1]] <= Time(d0[q[0]], es)
    {
      var x := Frontier(adj, d0, d, visited, q, es);
    }
  }

  /**
   * shortest_path(adj, d, n): from the initial times d0 (INF for a vertex without one), the
   * times end no later than the initial ones, each finite time is the arrival of a legal
   * journey from a vertex with an initial time, and no legal journey arriving before INF
   * arrives earlier. For each vertex brought forward, p[x] is a vertex with an edge arriving
   * at x's time; the others keep the predecessor 0.
   */
  method ShortestPath(adj: seq<seq<Edge>>, d0: seq<int>, n: int) returns (p: seq<int>, d: seq<int>)
    requires |adj| == n && Targets(adj) && NonNegative(adj)
    requires |d0| == n && forall x :: 0 <= x < n ==> d0[x] <= INF
    ensures |p| == n && |d| == n
    ensures forall x :: 0 <= x < n ==> d[x] <= d0[x]
    ensures forall x :: 0 <= x < n && d[x] < INF ==> Reached(adj, d0, x, d[x])
    ensures forall q, es :: Journey(adj, q, es) && d0[q[0]] < INF && Legal(d0[q[0]], es) && Time(d0[q[0]], es) < INF
              ==> d[q[|q| - 1]] <= Time(d0[q[0]], es)
    ensures forall x {:trigger p[x]} :: 0 <= x < n && d[x] < d0[x] ==>
              0 <= p[x] < n && d[p[x]] < INF && Via(adj, d, p[x], x)
    ensures forall x :: 0 <= x < n && d[x] == d0[x] ==> p[x] == 0
  {
    p := seq(n, _ => 0);
    var visited := seq(n, _ => false);
    d := d0;
    forall x | 0 <= x < n && d[x] < INF
      ensures Reached(adj, d0, x, d[x])
    {
      ReachedSelf(adj, d0, x);
    }
    UnmarkedNone(visited);
    var i := 0;
    while i < n
      invariant 0 <= i <= n && Round(adj, n, d0, d, p, visited) && Unmarked(visited) == n - i
    {
      SomeUnmarked(visited);
      var v := SP1.Nearest(d, visited, n);
      if d[v] == INF {
        assert SP1.Settled(d, visited);
        break;
      }
      Choose(adj, n, d0, d, p, visited, v);
      for k := 0 to |adj[v]|
        invariant Scan(adj, n, d0, d, p, visited, v, k)
      {
        var e := adj[v][k];
        var wait := Wait(d[v], e);
        var cost := d[v] + wait + e.d;
        if cost < d[e.dest] && wait >= 0 {
          LowerEdge(adj, n, d0, d, p, visited, v, k, e.dest, cost);
          d := d[e.dest := cost];
          p := p[e.dest := v];
        } else {
          KeepEdge(adj, n, d0, d, p, visited, v, k);
        }
      }
      Visit(adj, n, d0, d, p, visited, v);
      UnmarkedMark(visited, v);
      visited := visited[v := true];
      i := i + 1;
    }
    if i == n {
      NoneUnmarked(visited);
    }
    Finish(adj, n, d0, d, p, visited);
  }
}
