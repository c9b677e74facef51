/**
 * Single-source shortest distances by Dijkstra's algorithm in O(N^2): adj[v] lists the
 * edges (u, w) leaving v, with w >= 0. Each of n rounds takes an unvisited vertex of least
 * tentative distance, stops when that distance is INF, relaxes the vertex's edges and marks
 * it visited. The distances end as the weights of the lightest walks from start, and each
 * reached vertex's predecessor is the vertex of its last edge on such a walk.
 */
module ShortestPath1 {
  import opened Graphs

  /** The distance of a vertex no walk has reached yet. */
  const INF := 0x7fff_ffff

  /** An edge to the vertex .0 of weight .1. */
  type Edge = (int, int)

  /** Every edge leads to a vertex. */
  predicate Targets(adj: seq<seq<Edge>>)
  {
    forall v, e :: 0 <= v < |adj| && e in adj[v] ==> 0 <= e.0 < |adj|
  }

  /** No edge weighs less than nothing. */
  predicate NonNegative(adj: seq<seq<Edge>>)
  {
    forall v, e :: 0 <= v < |adj| && e in adj[v] ==> e.1 >= 0
  }

  /** The sum of a sequence of weights. */
  function Sum(ws: seq<int>): int
  {
    if ws == [] then 0 else Sum(ws[..|ws| - 1]) + ws[|ws| - 1]
  }

  /** q is a walk whose t-th edge, from q[t] to q[t + 1], weighs ws[t]. */
  ghost predicate Walk(adj: seq<seq<Edge>>, q: seq<int>, ws: seq<int>)
  {
    && |q| == |ws| + 1
    && (forall t :: 0 <= t < |q| ==> 0 <= q[t] < |adj|)
    && (forall t :: 0 <= t < |ws| ==> (q[t + 1], ws[t]) in adj[q[t]])
  }

  /** Some walk from s to x weighs c. */
  ghost predicate Path(adj: seq<seq<Edge>>, s: int, x: int, c: int)
  {
    exists q, ws :: Walk(adj, q, ws) && q[0] == s && q[|q| - 1] == x && Sum(ws) == c
  }

  /** The walk of no edges. */
  lemma PathSelf(adj: seq<seq<Edge>>, s: int)
    requires 0 <= s < |adj|
    ensures Path(adj, s, s, 0)
  {
    assert Walk(adj, [s], []);
  }

  /** A walk to v followed by an edge (u, w) of v is a walk to u, heavier by w. */
  lemma PathStep(adj: seq<seq<Edge>>, s: int, v: int, c: int, u: int, w: int)
    requires Path(adj, s, v, c) && 0 <= v < |adj| && (u, w) in adj[v] && 0 <= u < |adj|
    ensures Path(adj, s, u, c + w)
  {
    var q, ws :| Walk(adj, q, ws) && q[0] == s && q[|q| - 1] == v && Sum(ws) == c;
    var q', ws' := q + [u], ws + [w];
    assert ws'[..|ws'| - 1] == ws;
    assert Walk(adj, q', ws');
  }

  /** The first edges of a walk are a walk. */
  lemma Prefix(adj: seq<seq<Edge>>, q: seq<int>, ws: seq<int>)
    requires Walk(adj, q, ws) && |ws| > 0
    ensures Walk(adj, q[..|q| - 1], ws[..|ws| - 1])
  {
  }

  /** The sizes, every distance between 0 and INF, and the start at distance 0. */
  predicate Shaped(n: int, start: int, d: seq<int>, p: seq<int>, visited: seq<bool>)
  {
    && |d| == n && |p| == n && |visited| == n && 0 <= start < n
    && (forall x :: 0 <= x < n ==> 0 <= d[x] <= INF)
    && d[start] == 0
  }

  /** Every finite distance is the weight of a walk from start. */
  ghost predicate Sound(adj: seq<seq<Edge>>, start: int, d: seq<int>)
  {
    forall x :: 0 <= x < |d| && d[x] < INF ==> Path(adj, start, x, d[x])
  }

  /**
   * The predecessors: 0 for the start and the unreached; otherwise a visited vertex, or the
   * vertex v being scanned, whose edge to x weighs the difference of their distances.
   */
  predicate Tree(adj: seq<seq<Edge>>, start: int, d: seq<int>, p: seq<int>, visited: seq<bool>, v: int)
    requires |d| == |p| == |visited| == |adj|
  {
    forall x {:trigger p[x]} :: 0 <= x < |d| ==>
      if x == start || d[x] == INF then p[x] == 0
      else 0 <= p[x] < |d| && (visited[p[x]] || p[x] == v) && d[p[x]] < INF
           && (x, d[x] - d[p[x]]) in adj[p[x]]
  }

  /** p[x] is a reached vertex whose edge to x weighs the difference of their distances. */
  predicate Parent(adj: seq<seq<Edge>>, d: seq<int>, p: seq<int>, x: int)
    requires |d| == |p| == |adj| && 0 <= x < |d|
  {
    0 <= p[x] < |d| && d[p[x]] < INF && (x, d[x] - d[p[x]]) in adj[p[x]]
  }

  /** No visited vertex is farther than an unvisited one. */
  predicate Order(d: seq<int>, visited: seq<bool>)
    requires |d| == |visited|
  {
    forall a, b :: 0 <= a < |d| && 0 <= b < |d| && visited[a] && !visited[b] ==> d[a] <= d[b]
  }

  /** No edge of a visited vertex can shorten a distance. */
  predicate Relaxed(adj: seq<seq<Edge>>, d: seq<int>, visited: seq<bool>)
    requires |d| == |visited| == |adj| && Targets(adj)
  {
    forall a, e :: 0 <= a < |d| && visited[a] && e in adj[a] ==> d[e.0] <= d[a] + e.1
  }

  /** The state between rounds. */
  ghost predicate Round(adj: seq<seq<Edge>>, n: int, start: int, d: seq<int>, p: seq<int>, visited: seq<bool>)
  {
    && |adj| == n && Targets(adj) && Shaped(n, start, d, p, visited)
    && Sound(adj, start, d) && Tree(adj, start, d, p, visited, -1)
    && Order(d, visited) && Relaxed(adj, d, visited)
  }

  /**
   * The state while the unvisited vertex v, of least distance and finite distance, has its
   * first k edges relaxed.
   */
  ghost predicate Scan(adj: seq<seq<Edge>>, n: int, start: int, d: seq<int>, p: seq<int>,
                       visited: seq<bool>, v: int, k: int)
  {
    && |adj| == n && Targets(adj) && Shaped(n, start, d, p, visited)
    && 0 <= v < n && !visited[v] && d[v] < INF && 0 <= k <= |adj[v]|
    && Sound(adj, start, d) && Tree(adj, start, d, p, visited, v)
    && Order(d, visited) && Relaxed(adj, d, visited)
    && Least(d, visited, v) && Scanned(adj, d, v, k)
  }

  /** No unvisited vertex is nearer than v. */
  predicate Least(d: seq<int>, visited: seq<bool>, v: int)
    requires |d| == |visited| && 0 <= v < |d|
  {
    forall b :: 0 <= b < |d| && !visited[b] ==> d[v] <= d[b]
  }

  /** The first k edges of v cannot shorten a distance. */
  predicate Scanned(adj: seq<seq<Edge>>, d: seq<int>, v: int, k: int)
    requires Targets(adj) && |d| == |adj| && 0 <= v < |d| && 0 <= k <= |adj[v]|
  {
    forall t :: 0 <= t < k ==> d[adj[v][t].0] <= d[v] + adj[v][t].1
  }

  /** Every unvisited vertex is unreached. */
  predicate Settled(d: seq<int>, visited: seq<bool>)
    requires |d| == |visited|
  {
    forall x :: 0 <= x < |d| && !visited[x] ==> d[x] == INF
  }

  /** Choosing v, an unvisited vertex of least and finite distance, starts its scan. */
  lemma Choose(adj: seq<seq<Edge>>, n: int, start: int, d: seq<int>, p: seq<int>, visited: seq<bool>, v: int)
    requires Round(adj, n, start, d, p, visited)
    requires 0 <= v < n && !visited[v] && d[v] < INF
    requires Least(d, visited, v)
    ensures Scan(adj, n, start, d, p, visited, v, 0)
  {
  }

  /** Passing over the k-th edge of v, which cannot lower its target's distance, keeps the scan's state. */
  lemma KeepEdge(adj: seq<seq<Edge>>, n: int, start: int, d: seq<int>, p: seq<int>,
                 visited: seq<bool>, v: int, k: int)
    requires Scan(adj, n, start, d, p, visited, v, k) && k < |adj[v]|
    requires d[v] + adj[v][k].1 >= d[adj[v][k].0]
    ensures Scan(adj, n, start, d, p, visited, v, k + 1)
  {
  }

  /** Lowering the distance of the target u of v's k-th edge to c = d[v] + w keeps the scan's state. */
  lemma LowerEdge(adj: seq<seq<Edge>>, n: int, start: int, d: seq<int>, p: seq<int>,
                  visited: seq<bool>, v: int, k: int, u: int, c: int)
    requires NonNegative(adj) && Scan(adj, n, start, d, p, visited, v, k) && k < |adj[v]|
    requires u == adj[v][k].0 && c == d[v] + adj[v][k].1 && c < d[u]
    ensures Scan(adj, n, start, d[u := c], p[u := v], visited, v, k + 1)
  {
    assert adj[v][k] in adj[v];
    assert !visited[u] && u != start && u != v;
    PathStep(adj, start, v, d[v], u, adj[v][k].1);
    Improve(adj, start, d, u, c);
    Reparent(adj, start, d, p, visited, v, u, c);
    Lowered(adj, d, visited, v, u, c);
    LoweredScan(adj, d, visited, v, k, u, c);
    LoweredShape(n, start, d, p, visited, v, u, c);
  }

  /** Lowering u's distance to c, from above the start's 0, keeps the distances' range. */
  lemma LoweredShape(n: int, start: int, d: seq<int>, p: seq<int>, visited: seq<bool>, v: int, u: int, c: int)
    requires Shaped(n, start, d, p, visited) && 0 <= u < n && 0 <= v < n && u != start && 0 <= c < INF
    ensures Shaped(n, start, d[u := c], p[u := v], visited)
  {
  }

  /** Lowering u's distance to c, the weight of a walk from start, keeps every distance justified. */
  lemma Improve(adj: seq<seq<Edge>>, start: int, d: seq<int>, u: int, c: int)
    requires Sound(adj, start, d) && 0 <= u < |d| && c < INF && Path(adj, start, u, c)
    ensures Sound(adj, start, d[u := c])
  {
  }

  /** Lowering u's distance to c through the edge from v gives u the predecessor v. */
  lemma Reparent(adj: seq<seq<Edge>>, start: int, d: seq<int>, p: seq<int>, visited: seq<bool>, v: int, u: int, c: int)
    requires |d| == |p| == |visited| == |adj| && Tree(adj, start, d, p, visited, v)
    requires 0 <= v < |d| && 0 <= u < |d| && u != start && u != v && !visited[u]
    requires d[v] < INF && c < INF && (u, c - d[v]) in adj[v]
    ensures Tree(adj, start, d[u := c], p[u := v], visited, v)
  {
    var d', p' := d[u := c], p[u := v];
    forall x | 0 <= x < |d|
      ensures if x == start || d'[x] == INF then p'[x] == 0
              else 0 <= p'[x] < |d| && (visited[p'[x]] || p'[x] == v) && d'[p'[x]] < INF
                   && (x, d'[x] - d'[p'[x]]) in adj[p'[x]]
    {
      if x != u && x != start && d[x] < INF {
        assert p[x] != u;
      }
    }
  }

  /** Lowering the unvisited u's distance to c, no less than v's, keeps the order and the relaxed edges. */
  lemma Lowered(adj: seq<seq<Edge>>, d: seq<int>, visited: seq<bool>, v: int, u: int, c: int)
    requires |d| == |visited| == |adj| && Targets(adj)
    requires Order(d, visited) && Relaxed(adj, d, visited)
    requires 0 <= v < |d| && !visited[v] && 0 <= u < |d| && !visited[u] && d[v] <= c < d[u]
    ensures Order(d[u := c], visited) && Relaxed(adj, d[u := c], visited)
  {
    var d' := d[u := c];
    forall a, e | 0 <= a < |d| && visited[a] && e in adj[a]
      ensures d'[e.0] <= d'[a] + e.1
    {
      assert d[e.0] <= d[a] + e.1;
    }
  }

  /** Lowering u's distance to c = d[v] + w, through v's k-th edge, keeps v least and relaxes k + 1 edges. */
  lemma LoweredScan(adj: seq<seq<Edge>>, d: seq<int>, visited: seq<bool>, v: int, k: int, u: int, c: int)
    requires Targets(adj) && |d| == |adj| && 0 <= v < |d| && 0 <= k < |adj[v]| && u == adj[v][k].0
    requires c == d[v] + adj[v][k].1 && c < d[u] && adj[v][k].1 >= 0
    requires |visited| == |d| && Scanned(adj, d, v, k) && Least(d, visited, v) && !visited[u]
    ensures Scanned(adj, d[u := c], v, k + 1) && Least(d[u := c], visited, v)
  {
    assert adj[v][k] in adj[v];
  }

  /** Once all of v's edges are relaxed, marking v visited ends the round. */
  lemma Visit(adj: seq<seq<Edge>>, n: int, start: int, d: seq<int>, p: seq<int>, visited: seq<bool>, v: int)
    requires 0 <= v < |adj| && Scan(adj, n, start, d, p, visited, v, |adj[v]|)
    ensures Round(adj, n, start, d, p, visited[v := true])
  {
    forall e | e in adj[v]
      ensures d[e.0] <= d[v] + e.1
    {
      var t :| 0 <= t < |adj[v]| && adj[v][t] == e;
    }
  }

  /**
   * Along any walk from start there is a vertex, the walk's end or an unvisited one, whose
   * distance is at most the walk's weight: the visited prefix of the walk is relaxed.
   */
  lemma {:induction false} Frontier(adj: seq<seq<Edge>>, start: int, d: seq<int>, visited: seq<bool>,
                                    q: seq<int>, ws: seq<int>) returns (x: int)
    requires Targets(adj) && NonNegative(adj) && |d| == |visited| == |adj|
    requires 0 <= start < |adj| && d[start] == 0 && Relaxed(adj, d, visited)
    requires Walk(adj, q, ws) && q[0] == start
    ensures 0 <= x < |adj| && (x == q[|q| - 1] || !visited[x]) && d[x] <= Sum(ws)
    decreases |ws|
  {
    if ws == [] {
      x := start;
    } else {
      Prefix(adj, q, ws);
      var x' := Frontier(adj, start, d, visited, q[..|q| - 1], ws[..|ws| - 1]);
      var z, y, w := q[|q| - 2], q[|q| - 1], ws[|ws| - 1];
      assert (y, w) in adj[z];
      if x' == z && visited[z] {
        x := y;
      } else {
        x := x';
      }
    }
  }

  /** With every unvisited vertex unreached, every walk from start weighs at least its end's distance. */
  lemma Lightest(adj: seq<seq<Edge>>, start: int, d: seq<int>, visited: seq<bool>, q: seq<int>, ws: seq<int>)
    requires Targets(adj) && NonNegative(adj) && |d| == |visited| == |adj|
    requires 0 <= start < |adj| && d[start] == 0 && Relaxed(adj, d, visited)
    requires Order(d, visited) && Settled(d, visited)
    requires Walk(adj, q, ws) && q[0] == start && Sum(ws) < INF
    ensures d[q[|q| - 1]] <= Sum(ws)
  {
    var x := Frontier(adj, start, d, visited, q, ws);
  }

  /**
   * The selection of each round: the first unvisited vertex of least distance, when some
   * vertex is unvisited.
   */
  method Nearest(d: seq<int>, visited: seq<bool>, n: int) returns (v: int)
    requires |d| == n && |visited| == n
    requires exists x :: 0 <= x < n && !visited[x]
    ensures 0 <= v < n && !visited[v] && Least(d, visited, v)
    ensures forall x :: 0 <= x < v && !visited[x] ==> d[v] < d[x]
  {
    v := -1;
    for j := 0 to n
      invariant -1 <= v < j
      invariant v == -1 ==> forall j' :: 0 <= j' < j ==> visited[j']
      invariant v != -1 ==> !visited[v] && forall j' :: 0 <= j' < j && !visited[j'] ==> d[v] <= d[j']
      invariant v != -1 ==> forall j' :: 0 <= j' < v && !visited[j'] ==> d[v] < d[j']
    {
      if !visited[j] && (v == -1 || d[j] < d[v]) {
        v := j;
      }
    }
  }

  /**
   * shortest_path(adj, d, n, start): d starts at INF everywhere and ends with d[start] = 0
   * and, for every vertex, the least weight of a walk from start to it (INF when no walk
   * lighter than INF exists); for every other reached vertex x, p[x] is the vertex of the
   * last edge of such a walk. Unreached vertices keep the predecessor 0.
   */
  method ShortestPath(adj: seq<seq<Edge>>, d0: seq<int>, n: int, start: int) returns (p: seq<int>, d: seq<int>)
    requires |adj| == n && Targets(adj) && NonNegative(adj) && 0 <= start < n
    requires |d0| == n && forall x :: 0 <= x < n ==> d0[x] == INF
    ensures |p| == n && |d| == n && d[start] == 0
    ensures forall x :: 0 <= x < n ==> 0 <= d[x] <= INF
    ensures forall x :: 0 <= x < n && d[x] < INF ==> Path(adj, start, x, d[x])
    ensures forall q, ws :: Walk(adj, q, ws) && q[0] == start && Sum(ws) < INF ==> d[q[|q| - 1]] <= Sum(ws)
    ensures forall x :: 0 <= x < n && x != start && d[x] < INF ==> Parent(adj, d, p, x)
    ensures forall x :: 0 <= x < n && d[x] == INF ==> p[x] == 0
  {
    p := seq(n, _ => 0);
    var visited := seq(n, _ => false);
    d := d0[start := 0];
    PathSelf(adj, start);
    UnmarkedNone(visited);
    var i := 0;
    while i < n
      invariant 0 <= i <= n && Round(adj, n, start, d, p, visited) && Unmarked(visited) == n - i
    {
      SomeUnmarked(visited);
      var v := Nearest(d, visited, n);
      if d[v] == INF {
        assert Settled(d, visited);
        break;
      }
      Choose(adj, n, start, d, p, visited, v);
      for k := 0 to |adj[v]|
        invariant Scan(adj, n, start, d, p, visited, v, k)
      {
        var e := adj[v][k];
        var cost := d[v] + e.1;
        if cost < d[e.0] {
          LowerEdge(adj, n, start, d, p, visited, v, k, e.0, cost);
          d := d[e.0 := cost];
          p := p[e.0 := v];
        } else {
          KeepEdge(adj, n, start, d, p, visited, v, k);
        }
      }
      Visit(adj, n, start, d, p, visited, v);
      UnmarkedMark(visited, v);
      visited := visited[v := true];
      i := i + 1;
    }
    if i == n {
      NoneUnmarked(visited);
    }
    Finish(adj, n, start, d, p, visited);
  }

  /** At the end, with every unvisited vertex unreached, the distances are the least weights of walks. */
  lemma Finish(adj: seq<seq<Edge>>, n: int, start: int, d: seq<int>, p: seq<int>, visited: seq<bool>)
    requires NonNegative(adj) && Round(adj, n, start, d, p, visited) && Settled(d, visited)
    ensures forall q, ws :: Walk(adj, q, ws) && q[0] == start && Sum(ws) < INF ==> d[q[|q| - 1]] <= Sum(ws)
    ensures forall x :: 0 <= x < n && x != start && d[x] < INF ==> Parent(adj, d, p, x)
    ensures forall x :: 0 <= x < n && d[x] == INF ==> p[x] == 0
  {
    forall q, ws | Walk(adj, q, ws) && q[0] == start && Sum(ws) < INF
      ensures d[q[|q| - 1]] <= Sum(ws)
    {
      Lightest(adj, start, d, visited, q, ws);
    }
  }
}
