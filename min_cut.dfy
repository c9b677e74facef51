/**
 * Minimum cut: run maximum flow from s to t, then collect every vertex reachable from s
 * through edges of nonzero residual capacity. Those vertices are the source side of a
 * minimum cut: every listed edge leaving them is saturated.
 *
 * The bfs and augmentation loop of the source are copies of the ones in MaxFlow and are
 * modelled there; this module adds bfs2 and min_cut.
 */
module MinCut {
  import opened Graphs
  import opened MaxFlow

  /** bfs2's state while cur = order[h] is expanded: its first i listed neighbours are dealt with. */
  ghost predicate Sweeping(adj: seq<seq<int>>, cap: seq<seq<int>>, start: int, visited: seq<bool>,
                           order: seq<int>, h: int, cur: int, q: seq<int>, i: int)
    requires Bounded(adj) && Square(cap, |adj|)
  {
    var r := Residual(adj, cap);
    && Discovered(r, start, visited, order) && Expanded(r, visited, order, h)
    && h < |order| && cur == order[h] && 0 <= cur < |adj| && q == order[h + 1..]
    && ScannedUpTo(adj, cap, visited, cur, i)
  }

  /** Marking and queueing the i-th neighbour of cur keeps the state. */
  lemma SweepPush(adj: seq<seq<int>>, cap: seq<seq<int>>, start: int, visited: seq<bool>,
                  order: seq<int>, h: int, cur: int, q: seq<int>, i: int,
                  visited': seq<bool>, order': seq<int>, q': seq<int>, i': int)
    requires Bounded(adj) && Square(cap, |adj|)
    requires Sweeping(adj, cap, start, visited, order, h, cur, q, i) && i < |adj[cur]|
    requires !visited[adj[cur][i]] && cap[cur][adj[cur][i]] != 0
    requires visited' == visited[adj[cur][i] := true] && order' == order + [adj[cur][i]]
    requires q' == q + [adj[cur][i]] && i' == i + 1
    ensures Sweeping(adj, cap, start, visited', order', h, cur, q', i')
  {
    Push(Residual(adj, cap), start, visited, order, h, adj[cur][i], visited', order');
    ScanMarked(adj, cap, visited, cur, i, visited', i');
  }

  /** Passing over a marked neighbour, or one without residual capacity, keeps the state. */
  lemma SweepSkip(adj: seq<seq<int>>, cap: seq<seq<int>>, start: int, visited: seq<bool>,
                  order: seq<int>, h: int, cur: int, q: seq<int>, i: int, i': int)
    requires Bounded(adj) && Square(cap, |adj|)
    requires Sweeping(adj, cap, start, visited, order, h, cur, q, i) && i < |adj[cur]|
    requires visited[adj[cur][i]] || cap[cur][adj[cur][i]] == 0
    requires i' == i + 1
    ensures Sweeping(adj, cap, start, visited, order, h, cur, q, i')
  {
  }

  /** When all of cur's neighbours are dealt with, cur is expanded. */
  lemma Swept(adj: seq<seq<int>>, cap: seq<seq<int>>, start: int, visited: seq<bool>,
              order: seq<int>, h: int, cur: int, q: seq<int>)
    requires Bounded(adj) && Square(cap, |adj|) && 0 <= cur < |adj|
    requires Sweeping(adj, cap, start, visited, order, h, cur, q, |adj[cur]|)
    ensures Discovered(Residual(adj, cap), start, visited, order)
    ensures Expanded(Residual(adj, cap), visited, order, h + 1) && q == order[h + 1..]
  {
    var r := Residual(adj, cap);
    forall w | w in r[cur]
      ensures Marked(visited, w)
    {
      var j :| 0 <= j < |adj[cur]| && adj[cur][j] == w;
    }
    Expand(r, visited, order, h);
  }

  /**
   * bfs2(adj, cap, n, start): the vertices reachable from start through edges of nonzero
   * residual capacity, in increasing order.
   */
  method Reach(adj: seq<seq<int>>, cap: seq<seq<int>>, n: int, start: int) returns (result: seq<int>)
    requires |adj| == n && Bounded(adj) && Square(cap, n) && 0 <= start < n
    ensures forall v :: v in result <==> 0 <= v < n && Reachable(Residual(adj, cap), start, v)
    ensures forall a, b :: 0 <= a < b < |result| ==> result[a] < result[b]
  {
    ghost var r := Residual(adj, cap);
    var visited := seq(n, _ => false);
    Begin(r, start, visited);
    var q := [start];
    visited := visited[start := true];
    ghost var order, h := [start], 0;
    while q != []
      invariant Discovered(r, start, visited, order) && Expanded(r, visited, order, h) && q == order[h..]
      decreases n - h
    {
      var cur := q[0];
      q := q[1..];
      var i := 0;
      while i < |adj[cur]|
        invariant Sweeping(adj, cap, start, visited, order, h, cur, q, i)
        decreases |adj[cur]| - i
      {
        var dest := adj[cur][i];
        ghost var visited0, order0, q0, i0 := visited, order, q, i;
        if !visited[dest] && cap[cur][dest] != 0 {
          visited := visited[dest := true];
          q := q + [dest];
          order := order + [dest];
          i := i + 1;
          SweepPush(adj, cap, start, visited0, order0, h, cur, q0, i0, visited, order, q, i);
        } else {
          i := i + 1;
          SweepSkip(adj, cap, start, visited, order, h, cur, q, i0, i);
        }
      }
      Swept(adj, cap, start, visited, order, h, cur, q);
      h := h + 1;
    }
    Explored(r, start, visited, order);
    result := [];
    var i := 0;
    while i < n
      invariant 0 <= i <= n
      invariant forall v :: v in result <==> 0 <= v < i && visited[v]
      invariant forall a, b :: 0 <= a < b < |result| ==> result[a] < result[b]
      invariant forall k :: 0 <= k < |result| ==> result[k] < i
    {
      if visited[i] {
        result := result + [i];
      }
      i := i + 1;
    }
  }

  /** The start is always on its own side, being reachable from itself. */
  lemma StartInside(adj: seq<seq<int>>, cap: seq<seq<int>>, n: int, start: int, result: seq<int>)
    requires |adj| == n && Bounded(adj) && Square(cap, n) && 0 <= start < n
    requires forall v :: v in result <==> 0 <= v < n && Reachable(Residual(adj, cap), start, v)
    ensures start in result
  {
    ReachableSelf(Residual(adj, cap), start);
  }

  /**
   * Every listed edge from a vertex of the side reachable from s to one outside it has no
   * residual capacity left: the side is closed under residual edges.
   */
  lemma Saturated(adj: seq<seq<int>>, cap: seq<seq<int>>, n: int, s: int, side: seq<int>, u: int, w: int)
    requires |adj| == n && Bounded(adj) && Square(cap, n) && 0 <= s < n
    requires forall v :: v in side <==> 0 <= v < n && Reachable(Residual(adj, cap), s, v)
    requires u in side && 0 <= u < n && w in adj[u]
    ensures w !in side ==> cap[u][w] == 0
  {
    var r := Residual(adj, cap);
    var k :| 0 <= k < |adj[u]| && adj[u][k] == w;
    if cap[u][w] != 0 {
      assert w in r[u];
      ReachableStep(r, s, u, w);
    }
  }

  /**
   * min_cut(adj, cap, s, t, n): maximum flow, then bfs2 from s on the final residuals. The
   * returned side holds exactly the vertices reachable from s in the final residual graph,
   * in increasing order; it holds s, and for s != t it does not hold t. The residuals end
   * nonnegative with every pair's sum kept.
   */
  method Cut(adj: seq<seq<int>>, cap0: seq<seq<int>>, s: int, t: int, n: int)
    returns (side: seq<int>, cap: seq<seq<int>>)
    requires |adj| == n && Bounded(adj) && Square(cap0, n) && NonNegative(cap0) && 0 <= s < n && 0 <= t < n
    ensures Square(cap, n) && NonNegative(cap) && Conserved(cap0, cap, n)
    ensures forall v :: v in side <==> 0 <= v < n && Reachable(Residual(adj, cap), s, v)
    ensures forall a, b :: 0 <= a < b < |side| ==> side[a] < side[b]
    ensures s in side && (s != t ==> t !in side)
  {
    ghost var rounds;
    cap, rounds := MaxFlow.MaxFlow(adj, cap0, n, s, t);
    side := Reach(adj, cap, n, s);
    StartInside(adj, cap, n, s, side);
  }
}
