/**
 * Where's my internet: houses 1..N joined by cables; house 1 is connected to the internet,
 * and the answer lists, ascending, every house that no chain of cables joins to it (or
 * "Connected" when there is none). The search is a queue-based breadth-first search over
 * the adjacency lists, with one mark per house and an unused entry 0.
 */
module WheresMyInternet {
  import opened Graphs

  /** All marks of the queued vertices after order[h], and the first `count` neighbours of cur, are set. */
  ghost predicate Scanning(adj: seq<seq<int>>, start: int, visited: seq<bool>, order: seq<int>,
                           h: int, cur: int, q: seq<int>, count: int)
  {
    && Discovered(adj, start, visited, order) && Expanded(adj, visited, order, h)
    && h < |order| && cur == order[h] && 0 <= cur < |adj| && q == order[h + 1..]
    && 0 <= count <= |adj[cur]|
    && forall j :: 0 <= j < count ==> Marked(visited, adj[cur][j])
  }

  /**
   * bfs2(adj, n, start): the houses in 1..n that start cannot reach along the adjacency
   * lists, ascending. The lists have n + 1 entries (entry 0 unused) and name houses 0..n.
   * `order` is the sequence of queued houses: each reachable house is queued exactly once.
   */
  method Unreachable(adj: seq<seq<int>>, n: int, start: int) returns (result: seq<int>, ghost order: seq<int>)
    requires |adj| == n + 1 && Bounded(adj) && 0 <= start <= n
    ensures Distinct(order) && forall v :: v in order <==> 0 <= v <= n && Reachable(adj, start, v)
    ensures forall x :: x in result <==> 1 <= x <= n && !Reachable(adj, start, x)
    ensures forall i, j :: 0 <= i < j < |result| ==> result[i] < result[j]
  {
    var visited := seq(n + 1, _ => false);
    Begin(adj, start, visited);
    var q := [start];
    visited := visited[start := true];
    order := [start];
    ghost var h := 0;
    while q != []
      invariant Discovered(adj, start, visited, order) && Expanded(adj, visited, order, h)
      invariant q == order[h..]
      decreases |adj| - h
    {
      var cur := q[0];
      q := q[1..];
      var i := 0;
      while i < |adj[cur]|
        invariant Scanning(adj, start, visited, order, h, cur, q, i)
        decreases |adj[cur]| - i
      {
        var dest := adj[cur][i];
        if !visited[dest] {
          ghost var visited0, order0 := visited, order;
          visited := visited[dest := true];
          q := q + [dest];
          order := order + [dest];
          Push(adj, start, visited0, order0, h, dest, visited, order);
        }
        i := i + 1;
      }
      Expand(adj, visited, order, h);
      h := h + 1;
    }
    Explored(adj, start, visited, order);
    result := [];
    var i := 1;
    while i < n + 1
      invariant 1 <= i <= n + 1
      invariant forall x :: x in result <==> 1 <= x < i && !visited[x]
      invariant forall a, b :: 0 <= a < b < |result| ==> result[a] < result[b]
      invariant forall k :: 0 <= k < |result| ==> result[k] < i
    {
      if !visited[i] {
        result := result + [i];
      }
      i := i + 1;
    }
  }

  /** The start is reachable from itself, so it is never reported. */
  lemma StartReported(adj: seq<seq<int>>, n: int, start: int, result: seq<int>)
    requires |adj| == n + 1 && 0 <= start <= n
    requires forall x :: x in result <==> 1 <= x <= n && !Reachable(adj, start, x)
    ensures start !in result
  {
    ReachableSelf(adj, start);
  }

  /** main prints "Connected" exactly when every house 1..n is reachable from start. */
  lemma ConnectedVerdict(adj: seq<seq<int>>, n: int, start: int, result: seq<int>)
    requires forall x :: x in result <==> 1 <= x <= n && !Reachable(adj, start, x)
    ensures result == [] <==> forall x :: 1 <= x <= n ==> Reachable(adj, start, x)
  {
    if result != [] {
      assert result[0] in result && !Reachable(adj, start, result[0]);
    }
  }
}
