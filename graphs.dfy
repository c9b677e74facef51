/**
 * Graphs given as adjacency lists: the neighbours of vertex v are the entries of adj[v],
 * and the vertices are 0..|adj|-1. Walks and reachability, and the state a queue-based
 * breadth-first search keeps: the marks it has set, the vertices in the order it queued
 * them, and how many of those it has expanded.
 */
module Graphs {

  /** Every listed neighbour is a vertex. */
  predicate Bounded(adj: seq<seq<int>>)
  {
    forall v, k :: 0 <= v < |adj| && 0 <= k < |adj[v]| ==> 0 <= adj[v][k] < |adj|
  }

  /** v is an index of visited and is marked there. */
  predicate Marked(visited: seq<bool>, v: int)
  {
    0 <= v < |visited| && visited[v]
  }

  /** p is a walk: a nonempty sequence of vertices, each after the first a neighbour of the one before. */
  predicate Walk(adj: seq<seq<int>>, p: seq<int>)
  {
    && |p| > 0
    && (forall k :: 0 <= k < |p| ==> 0 <= p[k] < |adj|)
    && (forall k :: 0 <= k < |p| - 1 ==> p[k + 1] in adj[p[k]])
  }

  /** Some walk leads from s to t. */
  ghost predicate Reachable(adj: seq<seq<int>>, s: int, t: int)
  {
    exists p :: Walk(adj, p) && p[0] == s && p[|p| - 1] == t
  }

  /** Every vertex is reachable from itself, by the walk of one vertex. */
  lemma ReachableSelf(adj: seq<seq<int>>, s: int)
    requires 0 <= s < |adj|
    ensures Reachable(adj, s, s)
  {
    assert Walk(adj, [s]);
  }

  /** A walk to v extends to any neighbour of v. */
  lemma ReachableStep(adj: seq<seq<int>>, s: int, v: int, w: int)
    requires Reachable(adj, s, v) && 0 <= v < |adj| && 0 <= w < |adj| && w in adj[v]
    ensures Reachable(adj, s, w)
  {
    var p :| Walk(adj, p) && p[0] == s && p[|p| - 1] == v;
    var p' := p + [w];
    assert forall k :: 0 <= k < |p| ==> p'[k] == p[k];
    assert Walk(adj, p');
  }

  /** Every neighbour of a marked vertex is marked. */
  predicate Closed(adj: seq<seq<int>>, visited: seq<bool>)
  {
    forall v, w :: 0 <= v < |adj| && Marked(visited, v) && w in adj[v] ==> Marked(visited, w)
  }

  /** A closed marking that holds s holds every vertex reachable from s. */
  lemma ClosedReachable(adj: seq<seq<int>>, visited: seq<bool>, s: int, t: int)
    requires Closed(adj, visited) && Marked(visited, s) && Reachable(adj, s, t)
    ensures Marked(visited, t)
  {
    var p :| Walk(adj, p) && p[0] == s && p[|p| - 1] == t;
    var i := 0;
    while i < |p| - 1
      invariant 0 <= i < |p| && Marked(visited, p[i])
    {
      assert p[i + 1] in adj[p[i]];
      i := i + 1;
    }
  }

  /** The number of unmarked entries. */
  function Unmarked(visited: seq<bool>): nat
  {
    if visited == [] then 0 else Unmarked(visited[1..]) + (if visited[0] then 0 else 1)
  }

  /** Setting one unmarked entry leaves one fewer unmarked. */
  lemma {:induction false} UnmarkedMark(visited: seq<bool>, v: int)
    requires 0 <= v < |visited| && !visited[v]
    ensures Unmarked(visited[v := true]) == Unmarked(visited) - 1
    decreases |visited|
  {
    if v > 0 {
      assert visited[v := true][1..] == visited[1..][v - 1 := true];
      UnmarkedMark(visited[1..], v - 1);
    } else {
      assert visited[v := true][1..] == visited[1..];
    }
  }

  /** The number of unmarked entries of a matrix of marks. */
  function Unvisited(visited: seq<seq<bool>>): nat
  {
    if visited == [] then 0 else Unmarked(visited[0]) + Unvisited(visited[1..])
  }

  /** Setting one unmarked entry of the matrix leaves one fewer unmarked. */
  lemma {:induction false} UnvisitedMark(visited: seq<seq<bool>>, i: int, j: int)
    requires 0 <= i < |visited| && 0 <= j < |visited[i]| && !visited[i][j]
    ensures Unvisited(visited[i := visited[i][j := true]]) == Unvisited(visited) - 1
    decreases |visited|
  {
    var v' := visited[i := visited[i][j := true]];
    if i > 0 {
      assert v'[1..] == visited[1..][i - 1 := visited[1..][i - 1][j := true]];
      UnvisitedMark(visited[1..], i - 1, j);
    } else {
      assert v'[1..] == visited[1..];
      UnmarkedMark(visited[0], j);
    }
  }

  /** No vertex is listed twice. */
  predicate Distinct(order: seq<int>)
  {
    forall i, j :: 0 <= i < j < |order| ==> order[i] != order[j]
  }

  /**
   * What a search from start has found: `order` lists the queued vertices, each once and
   * start first; they are exactly the marked ones, and each is reachable from start.
   */
  ghost predicate Discovered(adj: seq<seq<int>>, start: int, visited: seq<bool>, order: seq<int>)
  {
    && |visited| == |adj|
    && |order| > 0 && order[0] == start
    && Distinct(order)
    && (forall k :: 0 <= k < |order| ==> Marked(visited, order[k]) && Reachable(adj, start, order[k]))
    && (forall v :: Marked(visited, v) ==> v in order)
    && Unmarked(visited) + |order| == |adj|
  }

  /** The first h queued vertices are expanded: all their neighbours are marked. */
  predicate Expanded(adj: seq<seq<int>>, visited: seq<bool>, order: seq<int>, h: int)
  {
    && 0 <= h <= |order|
    && forall k, w :: 0 <= k < h && 0 <= order[k] < |adj| && w in adj[order[k]] ==> Marked(visited, w)
  }

  /** The search begins with start alone queued and marked. */
  lemma Begin(adj: seq<seq<int>>, start: int, visited: seq<bool>)
    requires 0 <= start < |adj| && |visited| == |adj| && forall v :: 0 <= v < |visited| ==> !visited[v]
    ensures Discovered(adj, start, visited[start := true], [start])
    ensures Expanded(adj, visited[start := true], [start], 0)
  {
    ReachableSelf(adj, start);
    UnmarkedMark(visited, start);
    UnmarkedNone(visited);
  }

  /** A marking with no marks has every entry unmarked. */
  lemma {:induction false} UnmarkedNone(visited: seq<bool>)
    requires forall v :: 0 <= v < |visited| ==> !visited[v]
    ensures Unmarked(visited) == |visited|
    decreases |visited|
  {
    if visited != [] {
      UnmarkedNone(visited[1..]);
    }
  }

  /** A marking with an unmarked entry left has an index that is not marked. */
  lemma {:induction false} SomeUnmarked(visited: seq<bool>)
    requires Unmarked(visited) > 0
    ensures exists v :: 0 <= v < |visited| && !visited[v]
    decreases |visited|
  {
    if !visited[0] {
      assert 0 <= 0 < |visited| && !visited[0];
    } else {
      SomeUnmarked(visited[1..]);
      var v :| 0 <= v < |visited[1..]| && !visited[1..][v];
      assert !visited[v + 1];
    }
  }

  /** A marking with no unmarked entry left has every entry marked. */
  lemma {:induction false} NoneUnmarked(visited: seq<bool>)
    requires Unmarked(visited) == 0
    ensures forall v :: 0 <= v < |visited| ==> visited[v]
    decreases |visited|
  {
    if visited != [] {
      NoneUnmarked(visited[1..]);
      forall v | 0 < v < |visited|
        ensures visited[v]
      {
        assert visited[v] == visited[1..][v - 1];
      }
    }
  }

  /**
   * Marking and queueing dest, an unmarked neighbour of the vertex order[h] being expanded:
   * the search state is kept, and every mark stays set.
   */
  lemma Push(adj: seq<seq<int>>, start: int, visited: seq<bool>, order: seq<int>, h: int, dest: int,
             visited': seq<bool>, order': seq<int>)
    requires Discovered(adj, start, visited, order) && Expanded(adj, visited, order, h) && h < |order|
    requires 0 <= order[h] < |adj| && 0 <= dest < |adj| && dest in adj[order[h]] && !visited[dest]
    requires visited' == visited[dest := true] && order' == order + [dest]
    ensures Discovered(adj, start, visited', order') && Expanded(adj, visited', order', h)
    ensures forall v :: Marked(visited, v) ==> Marked(visited', v)
    ensures order'[h] == order[h] && order'[h + 1..] == order[h + 1..] + [dest]
  {
    ReachableStep(adj, start, order[h], dest);
    UnmarkedMark(visited, dest);
    assert forall k :: 0 <= k < |order| ==> order'[k] == order[k];
    assert forall v :: Marked(visited, v) ==> Marked(visited', v);
    forall k, w | 0 <= k < h && 0 <= order'[k] < |adj| && w in adj[order'[k]]
      ensures Marked(visited', w)
    {
      assert order'[k] == order[k];
    }
  }

  /** Once every neighbour of order[h] is marked, the first h + 1 queued vertices are expanded. */
  lemma Expand(adj: seq<seq<int>>, visited: seq<bool>, order: seq<int>, h: int)
    requires Expanded(adj, visited, order, h) && h < |order| && 0 <= order[h] < |adj|
    requires forall w :: w in adj[order[h]] ==> Marked(visited, w)
    ensures Expanded(adj, visited, order, h + 1)
  {
  }

  /**
   * With every queued vertex expanded, the marks are exactly the vertices reachable from
   * start.
   */
  lemma Explored(adj: seq<seq<int>>, start: int, visited: seq<bool>, order: seq<int>)
    requires Discovered(adj, start, visited, order) && Expanded(adj, visited, order, |order|)
    ensures forall v :: Marked(visited, v) <==> 0 <= v < |adj| && Reachable(adj, start, v)
  {
    assert Closed(adj, visited) by {
      forall v, w | 0 <= v < |adj| && Marked(visited, v) && w in adj[v]
        ensures Marked(visited, w)
      {
        var k :| 0 <= k < |order| && order[k] == v;
      }
    }
    forall v | 0 <= v < |adj| && Reachable(adj, start, v)
      ensures Marked(visited, v)
    {
      ClosedReachable(adj, visited, start, v);
    }
    forall v | Marked(visited, v)
      ensures Reachable(adj, start, v)
    {
      var k :| 0 <= k < |order| && order[k] == v;
    }
  }
}
