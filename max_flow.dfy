/**
 * Maximum flow by augmenting paths (Edmonds-Karp). The network is a set of adjacency
 * lists together with a matrix of residual capacities; each round a breadth-first search
 * finds a path from s to t through edges of nonzero residual capacity, and the smallest
 * residual on it is pushed along it, lowering each forward residual and raising each
 * backward one. The rounds stop when no such path is left.
 *
 * The residual matrix is passed by reference in the source and updated in place; here
 * the methods take it as a value and return the updated matrix.
 */
module MaxFlow {
  import opened Graphs

  /** std::numeric_limits<int32_t>::max(), the "no path" value of min_cap. */
  const INF := 0x7fff_ffff

  /** cap is an n-by-n matrix. */
  predicate Square(cap: seq<seq<int>>, n: int)
  {
    |cap| == n && forall u :: 0 <= u < n ==> |cap[u]| == n
  }

  /** No residual capacity is negative. */
  predicate NonNegative(cap: seq<seq<int>>)
  {
    forall u, w :: 0 <= u < |cap| && 0 <= w < |cap[u]| ==> cap[u][w] >= 0
  }

  /** The entries of list whose residual in row is nonzero, in their order. */
  function Keep(list: seq<int>, row: seq<int>): (r: seq<int>)
    requires forall k :: 0 <= k < |list| ==> 0 <= list[k] < |row|
    ensures forall w :: w in r <==> w in list && 0 <= w < |row| && row[w] != 0
  {
    if list == [] then []
    else (if row[list[0]] != 0 then [list[0]] else []) + Keep(list[1..], row)
  }

  /** The residual graph: the listed edges whose residual capacity is nonzero. */
  function Residual(adj: seq<seq<int>>, cap: seq<seq<int>>): (r: seq<seq<int>>)
    requires Bounded(adj) && Square(cap, |adj|)
    ensures |r| == |adj| && Bounded(r)
    ensures forall v, w :: 0 <= v < |adj| ==> (w in r[v] <==> w in adj[v] && 0 <= w < |adj| && cap[v][w] != 0)
  {
    var r := seq(|adj|, v requires 0 <= v < |adj| => Keep(adj[v], cap[v]));
    assert forall v, k :: 0 <= v < |r| && 0 <= k < |r[v]| ==> r[v][k] in r[v];
    r
  }

  /**
   * The smallest residual along the walk p, or INF when p has no edge; min_cap starts at
   * INF and only ever moves down.
   */
  function MinCap(cap: seq<seq<int>>, p: seq<int>): int
    requires forall k :: 0 <= k < |p| ==> 0 <= p[k] < |cap| && p[k] < |cap[p[k]]| && |cap[p[k]]| == |cap|
  {
    if |p| < 2 then INF
    else
      var rest := MinCap(cap, p[1..]);
      if cap[p[0]][p[1]] < rest then cap[p[0]][p[1]] else rest
  }

  /**
   * An augmenting path, as bfs returns it: the vertices after start, ending at goal; with
   * start in front it is a walk of the residual graph that visits no vertex twice.
   */
  ghost predicate Augmenting(adj: seq<seq<int>>, cap: seq<seq<int>>, start: int, goal: int, path: seq<int>)
    requires Bounded(adj) && Square(cap, |adj|)
  {
    && path != [] && path[|path| - 1] == goal
    && Walk(Residual(adj, cap), [start] + path)
    && Distinct([start] + path)
  }

  /**
   * The parent links of bfs: start and the unmarked vertices have none, and each other
   * queued vertex order[k] was queued from order[from[k]], an earlier one, along a
   * residual edge.
   */
  ghost predicate Parents(r: seq<seq<int>>, visited: seq<bool>, parent: seq<int>, order: seq<int>, from: seq<int>)
    requires |r| == |visited| && |order| > 0 && forall k :: 0 <= k < |order| ==> 0 <= order[k] < |visited|
  {
    && |parent| == |visited| && |from| == |order|
    && parent[order[0]] == -1
    && (forall v :: 0 <= v < |parent| ==> -1 <= parent[v] < |parent|)
    && (forall v :: 0 <= v < |parent| && !visited[v] ==> parent[v] == -1)
    && forall k :: 1 <= k < |order| ==>
         0 <= from[k] < k && parent[order[k]] == order[from[k]] && order[k] in r[order[from[k]]]
  }

  /** The state of bfs's search: the shared search state, the parent links, goal not yet marked. */
  ghost predicate Searching(r: seq<seq<int>>, start: int, goal: int, visited: seq<bool>, parent: seq<int>,
                            order: seq<int>, from: seq<int>, h: int)
  {
    && Discovered(r, start, visited, order) && Expanded(r, visited, order, h)
    && Parents(r, visited, parent, order, from)
    && 0 <= goal < |visited| && (start != goal ==> !visited[goal])
  }

  /** The state while cur = order[h] is expanded: its first i listed neighbours are dealt with. */
  ghost predicate Scanning(adj: seq<seq<int>>, cap: seq<seq<int>>, start: int, goal: int,
                           visited: seq<bool>, parent: seq<int>, order: seq<int>, from: seq<int>,
                           h: int, cur: int, q: seq<int>, i: int)
    requires Bounded(adj) && Square(cap, |adj|)
  {
    && Searching(Residual(adj, cap), start, goal, visited, parent, order, from, h)
    && h < |order| && cur == order[h] && 0 <= cur < |adj| && q == order[h + 1..]
    && ScannedUpTo(adj, cap, visited, cur, i)
  }

  /** Each of the first i listed neighbours of cur with nonzero residual is marked. */
  predicate ScannedUpTo(adj: seq<seq<int>>, cap: seq<seq<int>>, visited: seq<bool>, cur: int, i: int)
    requires Bounded(adj) && Square(cap, |adj|) && 0 <= cur < |adj|
  {
    && 0 <= i <= |adj[cur]|
    && forall j :: 0 <= j < i && cap[cur][adj[cur][j]] != 0 ==> Marked(visited, adj[cur][j])
  }

  /** Marking the i-th neighbour of cur extends the scanned prefix by one. */
  lemma ScanMarked(adj: seq<seq<int>>, cap: seq<seq<int>>, visited: seq<bool>, cur: int, i: int,
                   visited': seq<bool>, i': int)
    requires Bounded(adj) && Square(cap, |adj|) && 0 <= cur < |adj|
    requires ScannedUpTo(adj, cap, visited, cur, i) && i < |adj[cur]| && 0 <= adj[cur][i] < |visited|
    requires visited' == visited[adj[cur][i] := true] && i' == i + 1
    ensures ScannedUpTo(adj, cap, visited', cur, i')
  {
  }

  /** Marking and queueing dest from cur keeps the scan state, with dest's parent cur. */
  lemma Discover(adj: seq<seq<int>>, cap: seq<seq<int>>, start: int, goal: int,
                 visited: seq<bool>, parent: seq<int>, order: seq<int>, from: seq<int>,
                 h: int, cur: int, q: seq<int>, i: int,
                 visited': seq<bool>, parent': seq<int>, order': seq<int>, from': seq<int>, q': seq<int>, i': int)
    requires Bounded(adj) && Square(cap, |adj|)
    requires Scanning(adj, cap, start, goal, visited, parent, order, from, h, cur, q, i) && i < |adj[cur]|
    requires !visited[adj[cur][i]] && cap[cur][adj[cur][i]] != 0 && adj[cur][i] != goal
    requires visited' == visited[adj[cur][i] := true] && parent' == parent[adj[cur][i] := cur]
    requires order' == order + [adj[cur][i]] && from' == from + [h] && q' == q + [adj[cur][i]] && i' == i + 1
    ensures Scanning(adj, cap, start, goal, visited', parent', order', from', h, cur, q', i')
  {
    var r, dest := Residual(adj, cap), adj[cur][i];
    Push(r, start, visited, order, h, dest, visited', order');
    Linked(r, visited, parent, order, from, h, dest, visited', parent', order', from');
    ScanMarked(adj, cap, visited, cur, i, visited', i');
  }

  /** A neighbour that is already marked, or has no residual capacity, is passed over. */
  lemma Skip(adj: seq<seq<int>>, cap: seq<seq<int>>, start: int, goal: int,
             visited: seq<bool>, parent: seq<int>, order: seq<int>, from: seq<int>,
             h: int, cur: int, q: seq<int>, i: int, i': int)
    requires Bounded(adj) && Square(cap, |adj|)
    requires Scanning(adj, cap, start, goal, visited, parent, order, from, h, cur, q, i) && i < |adj[cur]|
    requires visited[adj[cur][i]] || cap[cur][adj[cur][i]] == 0
    requires i' == i + 1
    ensures Scanning(adj, cap, start, goal, visited, parent, order, from, h, cur, q, i')
  {
  }

  /** The parent links stay right when dest is queued from order[h]. */
  lemma Linked(r: seq<seq<int>>, visited: seq<bool>, parent: seq<int>, order: seq<int>, from: seq<int>,
               h: int, dest: int, visited': seq<bool>, parent': seq<int>, order': seq<int>, from': seq<int>)
    requires |r| == |visited| && |order| > 0 && forall k :: 0 <= k < |order| ==> 0 <= order[k] < |visited|
    requires forall k :: 0 <= k < |order| ==> visited[order[k]]
    requires Parents(r, visited, parent, order, from) && 0 <= h < |order|
    requires 0 <= dest < |visited| && !visited[dest] && dest in r[order[h]]
    requires visited' == visited[dest := true] && parent' == parent[dest := order[h]]
    requires order' == order + [dest] && from' == from + [h]
    ensures forall k :: 0 <= k < |order'| ==> 0 <= order'[k] < |visited'|
    ensures Parents(r, visited', parent', order', from')
  {
    assert forall k :: 0 <= k < |order| ==> order'[k] == order[k] && order[k] != dest;
  }

  /** The last neighbour of cur dealt with: every residual neighbour of cur is marked. */
  lemma Scanned(adj: seq<seq<int>>, cap: seq<seq<int>>, start: int, goal: int,
                visited: seq<bool>, parent: seq<int>, order: seq<int>, from: seq<int>,
                h: int, cur: int, q: seq<int>)
    requires Bounded(adj) && Square(cap, |adj|)
    requires 0 <= cur < |adj| && Scanning(adj, cap, start, goal, visited, parent, order, from, h, cur, q, |adj[cur]|)
    ensures Searching(Residual(adj, cap), start, goal, visited, parent, order, from, h + 1)
    ensures q == order[h + 1..]
  {
    var r := Residual(adj, cap);
    forall w | w in r[cur]
      ensures Marked(visited, w)
    {
      var j :| 0 <= j < |adj[cur]| && adj[cur][j] == w;
    }
  }

  /** What bfs hands to the read-back: the search state, and goal unreachable if unmarked. */
  ghost predicate Searched(r: seq<seq<int>>, start: int, goal: int, visited: seq<bool>, parent: seq<int>,
                           order: seq<int>, from: seq<int>)
  {
    && Discovered(r, start, visited, order) && Parents(r, visited, parent, order, from)
    && 0 <= goal < |visited| && (!visited[goal] ==> !Reachable(r, start, goal))
  }

  /** Queueing goal itself ends the search with goal marked. */
  lemma Found(adj: seq<seq<int>>, cap: seq<seq<int>>, start: int, goal: int,
              visited: seq<bool>, parent: seq<int>, order: seq<int>, from: seq<int>,
              h: int, cur: int, q: seq<int>, i: int,
              visited': seq<bool>, parent': seq<int>, order': seq<int>, from': seq<int>)
    requires Bounded(adj) && Square(cap, |adj|)
    requires Scanning(adj, cap, start, goal, visited, parent, order, from, h, cur, q, i) && i < |adj[cur]|
    requires !visited[adj[cur][i]] && cap[cur][adj[cur][i]] != 0 && adj[cur][i] == goal
    requires visited' == visited[goal := true] && parent' == parent[goal := cur]
    requires order' == order + [goal] && from' == from + [h]
    ensures Searched(Residual(adj, cap), start, goal, visited', parent', order', from')
  {
    var r := Residual(adj, cap);
    Push(r, start, visited, order, h, goal, visited', order');
    Linked(r, visited, parent, order, from, h, goal, visited', parent', order', from');
  }

  /** A search that ran out of queued vertices has marked everything reachable. */
  lemma Exhausted(r: seq<seq<int>>, start: int, goal: int, visited: seq<bool>, parent: seq<int>,
                  order: seq<int>, from: seq<int>)
    requires Searching(r, start, goal, visited, parent, order, from, |order|)
    ensures Searched(r, start, goal, visited, parent, order, from)
  {
    Explored(r, start, visited, order);
  }

  /**
   * The read-back at vertex i: path holds the vertices after i up to goal, and with i in
   * front it is a residual walk whose vertices were queued in increasing positions ps;
   * min_cap is the smallest residual along it.
   */
  ghost predicate Backtracking(adj: seq<seq<int>>, cap: seq<seq<int>>, start: int, goal: int,
                               visited: seq<bool>, parent: seq<int>, order: seq<int>, from: seq<int>,
                               i: int, path: seq<int>, ps: seq<int>, minCap: int)
    requires Bounded(adj) && Square(cap, |adj|)
  {
    var r := Residual(adj, cap);
    && Searched(r, start, goal, visited, parent, order, from)
    && 0 <= i < |adj|
    && (!visited[i] ==> path == [] && i == goal)
    && (visited[i] ==> Positions(order, [i] + path, ps))
    && (path == [] ==> i == goal)
    && (path != [] ==> path[|path| - 1] == goal)
    && Walk(r, [i] + path)
    && minCap == MinCap(cap, [i] + path)
  }

  /** ps gives, strictly increasing, the position in order of each vertex of p. */
  predicate Positions(order: seq<int>, p: seq<int>, ps: seq<int>)
  {
    && |ps| == |p|
    && (forall k :: 0 <= k < |ps| ==> 0 <= ps[k] < |order| && order[ps[k]] == p[k])
    && (forall a, b :: 0 <= a < b < |ps| ==> ps[a] < ps[b])
  }

  /** One step of the read-back: i is put in front of path and the walk moves to i's parent. */
  lemma BackStep(adj: seq<seq<int>>, cap: seq<seq<int>>, start: int, goal: int,
                 visited: seq<bool>, parent: seq<int>, order: seq<int>, from: seq<int>,
                 i: int, path: seq<int>, ps: seq<int>, minCap: int,
                 i': int, path': seq<int>, ps': seq<int>, minCap': int)
    requires Bounded(adj) && Square(cap, |adj|)
    requires Backtracking(adj, cap, start, goal, visited, parent, order, from, i, path, ps, minCap)
    requires parent[i] != -1 && path' == [i] + path && i' == parent[i]
    requires minCap' == (if cap[parent[i]][i] < minCap then cap[parent[i]][i] else minCap)
    requires visited[i] && ps' == [from[ps[0]]] + ps
    ensures Backtracking(adj, cap, start, goal, visited, parent, order, from, i', path', ps', minCap')
    ensures 0 <= ps'[0] < ps[0]
  {
    var r := Residual(adj, cap);
    var pos := ps[0];
    assert pos != 0;
    assert order[from[pos]] == i' && i in r[i'];
    assert Marked(visited, order[from[pos]]);
    var w := [i'] + path';
    assert w[1..] == [i] + path;
    assert Walk(r, w);
    assert Positions(order, w, ps') by {
      forall k | 0 < k < |ps'|
        ensures 0 <= ps'[k] < |order| && order[ps'[k]] == w[k]
      {
        assert ps'[k] == ps[k - 1] && w[k] == ([i] + path)[k - 1];
      }
    }
  }

  /**
   * The read-back stops at a vertex with no parent: either goal was never reached (or is
   * start) and the path is empty, or the walk has come back to start.
   */
  lemma BackDone(adj: seq<seq<int>>, cap: seq<seq<int>>, start: int, goal: int,
                 visited: seq<bool>, parent: seq<int>, order: seq<int>, from: seq<int>,
                 i: int, path: seq<int>, ps: seq<int>, minCap: int)
    requires Bounded(adj) && Square(cap, |adj|)
    requires Backtracking(adj, cap, start, goal, visited, parent, order, from, i, path, ps, minCap)
    requires parent[i] == -1
    ensures path == [] <==> start == goal || !Reachable(Residual(adj, cap), start, goal)
    ensures path != [] ==> Augmenting(adj, cap, start, goal, path)
    ensures minCap == MinCap(cap, [start] + path)
  {
    var r := Residual(adj, cap);
    if visited[i] {
      var pos := ps[0];
      assert pos == 0;
      var p := [i] + path;
      assert Distinct(p) by {
        forall a, b | 0 <= a < b < |p|
          ensures p[a] != p[b]
        {
          assert order[ps[a]] == p[a] && order[ps[b]] == p[b];
        }
      }
      if path == [] {
        assert i == goal == start;
      } else {
        assert Reachable(r, start, goal) by {
          assert p[0] == start && p[|p| - 1] == goal;
        }
      }
    }
  }

  /**
   * The search of bfs: from start, through residual edges, queueing each vertex once and
   * stopping as soon as goal is queued. Afterwards goal is marked or unreachable, and the
   * parent links lead back along residual edges from every marked vertex to start.
   */
  method Search(adj: seq<seq<int>>, cap: seq<seq<int>>, n: int, start: int, goal: int)
    returns (visited: seq<bool>, parent: seq<int>, ghost order: seq<int>, ghost from: seq<int>)
    requires |adj| == n && Bounded(adj) && Square(cap, n) && 0 <= start < n && 0 <= goal < n
    ensures Searched(Residual(adj, cap), start, goal, visited, parent, order, from)
  {
    ghost var r := Residual(adj, cap);
    visited := seq(n, _ => false);
    parent := seq(n, _ => -1);
    Begin(r, start, visited);
    var q := [start];
    visited := visited[start := true];
    order, from := [start], [-1];
    ghost var h := 0;
    label search:
    while q != []
      invariant Searching(r, start, goal, visited, parent, order, from, h) && q == order[h..]
      decreases n - h
    {
      var cur := q[0];
      q := q[1..];
      var i := 0;
      while i < |adj[cur]|
        invariant Scanning(adj, cap, start, goal, visited, parent, order, from, h, cur, q, i)
        decreases |adj[cur]| - i
      {
        var dest := adj[cur][i];
        ghost var visited0, parent0, order0, from0, q0, i0 := visited, parent, order, from, q, i;
        if !visited[dest] && cap[cur][dest] != 0 {
          visited := visited[dest := true];
          q := q + [dest];
          parent := parent[dest := cur];
          order, from := order + [dest], from + [h];
          if dest == goal {
            Found(adj, cap, start, goal, visited0, parent0, order0, from0, h, cur, q0, i,
                  visited, parent, order, from);
            return;
          }
          i := i + 1;
          Discover(adj, cap, start, goal, visited0, parent0, order0, from0, h, cur, q0, i0,
                   visited, parent, order, from, q, i);
        } else {
          i := i + 1;
          Skip(adj, cap, start, goal, visited, parent, order, from, h, cur, q, i0, i);
        }
      }
      Scanned(adj, cap, start, goal, visited, parent, order, from, h, cur, q);
      h := h + 1;
    }
    Exhausted(r, start, goal, visited, parent, order, from);
  }

  /** The read-back starts at goal with an empty path. */
  lemma BackStart(adj: seq<seq<int>>, cap: seq<seq<int>>, start: int, goal: int,
                  visited: seq<bool>, parent: seq<int>, order: seq<int>, from: seq<int>, ps: seq<int>)
    requires Bounded(adj) && Square(cap, |adj|)
    requires Searched(Residual(adj, cap), start, goal, visited, parent, order, from)
    requires visited[goal] ==> |ps| == 1 && 0 <= ps[0] < |order| && order[ps[0]] == goal
    ensures Backtracking(adj, cap, start, goal, visited, parent, order, from, goal, [], ps, INF)
  {
  }

  /**
   * bfs(adj, cap, n, start, goal): the search, then the walk back along the parent links
   * from goal. The path is empty exactly when goal is start or no residual walk reaches
   * it; otherwise it is an augmenting path to goal. min_cap is the smallest residual along
   * the path, INF when it is empty.
   */
  method Bfs(adj: seq<seq<int>>, cap: seq<seq<int>>, n: int, start: int, goal: int)
    returns (path: seq<int>, minCap: int)
    requires |adj| == n && Bounded(adj) && Square(cap, n) && 0 <= start < n && 0 <= goal < n
    ensures path == [] <==> start == goal || !Reachable(Residual(adj, cap), start, goal)
    ensures path != [] ==> Augmenting(adj, cap, start, goal, path)
    ensures minCap == MinCap(cap, [start] + path)
  {
    var visited, parent, order, from := Search(adj, cap, n, start, goal);
    path := [];
    minCap := INF;
    var i := goal;
    ghost var ps := [];
    if visited[goal] {
      assert Marked(visited, goal);
      ghost var pos :| 0 <= pos < |order| && order[pos] == goal;
      ps := [pos];
    }
    BackStart(adj, cap, start, goal, visited, parent, order, from, ps);
    while parent[i] != -1
      invariant Backtracking(adj, cap, start, goal, visited, parent, order, from, i, path, ps, minCap)
      decreases if visited[i] then ps[0] else 0
    {
      var c := cap[parent[i]][i];
      ghost var i0, path0, ps0, minCap0 := i, path, ps, minCap;
      path := [i] + path;
      if c < minCap {
        minCap := c;
      }
      i := parent[i];
      ps := [from[ps[0]]] + ps;
      BackStep(adj, cap, start, goal, visited, parent, order, from, i0, path0, ps0, minCap0,
               i, path, ps, minCap);
    }
    BackDone(adj, cap, start, goal, visited, parent, order, from, i, path, ps, minCap);
  }

  /** The smallest residual along a walk with an edge is at most each of its edges' residuals. */
  lemma {:induction false} MinCapBelow(cap: seq<seq<int>>, p: seq<int>, k: int)
    requires forall k :: 0 <= k < |p| ==> 0 <= p[k] < |cap| && p[k] < |cap[p[k]]| && |cap[p[k]]| == |cap|
    requires 0 <= k < |p| - 1
    ensures MinCap(cap, p) <= cap[p[k]][p[k + 1]]
    decreases |p|
  {
    if k > 0 {
      MinCapBelow(cap, p[1..], k - 1);
      assert p[1..][k - 1] == p[k] && p[1..][k] == p[k + 1];
    }
  }

  /** ... and is one of them, unless it is INF and the walk has no edge below INF. */
  lemma {:induction false} MinCapAttained(cap: seq<seq<int>>, p: seq<int>) returns (k: int)
    requires forall k :: 0 <= k < |p| ==> 0 <= p[k] < |cap| && p[k] < |cap[p[k]]| && |cap[p[k]]| == |cap|
    requires |p| >= 2 && MinCap(cap, p) < INF
    ensures 0 <= k < |p| - 1 && MinCap(cap, p) == cap[p[k]][p[k + 1]]
    decreases |p|
  {
    var rest := MinCap(cap, p[1..]);
    if cap[p[0]][p[1]] < rest {
      k := 0;
    } else {
      var k' := MinCapAttained(cap, p[1..]);
      k := k' + 1;
      assert p[1..][k'] == p[k] && p[1..][k' + 1] == p[k + 1];
    }
  }

  /** Along a walk whose residuals are all positive, min_cap is positive. */
  lemma MinCapPositive(cap: seq<seq<int>>, p: seq<int>)
    requires forall k :: 0 <= k < |p| ==> 0 <= p[k] < |cap| && p[k] < |cap[p[k]]| && |cap[p[k]]| == |cap|
    requires |p| >= 2 && forall k :: 0 <= k < |p| - 1 ==> cap[p[k]][p[k + 1]] > 0
    ensures MinCap(cap, p) >= 1
  {
    if MinCap(cap, p) < INF {
      var k := MinCapAttained(cap, p);
    }
  }

  /** (u, w) is one of the first j edges of the walk p. */
  ghost predicate OnPath(p: seq<int>, j: int, u: int, w: int)
  {
    exists k :: 0 <= k < j && k + 1 < |p| && p[k] == u && p[k + 1] == w
  }

  /**
   * cap is cap0 after f has been pushed along the first j edges of p: f less on each of
   * them, f more on each reverse edge, everything else as it was.
   */
  ghost predicate Pushed(cap0: seq<seq<int>>, cap: seq<seq<int>>, n: int, p: seq<int>, f: int, j: int)
  {
    && Square(cap0, n) && Square(cap, n)
    && forall u, w :: 0 <= u < n && 0 <= w < n ==>
         cap[u][w] == cap0[u][w] - (if OnPath(p, j, u, w) then f else 0) + (if OnPath(p, j, w, u) then f else 0)
  }

  /** The edges of a walk without repeated vertices: the next one is new, and so is its reverse. */
  lemma OnPathNext(p: seq<int>, j: int, u: int, w: int)
    requires Distinct(p) && 0 <= j < |p| - 1
    ensures OnPath(p, j + 1, u, w) <==> OnPath(p, j, u, w) || (u == p[j] && w == p[j + 1])
    ensures !OnPath(p, j, p[j], p[j + 1]) && !OnPath(p, j + 1, p[j + 1], p[j])
  {
  }

  /** No edge of a walk without repeated vertices is the reverse of another. */
  lemma OnPathOneWay(p: seq<int>, j: int, u: int, w: int)
    requires Distinct(p) && OnPath(p, j, u, w)
    ensures !OnPath(p, j, w, u)
  {
    var k :| 0 <= k < j && k + 1 < |p| && p[k] == u && p[k + 1] == w;
    forall m | 0 <= m < j && m + 1 < |p| && p[m] == w
      ensures p[m + 1] != u
    {
      assert m == k + 1;
    }
  }

  /** One step of the update loop: f is pushed along edge j of p, cur = p[j] to v = p[j + 1]. */
  lemma PushStep(cap0: seq<seq<int>>, cap: seq<seq<int>>, n: int, p: seq<int>, f: int, j: int,
                 cur: int, v: int, mid: seq<seq<int>>, cap': seq<seq<int>>, j': int)
    requires Pushed(cap0, cap, n, p, f, j) && Distinct(p) && 0 <= j < |p| - 1
    requires cur == p[j] && v == p[j + 1] && 0 <= cur < n && 0 <= v < n
    requires mid == cap[cur := cap[cur][v := cap[cur][v] - f]]
    requires cap' == mid[v := mid[v][cur := mid[v][cur] + f]] && j' == j + 1
    ensures Pushed(cap0, cap', n, p, f, j')
  {
    forall u, w | 0 <= u < n && 0 <= w < n
      ensures cap'[u][w] == cap0[u][w] - (if OnPath(p, j', u, w) then f else 0) + (if OnPath(p, j', w, u) then f else 0)
    {
      OnPathNext(p, j, u, w);
      OnPathNext(p, j, w, u);
    }
  }

  /**
   * The update loop of max_flow: for each vertex v of path in turn, starting from cur = s,
   * the residual cur->v drops by f and v->cur rises by f.
   */
  method Augment(cap: seq<seq<int>>, n: int, s: int, path: seq<int>, f: int) returns (cap': seq<seq<int>>)
    requires Square(cap, n) && 0 <= s < n && (forall k :: 0 <= k < |path| ==> 0 <= path[k] < n)
    requires Distinct([s] + path)
    ensures Pushed(cap, cap', n, [s] + path, f, |path|)
  {
    ghost var p := [s] + path;
    cap' := cap;
    var cur := s;
    var j := 0;
    while j < |path|
      invariant 0 <= j <= |path| && cur == p[j] && Pushed(cap, cap', n, p, f, j)
    {
      var v := path[j];
      ghost var cap0, j0, cur0 := cap', j, cur;
      cap' := cap'[cur := cap'[cur][v := cap'[cur][v] - f]];
      ghost var mid := cap';
      cap' := cap'[v := cap'[v][cur := cap'[v][cur] + f]];
      cur := v;
      j := j + 1;
      PushStep(cap, cap0, n, p, f, j0, cur0, v, mid, cap', j);
    }
  }

  /** cap[u][w] + cap[w][u] is the same in both matrices for every pair u, w. */
  predicate Conserved(cap0: seq<seq<int>>, cap: seq<seq<int>>, n: int)
    requires Square(cap0, n) && Square(cap, n)
  {
    forall u, w :: 0 <= u < n && 0 <= w < n ==> cap[u][w] + cap[w][u] == cap0[u][w] + cap0[w][u]
  }

  /** The total residual of a row. */
  function RowSum(row: seq<int>): int
  {
    if row == [] then 0 else row[0] + RowSum(row[1..])
  }

  /** Changing one entry of a row changes its total by the same amount. */
  lemma {:induction false} RowSumUpdate(row: seq<int>, w: int, d: int)
    requires 0 <= w < |row|
    ensures RowSum(row[w := row[w] + d]) == RowSum(row) + d
    decreases |row|
  {
    if w > 0 {
      assert row[w := row[w] + d][1..] == row[1..][w - 1 := row[1..][w - 1] + d];
      RowSumUpdate(row[1..], w - 1, d);
    } else {
      assert row[w := row[w] + d][1..] == row[1..];
    }
  }

  /** A row with no negative entry has a nonnegative total. */
  lemma {:induction false} RowSumNonNegative(row: seq<int>)
    requires forall w :: 0 <= w < |row| ==> row[w] >= 0
    ensures RowSum(row) >= 0
    decreases |row|
  {
    if row != [] {
      RowSumNonNegative(row[1..]);
    }
  }

  /** Pushing f along a walk without repeated vertices keeps every pair's sum. */
  lemma PushedConserves(cap0: seq<seq<int>>, cap: seq<seq<int>>, n: int, p: seq<int>, f: int, j: int)
    requires Pushed(cap0, cap, n, p, f, j)
    ensures Conserved(cap0, cap, n)
  {
  }

  /** Pushing at most the smallest residual along the walk leaves no residual negative. */
  lemma PushedNonNegative(cap0: seq<seq<int>>, cap: seq<seq<int>>, n: int, p: seq<int>, f: int)
    requires Pushed(cap0, cap, n, p, f, |p| - 1) && NonNegative(cap0) && Distinct(p) && f >= 0
    requires forall k :: 0 <= k < |p| ==> 0 <= p[k] < n
    requires f == MinCap(cap0, p)
    ensures NonNegative(cap)
  {
    var j := |p| - 1;
    forall u, w | 0 <= u < n && 0 <= w < n
      ensures cap[u][w] >= 0
    {
      if OnPath(p, j, u, w) {
        OnPathOneWay(p, j, u, w);
        var k :| 0 <= k < j && k + 1 < |p| && p[k] == u && p[k + 1] == w;
        MinCapBelow(cap0, p, k);
      }
    }
  }

  /** Only the first edge leaves s, and none enters it: row s loses f at p[1]. */
  lemma PushedSource(cap0: seq<seq<int>>, cap: seq<seq<int>>, n: int, p: seq<int>, f: int)
    requires Pushed(cap0, cap, n, p, f, |p| - 1) && Distinct(p) && |p| >= 2
    requires forall k :: 0 <= k < |p| ==> 0 <= p[k] < n
    ensures RowSum(cap[p[0]]) == RowSum(cap0[p[0]]) - f
  {
    var j, s := |p| - 1, p[0];
    forall w | 0 <= w < n
      ensures cap[s][w] == cap0[s][p[1] := cap0[s][p[1]] + -f][w]
    {
      forall k | 0 <= k < j && p[k] == w
        ensures p[k + 1] != s
      {
        assert p[k + 1] != p[0];
      }
      forall k | 0 <= k < j && p[k] == s
        ensures k == 0
      {
      }
      if w == p[1] {
        assert OnPath(p, j, s, w);
      }
    }
    assert cap[s] == cap0[s][p[1] := cap0[s][p[1]] + -f];
    RowSumUpdate(cap0[s], p[1], -f);
  }

  /**
   * Pushing min_cap along an augmenting path from s: every residual stays nonnegative,
   * every pair keeps its sum, and the total residual out of s drops by min_cap, which is
   * at least 1.
   */
  lemma Augmented(adj: seq<seq<int>>, cap0: seq<seq<int>>, cap: seq<seq<int>>, n: int, s: int, t: int,
                  path: seq<int>, f: int)
    requires |adj| == n && Bounded(adj) && Square(cap0, n) && NonNegative(cap0) && 0 <= s < n
    requires Augmenting(adj, cap0, s, t, path) && f == MinCap(cap0, [s] + path)
    requires Pushed(cap0, cap, n, [s] + path, f, |path|)
    ensures NonNegative(cap) && Conserved(cap0, cap, n)
    ensures f >= 1 && RowSum(cap[s]) == RowSum(cap0[s]) - f && RowSum(cap[s]) >= 0
  {
    var p := [s] + path;
    var r := Residual(adj, cap0);
    assert forall k :: 0 <= k < |p| - 1 ==> p[k + 1] in r[p[k]];
    MinCapPositive(cap0, p);
    PushedConserves(cap0, cap, n, p, f, |path|);
    PushedNonNegative(cap0, cap, n, p, f);
    PushedSource(cap0, cap, n, p, f);
    RowSumNonNegative(cap[s]);
  }

  /**
   * max_flow(adj, cap, s, t, n): augment along bfs's path, by its min_cap, until bfs finds
   * none. On return no residual walk leads from s to t, no residual is negative, and
   * cap[u][w] + cap[w][u] is what it was for every pair; each of the `rounds` rounds moved
   * at least one unit out of s.
   */
  method MaxFlow(adj: seq<seq<int>>, cap0: seq<seq<int>>, n: int, s: int, t: int)
    returns (cap: seq<seq<int>>, ghost rounds: nat)
    requires |adj| == n && Bounded(adj) && Square(cap0, n) && NonNegative(cap0) && 0 <= s < n && 0 <= t < n
    ensures Square(cap, n) && NonNegative(cap) && Conserved(cap0, cap, n)
    ensures s == t || !Reachable(Residual(adj, cap), s, t)
    ensures RowSum(cap[s]) + rounds <= RowSum(cap0[s])
  {
    cap, rounds := cap0, 0;
    RowSumNonNegative(cap[s]);
    while true
      invariant Square(cap, n) && NonNegative(cap) && Conserved(cap0, cap, n)
      invariant RowSum(cap[s]) + rounds <= RowSum(cap0[s]) && RowSum(cap[s]) >= 0
      decreases RowSum(cap[s])
    {
      var path, newFlow := Bfs(adj, cap, n, s, t);
      if path == [] {
        break;
      }
      ghost var before := cap;
      cap := Augment(cap, n, s, path, newFlow);
      Augmented(adj, before, cap, n, s, t, path, newFlow);
      rounds := rounds + 1;
    }
  }
}
