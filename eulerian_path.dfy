/**
 * Eulerian path in a directed multigraph. path_exists checks the degree condition and,
 * when one vertex has one more outgoing than incoming edge and another one more incoming,
 * adds an edge from the second to the first. Hierholzer's algorithm then walks the graph
 * with a stack, and a closed walk through the added edge is rotated so that it starts
 * after that edge.
 *
 * A graph is a sequence of nodes: `to` and `from` count the incoming and outgoing edges,
 * and `nb` is the queue of out-neighbours, one entry per edge. The algorithm updates the
 * nodes, so a run returns the graph it leaves.
 */
module EulerianPath {

  /** A vertex: its in-degree, its out-degree and its out-neighbours in input order. */
  datatype Node = Node(to: int, from: int, nb: seq<int>)

  function Ind(b: bool): int
  {
    if b then 1 else 0
  }

  /** The edges leaving u towards the listed neighbours. */
  function Out(u: int, nb: seq<int>): multiset<(int, int)>
  {
    if nb == [] then multiset{} else multiset{(u, nb[0])} + Out(u, nb[1..])
  }

  /** The edges leaving the vertices below k. */
  function EdgesTo(adj: seq<Node>, k: int): multiset<(int, int)>
    requires 0 <= k <= |adj|
  {
    if k == 0 then multiset{} else EdgesTo(adj, k - 1) + Out(k - 1, adj[k - 1].nb)
  }

  /** Every edge of the graph, one (from, to) pair per neighbour entry. */
  function Edges(adj: seq<Node>): multiset<(int, int)>
  {
    EdgesTo(adj, |adj|)
  }

  /** The number of edges from the vertices below k into y. */
  function IntoTo(adj: seq<Node>, k: int, y: int): nat
    requires 0 <= k <= |adj|
  {
    if k == 0 then 0 else IntoTo(adj, k - 1, y) + multiset(adj[k - 1].nb)[y]
  }

  /** The number of edges entering y. */
  function Into(adj: seq<Node>, y: int): nat
  {
    IntoTo(adj, |adj|, y)
  }

  /** Out-degrees agree with the neighbour queues, and every neighbour is a vertex. */
  predicate Valid(adj: seq<Node>, n: int)
  {
    && |adj| == n
    && forall v :: 0 <= v < n ==>
         adj[v].from == |adj[v].nb| && forall k :: 0 <= k < |adj[v].nb| ==> 0 <= adj[v].nb[k] < n
  }

  /** The graph as main builds it: both degree counts agree with the edges. */
  predicate Consistent(adj: seq<Node>, n: int)
  {
    Valid(adj, n) && forall v :: 0 <= v < n ==> adj[v].to == Into(adj, v)
  }

  /** Every vertex has as many outgoing as incoming edges. */
  predicate Balanced(adj: seq<Node>)
  {
    forall v :: 0 <= v < |adj| ==> |adj[v].nb| == Into(adj, v)
  }

  function Diff(adj: seq<Node>, v: int): int
    requires 0 <= v < |adj|
  {
    adj[v].from - adj[v].to
  }

  /** The number of vertices below k whose out-degree exceeds the in-degree by d. */
  function Count(adj: seq<Node>, k: int, d: int): nat
    requires 0 <= k <= |adj|
  {
    if k == 0 then 0 else Count(adj, k - 1, d) + Ind(Diff(adj, k - 1) == d)
  }

  /**
   * The condition path_exists checks: every vertex is balanced or off by one, at most one
   * vertex has one outgoing edge too many and at most one has one incoming edge too many.
   */
  predicate DegreesOk(adj: seq<Node>, n: int)
    requires |adj| == n
  {
    && (forall v :: 0 <= v < n ==> -1 <= Diff(adj, v) <= 1)
    && Count(adj, n, 1) <= 1
    && Count(adj, n, -1) <= 1
  }

  /** The consecutive pairs of a walk. */
  function Pairs(q: seq<int>): multiset<(int, int)>
  {
    if |q| < 2 then multiset{} else Pairs(q[..|q| - 1]) + multiset{(q[|q| - 2], q[|q| - 1])}
  }

  /** A walk of k >= 1 vertices has k - 1 pairs. */
  lemma {:induction false} PairsSize(q: seq<int>)
    ensures |Pairs(q)| == if |q| == 0 then 0 else |q| - 1
  {
    if |q| >= 2 {
      PairsSize(q[..|q| - 1]);
    }
  }

  /** The consecutive pairs of a sequence read backwards. */
  function Back(q: seq<int>): multiset<(int, int)>
  {
    if |q| < 2 then multiset{} else Back(q[..|q| - 1]) + multiset{(q[|q| - 1], q[|q| - 2])}
  }

  function Reverse(q: seq<int>): (r: seq<int>)
    ensures |r| == |q| && forall k :: 0 <= k < |q| ==> r[k] == q[|q| - 1 - k]
  {
    if q == [] then [] else [q[|q| - 1]] + Reverse(q[..|q| - 1])
  }

  /** The path starts at a vertex with an extra outgoing edge and ends at one with an extra incoming edge. */
  predicate Ends(adj: seq<Node>, path: seq<int>)
  {
    && |path| >= 1
    && 0 <= path[0] < |adj| && Diff(adj, path[0]) == 1
    && 0 <= path[|path| - 1] < |adj| && Diff(adj, path[|path| - 1]) == -1
  }

  /** An Eulerian path: a walk that uses every edge exactly once. */
  predicate EulerPath(adj: seq<Node>, path: seq<int>)
  {
    |path| >= 1 && Pairs(path) == Edges(adj)
  }

  // ---------------------------------------------------------------------------------
  // Degree sums

  function SumDiff(adj: seq<Node>, k: int): int
    requires 0 <= k <= |adj|
  {
    if k == 0 then 0 else SumDiff(adj, k - 1) + Diff(adj, k - 1)
  }

  function Total(adj: seq<Node>, j: int): nat
    requires 0 <= j <= |adj|
  {
    if j == 0 then 0 else Total(adj, j - 1) + |adj[j - 1].nb|
  }

  /** The in-degrees of the vertices below k, counting the edges from the vertices below j. */
  function InSum(adj: seq<Node>, j: int, k: int): nat
    requires 0 <= j <= |adj| && k >= 0
  {
    if k == 0 then 0 else InSum(adj, j, k - 1) + IntoTo(adj, j, k - 1)
  }

  function CountSum(l: seq<int>, k: int): nat
    requires k >= 0
  {
    if k == 0 then 0 else CountSum(l, k - 1) + multiset(l)[k - 1]
  }

  lemma {:induction false} DiffCounts(adj: seq<Node>, k: int)
    requires 0 <= k <= |adj| && forall v :: 0 <= v < k ==> -1 <= Diff(adj, v) <= 1
    ensures SumDiff(adj, k) == Count(adj, k, 1) - Count(adj, k, -1)
  {
    if k > 0 {
      DiffCounts(adj, k - 1);
    }
  }

  lemma {:induction false} SumDiffSplit(adj: seq<Node>, n: int, k: int)
    requires Consistent(adj, n) && 0 <= k <= n
    ensures SumDiff(adj, k) == Total(adj, k) - InSum(adj, n, k)
  {
    if k > 0 {
      SumDiffSplit(adj, n, k - 1);
    }
  }

  lemma {:induction false} CountSumSnoc(l: seq<int>, x: int, k: int)
    requires k >= 0
    ensures CountSum(l + [x], k) == CountSum(l, k) + Ind(0 <= x < k)
  {
    if k > 0 {
      CountSumSnoc(l, x, k - 1);
    }
  }

  lemma {:induction false} CountSumLen(l: seq<int>, n: int)
    requires n >= 0 && forall k :: 0 <= k < |l| ==> 0 <= l[k] < n
    ensures CountSum(l, n) == |l|
  {
    if l == [] {
      CountSumEmpty(n);
    } else {
      var l' := l[..|l| - 1];
      assert l == l' + [l[|l| - 1]];
      CountSumLen(l', n);
      CountSumSnoc(l', l[|l| - 1], n);
    }
  }

  lemma {:induction false} CountSumEmpty(k: int)
    requires k >= 0
    ensures CountSum([], k) == 0
  {
    if k > 0 {
      CountSumEmpty(k - 1);
    }
  }

  lemma {:induction false} InSumSplit(adj: seq<Node>, j: int, k: int)
    requires 0 < j <= |adj| && k >= 0
    ensures InSum(adj, j, k) == InSum(adj, j - 1, k) + CountSum(adj[j - 1].nb, k)
  {
    if k > 0 {
      InSumSplit(adj, j, k - 1);
    }
  }

  lemma {:induction false} InSumEmpty(adj: seq<Node>, k: int)
    requires k >= 0
    ensures InSum(adj, 0, k) == 0
  {
    if k > 0 {
      InSumEmpty(adj, k - 1);
    }
  }

  /** Summed over all vertices, the in-degrees count every edge once. */
  lemma {:induction false} InSumTotal(adj: seq<Node>, n: int, j: int)
    requires Valid(adj, n) && 0 <= j <= n
    ensures InSum(adj, j, n) == Total(adj, j)
  {
    if j == 0 {
      InSumEmpty(adj, n);
    } else {
      InSumTotal(adj, n, j - 1);
      InSumSplit(adj, j, n);
      CountSumLen(adj[j - 1].nb, n);
    }
  }

  /**
   * In a consistent graph the out-degrees and in-degrees sum to the same total, so when
   * every vertex is off by at most one, as many have an extra outgoing edge as have an
   * extra incoming one.
   */
  lemma Offsets(adj: seq<Node>, n: int)
    requires Consistent(adj, n) && forall v :: 0 <= v < n ==> -1 <= Diff(adj, v) <= 1
    ensures Count(adj, n, 1) == Count(adj, n, -1)
  {
    DiffCounts(adj, n);
    SumDiffSplit(adj, n, n);
    InSumTotal(adj, n, n);
  }

  // ---------------------------------------------------------------------------------
  // Updating one node

  /** Replacing one node's queue changes the edges by exactly the edges of the two queues. */
  lemma {:induction false} EdgesUpdate(adj: seq<Node>, u: int, nd: Node, k: int)
    requires 0 <= u < |adj| && 0 <= k <= |adj|
    ensures u >= k ==> EdgesTo(adj[u := nd], k) == EdgesTo(adj, k)
    ensures u < k ==> EdgesTo(adj[u := nd], k) + Out(u, adj[u].nb) == EdgesTo(adj, k) + Out(u, nd.nb)
  {
    if k > 0 {
      EdgesUpdate(adj, u, nd, k - 1);
      if u < k - 1 {
        Shuffle(EdgesTo(adj[u := nd], k - 1), Out(u, adj[u].nb), EdgesTo(adj, k - 1), Out(u, nd.nb), Out(k - 1, adj[k - 1].nb));
      }
    }
  }

  /** Adding the same multiset t to both sides of x + y == z + w. */
  lemma Shuffle(x: multiset<(int, int)>, y: multiset<(int, int)>, z: multiset<(int, int)>, w: multiset<(int, int)>, t: multiset<(int, int)>)
    requires x + y == z + w
    ensures (x + t) + y == (z + t) + w
  {
    assert (x + t) + y == (x + y) + t;
    assert (z + t) + w == (z + w) + t;
  }

  /** Replacing one node's queue changes each in-degree by the difference of the two queues. */
  lemma {:induction false} IntoUpdate(adj: seq<Node>, u: int, nd: Node, y: int, k: int)
    requires 0 <= u < |adj| && 0 <= k <= |adj|
    ensures u >= k ==> IntoTo(adj[u := nd], k, y) == IntoTo(adj, k, y)
    ensures u < k ==> IntoTo(adj[u := nd], k, y) + multiset(adj[u].nb)[y] == IntoTo(adj, k, y) + multiset(nd.nb)[y]
  {
    if k > 0 {
      IntoUpdate(adj, u, nd, y, k - 1);
    }
  }

  // ---------------------------------------------------------------------------------
  // path_exists

  /** The node bn after path_exists adds the edge bn -> an. */
  function AddEdge(adj: seq<Node>, an: int, bn: int): (a': seq<Node>)
    requires 0 <= bn < |adj|
    ensures |a'| == |adj|
  {
    adj[bn := Node(adj[bn].to, adj[bn].from + 1, adj[bn].nb + [an])]
  }

  /**
   * The degree test: ok exactly when the degree condition holds. On success an and bn are
   * the vertices with an extra outgoing and an extra incoming edge (-1 when there is none),
   * both or neither exist, and the edge bn -> an has been added when they do.
   */
  method PathExists(adj0: seq<Node>, n: int) returns (ok: bool, an: int, bn: int, adj: seq<Node>)
    requires Consistent(adj0, n)
    ensures ok <==> DegreesOk(adj0, n)
    ensures ok ==> (an == -1 <==> Count(adj0, n, 1) == 0) && (an == -1 <==> bn == -1)
    ensures ok && an != -1 ==> 0 <= an < n && Diff(adj0, an) == 1 && 0 <= bn < n && Diff(adj0, bn) == -1
    ensures ok ==> forall v :: 0 <= v < n && v != an && v != bn ==> Diff(adj0, v) == 0
    ensures ok && an != -1 ==> adj == AddEdge(adj0, an, bn)
    ensures !(ok && an != -1) ==> adj == adj0
  {
    adj := adj0;
    an, bn := -1, -1;
    var c1, c2 := 0, 0;
    for i := 0 to n
      invariant c1 == Count(adj0, i, 1) && c2 == Count(adj0, i, -1)
      invariant forall v :: 0 <= v < i ==> -1 <= Diff(adj0, v) <= 1
      invariant (an == -1 <==> c1 == 0) && (an != -1 ==> 0 <= an < i && Diff(adj0, an) == 1)
      invariant (bn == -1 <==> c2 == 0) && (bn != -1 ==> 0 <= bn < i && Diff(adj0, bn) == -1)
      invariant forall v :: 0 <= v < i && Diff(adj0, v) == 1 ==> c1 >= 1 && (c1 == 1 ==> v == an)
      invariant forall v :: 0 <= v < i && Diff(adj0, v) == -1 ==> c2 >= 1 && (c2 == 1 ==> v == bn)
    {
      if adj[i].from - adj[i].to == 1 {
        an := i;
        c1 := c1 + 1;
      } else if adj[i].to - adj[i].from == 1 {
        bn := i;
        c2 := c2 + 1;
      } else if adj[i].to == adj[i].from {
        continue;
      } else {
        assert !(-1 <= Diff(adj0, i) <= 1);
        return false, an, bn, adj;
      }
    }
    if c1 > 1 || c2 > 1 {
      return false, an, bn, adj;
    }
    Offsets(adj0, n);
    if c1 != 0 && c2 != 0 {
      adj := AddEdge(adj, an, bn);
    }
    return true, an, bn, adj;
  }

  /** Adding the edge bn -> an balances a graph whose only unbalanced vertices are an and bn. */
  lemma AddEdgeBalances(adj: seq<Node>, n: int, an: int, bn: int)
    requires Consistent(adj, n) && 0 <= an < n && 0 <= bn < n
    requires Diff(adj, an) == 1 && Diff(adj, bn) == -1
    requires forall v :: 0 <= v < n && v != an && v != bn ==> Diff(adj, v) == 0
    ensures Valid(AddEdge(adj, an, bn), n) && Balanced(AddEdge(adj, an, bn))
  {
    var a' := AddEdge(adj, an, bn);
    assert adj[bn := a'[bn]] == a';
    assert multiset(a'[bn].nb) == multiset(adj[bn].nb) + multiset{an};
    forall v | 0 <= v < n
      ensures |a'[v].nb| == Into(a', v)
    {
      IntoUpdate(adj, bn, a'[bn], v, n);
      assert Into(a', v) == Into(adj, v) + Ind(v == an);
      assert |a'[v].nb| == |adj[v].nb| + Ind(v == bn);
      assert Diff(adj, v) == Ind(v == an) - Ind(v == bn);
    }
  }

  lemma AlreadyBalanced(adj: seq<Node>, n: int)
    requires Consistent(adj, n) && forall v :: 0 <= v < n && v != -1 ==> Diff(adj, v) == 0
    ensures Balanced(adj)
  {
    forall v | 0 <= v < n
      ensures |adj[v].nb| == Into(adj, v)
    {
      assert Diff(adj, v) == 0;
    }
  }

  // ---------------------------------------------------------------------------------
  // Hierholzer's algorithm

  /** The edge from the stack's low point to the last emitted vertex, still to be emitted. */
  function Pending(st: seq<int>, low: int, path: seq<int>): multiset<(int, int)>
    requires st != [] ==> 0 <= low < |st|
  {
    if st != [] && path != [] then multiset{(st[low], path[|path| - 1])} else multiset{}
  }

  /**
   * The shape of the stack loop's state: the stack is a walk from s over vertices; low
   * marks the last position the stack was popped down to, and the emitted vertices, read
   * backwards, are a walk from st[low] that ends at s.
   */
  ghost predicate Shape(n: int, s: int, st: seq<int>, path: seq<int>, low: int)
  {
    && (forall k :: 0 <= k < |st| ==> 0 <= st[k] < n)
    && (forall k :: 0 <= k < |path| ==> 0 <= path[k] < n)
    && (st != [] ==> st[0] == s && 0 <= low < |st|)
    && (path == [] ==> low == 0)
    && (path != [] ==> path[0] == s)
    && (st == [] ==> path != [] && path[|path| - 1] == s)
  }

  /** Only the top of the stack and st[low] can be unbalanced in the remaining graph. */
  ghost predicate Bal(adj: seq<Node>, n: int, st: seq<int>, low: int)
    requires |adj| == n && (st != [] ==> 0 <= low < |st|)
  {
    st != [] ==> forall v :: 0 <= v < n ==>
      |adj[v].nb| - Into(adj, v) == Ind(v == st[|st| - 1]) - Ind(v == st[low])
  }

  /**
   * Every edge of the original graph is in exactly one of the remaining graph, the stack,
   * the emitted walk and the pending edge that joins the last two.
   */
  ghost predicate Acc(adj0: seq<Node>, adj: seq<Node>, st: seq<int>, path: seq<int>, low: int)
    requires st != [] ==> 0 <= low < |st|
  {
    Edges(adj0) == Edges(adj) + Pairs(st) + Back(path) + Pending(st, low, path)
  }

  /** What the stack loop keeps. */
  ghost predicate Inv(adj0: seq<Node>, adj: seq<Node>, n: int, s: int, st: seq<int>, path: seq<int>, low: int)
  {
    && Valid(adj, n)
    && Shape(n, s, st, path, low)
    && Bal(adj, n, st, low)
    && Acc(adj0, adj, st, path, low)
  }

  lemma Init(adj0: seq<Node>, n: int, s: int)
    requires Valid(adj0, n) && Balanced(adj0) && 0 <= s < n
    ensures Inv(adj0, adj0, n, s, [s], [], 0)
  {
    assert Pairs([s]) == multiset{} && Back([]) == multiset{};
  }

  /** A vertex without outgoing edges on top of the stack is st[low]; emitting it keeps the invariant. */
  lemma PopKeeps(adj0: seq<Node>, adj: seq<Node>, n: int, s: int, st: seq<int>, path: seq<int>, low: int)
    requires Inv(adj0, adj, n, s, st, path, low) && st != [] && adj[st[|st| - 1]].from == 0
    ensures Inv(adj0, adj, n, s, st[..|st| - 1], path + [st[|st| - 1]], if |st| >= 2 then |st| - 2 else 0)
  {
    var t := st[|st| - 1];
    assert |adj[t].nb| - Into(adj, t) == 1 - Ind(t == st[low]);
    assert st[low] == t;
    var st', path', low' := st[..|st| - 1], path + [t], if |st| >= 2 then |st| - 2 else 0;
    assert Shape(n, s, st', path', low');
    assert Bal(adj, n, st', low');
    PopAcc(adj0, adj, st, path, low);
  }

  lemma PopAcc(adj0: seq<Node>, adj: seq<Node>, st: seq<int>, path: seq<int>, low: int)
    requires st != [] && 0 <= low < |st| && st[low] == st[|st| - 1] && (path == [] ==> low == 0)
    requires Acc(adj0, adj, st, path, low)
    ensures Acc(adj0, adj, st[..|st| - 1], path + [st[|st| - 1]], if |st| >= 2 then |st| - 2 else 0)
  {
    var t := st[|st| - 1];
    var st', path', low' := st[..|st| - 1], path + [t], if |st| >= 2 then |st| - 2 else 0;
    var x := PopStack(st);
    var y := PopPath(st, path, low);
    assert Pending(st', low', path') == x;
    MoveJoin(Edges(adj0), Edges(adj), Pairs(st), Pairs(st'), x, Back(path), Back(path'), y);
  }

  lemma MoveJoin(all: multiset<(int, int)>, a: multiset<(int, int)>, p: multiset<(int, int)>, p': multiset<(int, int)>,
                 x: multiset<(int, int)>, b: multiset<(int, int)>, b': multiset<(int, int)>, y: multiset<(int, int)>)
    requires all == a + p + b + y && p == p' + x && b' == b + y
    ensures all == a + p' + b' + x
  {
  }

  lemma PopStack(st: seq<int>) returns (x: multiset<(int, int)>)
    requires st != []
    ensures x == if |st| >= 2 then multiset{(st[|st| - 2], st[|st| - 1])} else multiset{}
    ensures Pairs(st) == Pairs(st[..|st| - 1]) + x
  {
    x := if |st| >= 2 then multiset{(st[|st| - 2], st[|st| - 1])} else multiset{};
  }

  lemma PopPath(st: seq<int>, path: seq<int>, low: int) returns (y: multiset<(int, int)>)
    requires st != [] && 0 <= low < |st| && st[low] == st[|st| - 1]
    ensures Back(path + [st[|st| - 1]]) == Back(path) + y
    ensures Pending(st, low, path) == y
  {
    var path' := path + [st[|st| - 1]];
    assert path'[..|path'| - 1] == path;
    y := if path != [] then multiset{(st[|st| - 1], path[|path| - 1])} else multiset{};
  }

  /** Cancelling a common part o from x + y + o == e + o + p. */
  lemma Cancel(x: multiset<(int, int)>, y: multiset<(int, int)>, o: multiset<(int, int)>, e: multiset<(int, int)>, p: multiset<(int, int)>)
    requires x + (y + o) == e + (o + p)
    ensures x + y == e + p
  {
    forall z
      ensures (x + y)[z] == (e + p)[z]
    {
      assert (x + (y + o))[z] == (e + (o + p))[z];
    }
  }

  lemma CancelOne(a: multiset<(int, int)>, b: multiset<(int, int)>, o: multiset<(int, int)>)
    requires a + o == b + o
    ensures a == b
  {
    forall z
      ensures a[z] == b[z]
    {
      assert (a + o)[z] == (b + o)[z];
    }
  }

  lemma RotateSum(p: multiset<(int, int)>, a: multiset<(int, int)>, j: multiset<(int, int)>, b: multiset<(int, int)>,
                   f: multiset<(int, int)>, c: multiset<(int, int)>, r: multiset<(int, int)>)
    requires p == a + j + b && a == f + c && r == b + f + c
    ensures r + j == p
  {
  }


  /** Following the first outgoing edge of the top moves that edge from the graph onto the stack. */
  lemma PushKeeps(adj0: seq<Node>, adj: seq<Node>, n: int, s: int, st: seq<int>, path: seq<int>, low: int)
    returns (adj': seq<Node>)
    requires Inv(adj0, adj, n, s, st, path, low) && st != [] && adj[st[|st| - 1]].from != 0
    ensures var v := st[|st| - 1];
      adj' == adj[v := Node(adj[v].to, adj[v].from - 1, adj[v].nb[1..])]
    ensures Inv(adj0, adj', n, s, st + [adj[st[|st| - 1]].nb[0]], path, low)
    ensures |Edges(adj')| + 1 == |Edges(adj)|
  {
    var v := st[|st| - 1];
    var x := adj[v].nb[0];
    adj' := adj[v := Node(adj[v].to, adj[v].from - 1, adj[v].nb[1..])];
    assert Valid(adj', n) by {
      PushValid(adj, n, v);
    }
    assert Shape(n, s, st + [x], path, low) by {
      PushShape(n, s, st, path, low, x);
    }
    assert Bal(adj', n, st + [x], low) by {
      PushBal(adj, n, st, low);
    }
    assert Edges(adj') + multiset{(v, x)} == Edges(adj) by {
      PushEdges(adj, n, v);
    }
    assert Acc(adj0, adj', st + [x], path, low) by {
      PushAcc(adj0, adj, adj', st, path, low, x);
    }
  }

  lemma PushValid(adj: seq<Node>, n: int, v: int)
    requires Valid(adj, n) && 0 <= v < n && adj[v].from != 0
    ensures Valid(adj[v := Node(adj[v].to, adj[v].from - 1, adj[v].nb[1..])], n)
  {
  }

  lemma PushShape(n: int, s: int, st: seq<int>, path: seq<int>, low: int, x: int)
    requires Shape(n, s, st, path, low) && st != [] && 0 <= x < n
    ensures Shape(n, s, st + [x], path, low)
  {
  }

  lemma PushAcc(adj0: seq<Node>, adj: seq<Node>, adj': seq<Node>, st: seq<int>, path: seq<int>, low: int, x: int)
    requires st != [] && 0 <= low < |st| && Acc(adj0, adj, st, path, low)
    requires Edges(adj') + multiset{(st[|st| - 1], x)} == Edges(adj)
    ensures Acc(adj0, adj', st + [x], path, low)
  {
    var st' := st + [x];
    var e := multiset{(st[|st| - 1], x)};
    assert Pairs(st') == Pairs(st) + e by {
      assert st'[..|st'| - 1] == st;
    }
    assert Pending(st', low, path) == Pending(st, low, path);
    MoveEdge(Edges(adj0), Edges(adj'), e, Pairs(st), Pairs(st'), Back(path), Pending(st, low, path));
  }

  lemma MoveEdge(all: multiset<(int, int)>, a: multiset<(int, int)>, e: multiset<(int, int)>, p: multiset<(int, int)>,
                 p': multiset<(int, int)>, b: multiset<(int, int)>, d: multiset<(int, int)>)
    requires all == (a + e) + p + b + d && p' == p + e
    ensures all == a + p' + b + d
  {
  }

  lemma PushBal(adj: seq<Node>, n: int, st: seq<int>, low: int)
    requires Valid(adj, n) && st != [] && 0 <= low < |st| && 0 <= st[|st| - 1] < n
    requires adj[st[|st| - 1]].from != 0 && Bal(adj, n, st, low)
    ensures var v := st[|st| - 1];
      Bal(adj[v := Node(adj[v].to, adj[v].from - 1, adj[v].nb[1..])], n, st + [adj[v].nb[0]], low)
  {
    var v := st[|st| - 1];
    var x := adj[v].nb[0];
    var nd := Node(adj[v].to, adj[v].from - 1, adj[v].nb[1..]);
    var adj' := adj[v := nd];
    assert adj[v].nb == [x] + nd.nb;
    assert multiset(adj[v].nb) == multiset{x} + multiset(nd.nb);
    forall u | 0 <= u < n
      ensures |adj'[u].nb| - Into(adj', u) == Ind(u == x) - Ind(u == st[low])
    {
      IntoUpdate(adj, v, nd, u, n);
    }
  }

  lemma PushEdges(adj: seq<Node>, n: int, v: int)
    requires Valid(adj, n) && 0 <= v < n && adj[v].from != 0
    ensures Edges(adj[v := Node(adj[v].to, adj[v].from - 1, adj[v].nb[1..])]) + multiset{(v, adj[v].nb[0])} == Edges(adj)
  {
    var nd := Node(adj[v].to, adj[v].from - 1, adj[v].nb[1..]);
    EdgesUpdate(adj, v, nd, n);
    assert Out(v, adj[v].nb) == multiset{(v, adj[v].nb[0])} + Out(v, nd.nb);
    Cancel(Edges(adj[v := nd]), multiset{(v, adj[v].nb[0])}, Out(v, nd.nb), Edges(adj), multiset{});
  }

  /**
   * Hierholzer's stack loop from s on a balanced graph: the emitted vertices, reversed,
   * are a closed walk from s, and its edges together with those left in the graph are
   * exactly the edges of the original graph.
   */
  method Hierholzer(adj0: seq<Node>, n: int, s: int) returns (path: seq<int>, adj: seq<Node>)
    requires Valid(adj0, n) && Balanced(adj0) && 0 <= s < n
    ensures |path| >= 1 && path[0] == s && path[|path| - 1] == s
    ensures Valid(adj, n) && Pairs(path) + Edges(adj) == Edges(adj0)
  {
    adj := adj0;
    var st := [s];
    var emitted := [];
    ghost var low := 0;
    Init(adj0, n, s);
    while st != []
      invariant Inv(adj0, adj, n, s, st, emitted, low)
      decreases 2 * |Edges(adj)| + |st|
    {
      var v := st[|st| - 1];
      if adj[v].from == 0 {
        PopKeeps(adj0, adj, n, s, st, emitted, low);
        emitted := emitted + [v];
        low := if |st| >= 2 then |st| - 2 else 0;
        st := st[..|st| - 1];
      } else {
        var adj' := PushKeeps(adj0, adj, n, s, st, emitted, low);
        var neighbor := adj[v].nb[0];
        st := st + [neighbor];
        adj := adj[v := Node(adj[v].to, adj[v].from - 1, adj[v].nb[1..])];
      }
    }
    path := Reverse(emitted);
    ReverseWalk(emitted);
  }

  // ---------------------------------------------------------------------------------
  // Walk lemmas

  lemma {:induction false} ReverseWalk(q: seq<int>)
    ensures Pairs(Reverse(q)) == Back(q)
  {
    if |q| >= 2 {
      var q' := q[..|q| - 1];
      ReverseWalk(q');
      PairsJoin([q[|q| - 1]], Reverse(q'));
    }
  }

  /** The pairs of a concatenation are those of the parts and the pair where they meet. */
  lemma {:induction false} PairsJoin(a: seq<int>, b: seq<int>)
    requires |a| >= 1 && |b| >= 1
    ensures Pairs(a + b) == Pairs(a) + multiset{(a[|a| - 1], b[0])} + Pairs(b)
    decreases |b|
  {
    if |b| >= 2 {
      var b' := b[..|b| - 1];
      var last := multiset{(b[|b| - 2], b[|b| - 1])};
      DropLast(a, b);
      PairsJoin(a, b');
      assert b'[0] == b[0];
      AppendLast(Pairs(a + b), Pairs(a + b'), last, Pairs(b), Pairs(b'), Pairs(a) + multiset{(a[|a| - 1], b[0])});
    } else {
      assert (a + b)[..|a + b| - 1] == a;
    }
  }

  lemma DropLast(a: seq<int>, b: seq<int>)
    requires |b| >= 2
    ensures Pairs(a + b) == Pairs(a + b[..|b| - 1]) + multiset{(b[|b| - 2], b[|b| - 1])}
  {
    var ab := a + b;
    assert ab[..|ab| - 1] == a + b[..|b| - 1];
    assert ab[|ab| - 2] == b[|b| - 2] && ab[|ab| - 1] == b[|b| - 1];
  }

  lemma AppendLast(x: multiset<(int, int)>, y: multiset<(int, int)>, l: multiset<(int, int)>, b: multiset<(int, int)>,
                   b': multiset<(int, int)>, a: multiset<(int, int)>)
    requires x == y + l && b == b' + l && y == a + b'
    ensures x == a + b
  {
  }

  lemma {:induction false} PairsIndex(q: seq<int>, a: int, b: int) returns (k: int)
    requires (a, b) in Pairs(q)
    ensures 0 <= k < |q| - 1 && q[k] == a && q[k + 1] == b
  {
    var q' := q[..|q| - 1];
    if (a, b) in Pairs(q') {
      k := PairsIndex(q', a, b);
    } else {
      k := |q| - 2;
    }
  }

  /** A multiset contained in another of the same size is equal to it. */
  lemma {:induction false} Fill(a: multiset<(int, int)>, b: multiset<(int, int)>)
    requires a <= b && |a| == |b|
    ensures a == b
  {
    var d := b - a;
    assert b == a + d;
    assert |d| == 0;
  }

  // ---------------------------------------------------------------------------------
  // Rotation

  /**
   * Removing the added edge: the first position where bn is followed by an splits the
   * closed walk, and the walk restarts after it. The result runs from an to bn over the
   * walk's edges but that one.
   */
  method Rotate(path: seq<int>, an: int, bn: int) returns (r: seq<int>)
    requires |path| >= 2 && path[0] == path[|path| - 1] && (bn, an) in Pairs(path)
    ensures |r| == |path| - 1 && r[0] == an && r[|r| - 1] == bn
    ensures Pairs(r) + multiset{(bn, an)} == Pairs(path)
  {
    ghost var k := PairsIndex(path, bn, an);
    var i := 0;
    while !(path[i] == bn && path[i + 1] == an)
      invariant 0 <= i <= k
      decreases k - i
    {
      i := i + 1;
    }
    r := path[i + 1..] + path[1..i + 1];
    RotatePairs(path, i);
  }

  lemma RotatePairs(path: seq<int>, i: int)
    requires |path| >= 2 && path[0] == path[|path| - 1] && 0 <= i < |path| - 1
    ensures Pairs(path[i + 1..] + path[1..i + 1]) + multiset{(path[i], path[i + 1])} == Pairs(path)
  {
    if i >= 1 {
      RotateLater(path, i);
    } else {
      RotateFirst(path);
    }
  }

  lemma RotateFirst(path: seq<int>)
    requires |path| >= 2
    ensures Pairs(path[1..] + path[1..1]) + multiset{(path[0], path[1])} == Pairs(path)
  {
    SplitAt(path, 0);
    assert Pairs(path[..1]) == multiset{};
    assert path[1..] + path[1..1] == path[1..];
  }

  lemma RotateLater(path: seq<int>, i: int)
    requires |path| >= 2 && path[0] == path[|path| - 1] && 1 <= i < |path| - 1
    ensures Pairs(path[i + 1..] + path[1..i + 1]) + multiset{(path[i], path[i + 1])} == Pairs(path)
  {
    var b, c := path[i + 1..], path[1..i + 1];
    SplitAt(path, i);
    SplitHead(path, i);
    assert b[|b| - 1] == path[0] && c[0] == path[1];
    PairsJoin(b, c);
    RotateSum(Pairs(path), Pairs(path[..i + 1]), multiset{(path[i], path[i + 1])}, Pairs(b),
              multiset{(path[0], path[1])}, Pairs(c), Pairs(b + c));
  }

  lemma SplitAt(path: seq<int>, i: int)
    requires 0 <= i < |path| - 1
    ensures Pairs(path) == Pairs(path[..i + 1]) + multiset{(path[i], path[i + 1])} + Pairs(path[i + 1..])
  {
    var a, b := path[..i + 1], path[i + 1..];
    assert path == a + b;
    assert a[|a| - 1] == path[i] && b[0] == path[i + 1];
    PairsJoin(a, b);
  }

  lemma SplitHead(path: seq<int>, i: int)
    requires 1 <= i < |path| - 1
    ensures Pairs(path[..i + 1]) == multiset{(path[0], path[1])} + Pairs(path[1..i + 1])
  {
    var c := path[1..i + 1];
    assert path[..i + 1] == [path[0]] + c;
    PairsJoin([path[0]], c);
  }

  // ---------------------------------------------------------------------------------
  // eulerian_path

  /**
   * eulerian_path as written. Without the degree condition there is no path. With one
   * vertex of each kind the result is empty or an Eulerian path from the vertex with the
   * extra outgoing edge to the one with the extra incoming edge. When every vertex is
   * balanced the closed walk from vertex 0 is returned unchecked: it uses edges of the
   * graph, each at most once, but not necessarily all of them.
   */
  method EulerianPathWritten(adj0: seq<Node>, n: int, m: int) returns (path: seq<int>)
    requires n >= 1 && Consistent(adj0, n) && m == |Edges(adj0)|
    ensures !DegreesOk(adj0, n) ==> path == []
    ensures DegreesOk(adj0, n) && Count(adj0, n, 1) == 0 ==>
      |path| >= 1 && path[0] == 0 && path[|path| - 1] == 0 && Pairs(path) <= Edges(adj0)
    ensures DegreesOk(adj0, n) && Count(adj0, n, 1) != 0 ==>
      path == [] || (EulerPath(adj0, path) && Ends(adj0, path))
  {
    var ok, an, bn, adj := PathExists(adj0, n);
    if !ok {
      return [];
    }
    if an != -1 {
      AddEdgeBalances(adj0, n, an, bn);
    } else {
      AlreadyBalanced(adj0, n);
    }
    var rest;
    path, rest := Hierholzer(adj, n, if an == -1 then 0 else an);
    if an == -1 && bn == -1 {
      return path;
    }
    if |path| - 1 != m + 1 {
      return [];
    }
    path := Closing(adj0, adj, n, m, an, bn, path, rest);
  }

  /**
   * The closing step for one vertex of each kind: a closed walk that uses every edge of the
   * graph with bn -> an added, rotated, is an Eulerian path of the original graph.
   */
  method Closing(adj0: seq<Node>, adj: seq<Node>, n: int, m: int, an: int, bn: int, path: seq<int>, rest: seq<Node>)
    returns (r: seq<int>)
    requires Consistent(adj0, n) && 0 <= an < n && 0 <= bn < n
    requires m == |Edges(adj0)| && adj == AddEdge(adj0, an, bn)
    requires |path| >= 1 && path[0] == an && path[|path| - 1] == an
    requires Pairs(path) + Edges(rest) == Edges(adj) && |path| - 1 == m + 1
    ensures EulerPath(adj0, r) && r[0] == an && r[|r| - 1] == bn
  {
    assert adj[bn] == Node(adj0[bn].to, adj0[bn].from + 1, adj0[bn].nb + [an]);
    assert adj0[bn := adj[bn]] == adj;
    EdgesUpdate(adj0, bn, adj[bn], n);
    OutSnoc(bn, adj0[bn].nb, an);
    Cancel(Edges(adj), multiset{}, Out(bn, adj0[bn].nb), Edges(adj0), multiset{(bn, an)});
    assert Edges(adj) == Edges(adj0) + multiset{(bn, an)};
    PairsSize(path);
    Fill(Pairs(path), Edges(adj));
    r := Rotate(path, an, bn);
    CancelOne(Pairs(r), Edges(adj0), multiset{(bn, an)});
  }

  lemma {:induction false} OutSnoc(u: int, nb: seq<int>, x: int)
    ensures Out(u, nb + [x]) == Out(u, nb) + multiset{(u, x)}
  {
    if nb != [] {
      assert (nb + [x])[1..] == nb[1..] + [x];
      OutSnoc(u, nb[1..], x);
    }
  }

  /**
   * eulerian_path with the edge count checked in the balanced case too: a nonempty result
   * is always an Eulerian path, closed when every vertex is balanced.
   */
  method EulerianPathChecked(adj0: seq<Node>, n: int, m: int) returns (path: seq<int>)
    requires n >= 1 && Consistent(adj0, n) && m == |Edges(adj0)|
    ensures !DegreesOk(adj0, n) ==> path == []
    ensures DegreesOk(adj0, n) && Count(adj0, n, 1) == 0 ==>
      path == [] || (EulerPath(adj0, path) && path[0] == 0 && path[|path| - 1] == 0)
    ensures DegreesOk(adj0, n) && Count(adj0, n, 1) != 0 ==>
      path == [] || (EulerPath(adj0, path) && Ends(adj0, path))
  {
    var ok, an, bn, adj := PathExists(adj0, n);
    if !ok {
      return [];
    }
    if an != -1 {
      AddEdgeBalances(adj0, n, an, bn);
    } else {
      AlreadyBalanced(adj0, n);
    }
    var rest;
    path, rest := Hierholzer(adj, n, if an == -1 then 0 else an);
    if an == -1 && bn == -1 {
      if |path| - 1 != m {
        return [];
      }
      PairsSize(path);
      Fill(Pairs(path), Edges(adj0));
      return path;
    }
    if |path| - 1 != m + 1 {
      return [];
    }
    path := Closing(adj0, adj, n, m, an, bn, path, rest);
  }

  // ---------------------------------------------------------------------------------
  // The unchecked balanced case

  /** Two vertices, each with one edge to itself: balanced, but with no Eulerian path. */
  const TwoLoops := [Node(1, 1, [0]), Node(1, 1, [1])]

  /** A walk along edges of a graph with self-loops only stays at its first vertex. */
  lemma {:induction false} Stays(q: seq<int>)
    requires |q| >= 1 && Pairs(q) <= multiset{(0, 0), (1, 1)}
    ensures forall k :: 0 <= k < |q| ==> q[k] == q[0]
    ensures forall e :: e in Pairs(q) ==> e == (q[0], q[0])
  {
    if |q| >= 2 {
      var q' := q[..|q| - 1];
      Stays(q');
      assert (q[|q| - 2], q[|q| - 1]) in Pairs(q);
    }
  }

  lemma TwoLoopsEdges()
    ensures Consistent(TwoLoops, 2) && Edges(TwoLoops) == multiset{(0, 0), (1, 1)}
  {
    assert EdgesTo(TwoLoops, 1) == multiset{(0, 0)};
    assert IntoTo(TwoLoops, 1, 0) == 1 && IntoTo(TwoLoops, 1, 1) == 0;
  }

  /** No walk on TwoLoops uses both of its edges. */
  lemma NoEulerPath(q: seq<int>)
    ensures !EulerPath(TwoLoops, q)
  {
    TwoLoopsEdges();
    if |q| >= 1 && Pairs(q) <= Edges(TwoLoops) {
      Stays(q);
    }
  }

  /**
   * On TwoLoops every vertex is balanced and no walk uses both edges, yet the unchecked
   * case returns a nonempty walk: the caller prints it instead of "Impossible".
   */
  lemma UncheckedBalanced(path: seq<int>)
    requires |path| >= 1 && path[0] == 0 && Pairs(path) <= Edges(TwoLoops)
    ensures Consistent(TwoLoops, 2) && DegreesOk(TwoLoops, 2) && Count(TwoLoops, 2, 1) == 0
    ensures |Edges(TwoLoops)| == 2
    ensures !EulerPath(TwoLoops, path)
  {
    TwoLoopsEdges();
    assert Diff(TwoLoops, 0) == 0 && Diff(TwoLoops, 1) == 0;
    NoEulerPath(path);
  }
}
