/**
 * Kruskal's minimum spanning tree: the edges in order of weight, each taken when its
 * endpoints lie in different sets of a disjoint-set union, which then joins them. The
 * union-find this file copies is the one modelled in `UnionFind`.
 */
module MinimumSpanningTree {
  import opened UnionFind

  datatype Edge = Edge(u: int, v: int, w: int)

  /** Edge::operator<: by weight alone. */
  predicate Less(e: Edge, f: Edge)
  {
    e.w < f.w
  }

  /** Sorted for operator<: no later edge is less than an earlier one. */
  predicate SortedByWeight(s: seq<Edge>)
  {
    forall i, j :: 0 <= i < j < |s| ==> !Less(s[j], s[i])
  }

  /** The pair emitted for an edge: the smaller endpoint first. */
  function Ordered(e: Edge): (r: (int, int))
    ensures r.0 <= r.1 && {r.0, r.1} == {e.u, e.v}
  {
    if e.u < e.v then (e.u, e.v) else (e.v, e.u)
  }

  function Pairs(s: seq<Edge>): (r: seq<(int, int)>)
    ensures |r| == |s| && forall k :: 0 <= k < |s| ==> r[k] == Ordered(s[k])
  {
    if s == [] then [] else Pairs(s[..|s| - 1]) + [Ordered(s[|s| - 1])]
  }

  function WeightSum(s: seq<Edge>): int
  {
    if s == [] then 0 else WeightSum(s[..|s| - 1]) + s[|s| - 1].w
  }

  /** The entries of s whose flag is set, in order. */
  function Select(s: seq<Edge>, flags: seq<bool>): seq<Edge>
    requires |flags| == |s|
  {
    if s == [] then [] else Select(s[..|s| - 1], flags[..|s| - 1]) + (if flags[|s| - 1] then [s[|s| - 1]] else [])
  }

  predicate EndpointsIn(edges: seq<Edge>, n: int)
  {
    forall k :: 0 <= k < |edges| ==> 0 <= edges[k].u < n && 0 <= edges[k].v < n
  }

  // ---------------------------------------------------------------------------
  // Connectivity of an edge list.

  /** Some edge of es joins a and b, in either direction. */
  ghost predicate Joins(es: seq<Edge>, a: int, b: int)
  {
    exists f :: f in es && ((f.u == a && f.v == b) || (f.u == b && f.v == a))
  }

  /** w is a walk through vertices of [0, n), each step along an edge of es. */
  ghost predicate Walk(es: seq<Edge>, n: int, w: seq<int>)
  {
    && |w| >= 1
    && (forall i :: 0 <= i < |w| ==> 0 <= w[i] < n)
    && (forall i :: 0 <= i < |w| - 1 ==> Joins(es, w[i], w[i + 1]))
  }

  /** x and y lie in one connected component of the graph on [0, n) with edges es. */
  ghost predicate Linked(es: seq<Edge>, n: int, x: int, y: int)
  {
    exists w :: Walk(es, n, w) && w[0] == x && w[|w| - 1] == y
  }

  /** No cycle: every edge joins two vertices that the edges before it had not linked. */
  ghost predicate Acyclic(es: seq<Edge>, n: int)
  {
    forall t :: 0 <= t < |es| ==> !Linked(es[..t], n, es[t].u, es[t].v)
  }

  /** lab gives the two endpoints of every edge of es the same label. */
  ghost predicate Respects(es: seq<Edge>, lab: seq<int>)
  {
    forall f :: f in es ==> 0 <= f.u < |lab| && 0 <= f.v < |lab| && lab[f.u] == lab[f.v]
  }

  /** The vertices of [0, n) with equal labels are exactly the linked pairs. */
  ghost predicate Partition(lab: seq<int>, es: seq<Edge>, n: int)
  {
    |lab| == n && forall x, y :: 0 <= x < n && 0 <= y < n ==> (lab[x] == lab[y] <==> Linked(es, n, x, y))
  }

  /** The root of every element, as a sequence. */
  ghost function Labels(p: seq<int>, h: seq<int>, D: int): (lab: seq<int>)
    requires Ranked(p, h, D)
    ensures |lab| == |p| && forall x :: 0 <= x < |p| ==> lab[x] == RootOf(p, h, D, x)
  {
    seq(|p|, x requires 0 <= x < |p| => RootOf(p, h, D, x))
  }

  lemma LinkedSelf(es: seq<Edge>, n: int, x: int)
    requires 0 <= x < n
    ensures Linked(es, n, x, x)
  {
    assert Walk(es, n, [x]);
  }

  /** An edge links its endpoints both ways. */
  lemma LinkedEdge(es: seq<Edge>, n: int, f: Edge)
    requires f in es && 0 <= f.u < n && 0 <= f.v < n
    ensures Linked(es, n, f.u, f.v) && Linked(es, n, f.v, f.u)
  {
    assert Joins(es, f.u, f.v) && Joins(es, f.v, f.u);
    var w, w' := [f.u, f.v], [f.v, f.u];
    assert Walk(es, n, w) && Walk(es, n, w');
  }

  /** Linked is transitive: two walks join at their common vertex. */
  lemma LinkedJoin(es: seq<Edge>, n: int, x: int, y: int, z: int)
    requires Linked(es, n, x, y) && Linked(es, n, y, z)
    ensures Linked(es, n, x, z)
  {
    var w1 :| Walk(es, n, w1) && w1[0] == x && w1[|w1| - 1] == y;
    var w2 :| Walk(es, n, w2) && w2[0] == y && w2[|w2| - 1] == z;
    var w := w1 + w2[1..];
    forall i | 0 <= i < |w|
      ensures 0 <= w[i] < n
    {
      if i >= |w1| {
        assert w[i] == w2[i - |w1| + 1];
      }
    }
    forall i | 0 <= i < |w| - 1
      ensures Joins(es, w[i], w[i + 1])
    {
      if i < |w1| - 1 {
        assert w[i] == w1[i] && w[i + 1] == w1[i + 1];
      } else {
        assert w[i] == w2[i - |w1| + 1] && w[i + 1] == w2[i - |w1| + 2];
      }
    }
    assert Walk(es, n, w);
    assert w[|w| - 1] == z;
  }

  /** More edges link at least the same pairs. */
  lemma LinkedMore(es: seq<Edge>, es': seq<Edge>, n: int, x: int, y: int)
    requires Linked(es, n, x, y) && forall f :: f in es ==> f in es'
    ensures Linked(es', n, x, y)
  {
    var w :| Walk(es, n, w) && w[0] == x && w[|w| - 1] == y;
    forall i | 0 <= i < |w| - 1
      ensures Joins(es', w[i], w[i + 1])
    {
      var f :| f in es && ((f.u == w[i] && f.v == w[i + 1]) || (f.u == w[i + 1] && f.v == w[i]));
      assert f in es';
    }
    assert Walk(es', n, w);
  }

  /** Labels that every edge respects are constant along a walk. */
  lemma {:induction false} WalkLabel(es: seq<Edge>, n: int, lab: seq<int>, w: seq<int>)
    requires Walk(es, n, w) && Respects(es, lab) && |lab| == n
    ensures lab[w[0]] == lab[w[|w| - 1]]
    decreases |w|
  {
    if |w| > 1 {
      var w' := w[..|w| - 1];
      assert Walk(es, n, w') by {
        forall i | 0 <= i < |w'| - 1
          ensures Joins(es, w'[i], w'[i + 1])
        {
          assert w'[i] == w[i] && w'[i + 1] == w[i + 1];
        }
      }
      WalkLabel(es, n, lab, w');
      var a, b := w[|w| - 2], w[|w| - 1];
      assert Joins(es, a, b);
      var f :| f in es && ((f.u == a && f.v == b) || (f.u == b && f.v == a));
    }
  }

  /** So linked vertices carry the same label. */
  lemma LinkedLabel(es: seq<Edge>, n: int, lab: seq<int>, x: int, y: int)
    requires Linked(es, n, x, y) && Respects(es, lab) && |lab| == n
    ensures lab[x] == lab[y]
  {
    var w :| Walk(es, n, w) && w[0] == x && w[|w| - 1] == y;
    WalkLabel(es, n, lab, w);
  }

  /**
   * Taking an edge e whose endpoints carry different labels, and relabelling both of
   * their classes with w, gives the partition of the edges with e added.
   */
  lemma TakePartition(lab: seq<int>, lab': seq<int>, es: seq<Edge>, n: int, e: Edge, w: int)
    requires Partition(lab, es, n) && EndpointsIn(es, n) && 0 <= e.u < n && 0 <= e.v < n
    requires lab[e.u] != lab[e.v] && (w == lab[e.u] || w == lab[e.v]) && |lab'| == n
    requires forall x :: 0 <= x < n ==> lab'[x] == (if lab[x] == lab[e.u] || lab[x] == lab[e.v] then w else lab[x])
    ensures Partition(lab', es + [e], n)
  {
    var es' := es + [e];
    assert forall f :: f in es ==> f in es';
    forall f | f in es'
      ensures 0 <= f.u < n && 0 <= f.v < n && lab'[f.u] == lab'[f.v]
    {
      if f in es {
        var k :| 0 <= k < |es| && es[k] == f;
        LinkedEdge(es, n, f);
      }
    }
    assert Respects(es', lab');
    forall x, y | 0 <= x < n && 0 <= y < n
      ensures lab'[x] == lab'[y] <==> Linked(es', n, x, y)
    {
      if Linked(es', n, x, y) {
        LinkedLabel(es', n, lab', x, y);
      }
      if lab'[x] == lab'[y] {
        LinkedEdge(es', n, e);
        if lab[x] == lab[y] {
          LinkedMore(es, es', n, x, y);
        } else if lab[x] == lab[e.u] {
          LinkedMore(es, es', n, x, e.u);
          LinkedMore(es, es', n, e.v, y);
          LinkedJoin(es', n, x, e.u, e.v);
          LinkedJoin(es', n, x, e.v, y);
        } else {
          LinkedMore(es, es', n, x, e.v);
          LinkedMore(es, es', n, e.u, y);
          LinkedJoin(es', n, x, e.v, e.u);
          LinkedJoin(es', n, x, e.u, y);
        }
      }
    }
  }

  /** An edge between two unlinked vertices keeps an edge list acyclic. */
  lemma AcyclicSnoc(es: seq<Edge>, n: int, e: Edge)
    requires Acyclic(es, n) && !Linked(es, n, e.u, e.v)
    ensures Acyclic(es + [e], n)
  {
    var es' := es + [e];
    forall t | 0 <= t < |es'|
      ensures !Linked(es'[..t], n, es'[t].u, es'[t].v)
    {
      if t < |es| {
        assert es'[..t] == es[..t];
      } else {
        assert es'[..t] == es;
      }
    }
  }

  /** After a relabelling that keeps equal labels equal and joins e's endpoints, e is respected too. */
  lemma RespectsSnoc(es: seq<Edge>, lab: seq<int>, lab': seq<int>, e: Edge)
    requires Respects(es, lab) && |lab'| == |lab| && 0 <= e.u < |lab| && 0 <= e.v < |lab| && lab'[e.u] == lab'[e.v]
    requires forall x, y :: 0 <= x < |lab| && 0 <= y < |lab| && lab[x] == lab[y] ==> lab'[x] == lab'[y]
    ensures Respects(es + [e], lab')
  {
  }

  /** The scan's own variables after the first k sorted edges. */
  predicate Scanned(sorted: seq<Edge>, k: int, chosen: seq<bool>, taken: seq<Edge>,
                    tree: seq<(int, int)>, cost0: int, cost: int)
  {
    && 0 <= k <= |sorted| && |chosen| == k && taken == Select(sorted[..k], chosen)
    && tree == Pairs(taken) && cost == cost0 + WeightSum(taken)
    && (forall t :: 0 <= t < |taken| ==> taken[t].u != taken[t].v)
  }

  /** The scan state after the first k sorted edges. */
  ghost predicate ScanState(sorted: seq<Edge>, n: int, k: int, ds: DisjointSets, chosen: seq<bool>,
                            taken: seq<Edge>, tree: seq<(int, int)>, cost0: int, cost: int)
    reads ds, ds.parents, ds.size
  {
    && Scanned(sorted, k, chosen, taken, tree, cost0, cost)
    && ds.Valid() && ds.parents.Length == n
    && |taken| + ds.Sets() == n
    && EndpointsIn(taken, n) && Acyclic(taken, n)
    && Partition(Labels(ds.parents[..], ds.rank, ds.bound), taken, n)
    && Respects(sorted[..k], Labels(ds.parents[..], ds.rank, ds.bound))
  }

  /**
   * Scanning edge k of sorted, when its endpoints have different roots: taking it and
   * merging the two sets under w keeps the connectivity facts of the scan state.
   */
  lemma ScanTake(sorted: seq<Edge>, n: int, k: int, taken: seq<Edge>, lab: seq<int>, lab': seq<int>, w: int)
    requires 0 <= k < |sorted| && EndpointsIn(sorted, n)
    requires EndpointsIn(taken, n) && Acyclic(taken, n) && Partition(lab, taken, n) && Respects(sorted[..k], lab)
    requires lab[sorted[k].u] != lab[sorted[k].v] && (w == lab[sorted[k].u] || w == lab[sorted[k].v]) && |lab'| == n
    requires forall x :: 0 <= x < n ==>
      lab'[x] == (if lab[x] == lab[sorted[k].u] || lab[x] == lab[sorted[k].v] then w else lab[x])
    ensures EndpointsIn(taken + [sorted[k]], n) && Acyclic(taken + [sorted[k]], n)
    ensures Partition(lab', taken + [sorted[k]], n) && Respects(sorted[..k + 1], lab')
  {
    var e := sorted[k];
    assert !Linked(taken, n, e.u, e.v);
    AcyclicSnoc(taken, n, e);
    TakePartition(lab, lab', taken, n, e, w);
    assert sorted[..k + 1] == sorted[..k] + [e];
    RespectsSnoc(sorted[..k], lab, lab', e);
  }

  /** Passing over edge k, whose endpoints already share a root. */
  lemma ScanPass(sorted: seq<Edge>, n: int, k: int, lab: seq<int>)
    requires 0 <= k < |sorted| && EndpointsIn(sorted, n) && |lab| == n
    requires Respects(sorted[..k], lab) && lab[sorted[k].u] == lab[sorted[k].v]
    ensures Respects(sorted[..k + 1], lab)
  {
    assert sorted[..k + 1] == sorted[..k] + [sorted[k]];
  }

  /** Scanning edge k: taking it (only when its endpoints differ) or passing it over. */
  lemma ScanAdvance(sorted: seq<Edge>, k: int, chosen: seq<bool>, taken: seq<Edge>,
                    tree: seq<(int, int)>, cost0: int, cost: int, take: bool)
    requires Scanned(sorted, k, chosen, taken, tree, cost0, cost) && k < |sorted|
    requires take ==> sorted[k].u != sorted[k].v
    ensures take ==> Scanned(sorted, k + 1, chosen + [true], taken + [sorted[k]],
                             tree + [Ordered(sorted[k])], cost0, cost + sorted[k].w)
    ensures !take ==> Scanned(sorted, k + 1, chosen + [false], taken, tree, cost0, cost)
  {
    assert sorted[..k + 1][..k] == sorted[..k];
    assert (chosen + [take])[..k] == chosen;
    var e := sorted[k];
    if take {
      assert (taken + [e])[..|taken|] == taken;
    }
  }

  /**
   * mst's scan: Kruskal over `sorted`, the edges in the order std::sort leaves them.
   * An edge is taken when `same` says its endpoints are apart; then the sets are
   * joined, the pair is emitted smaller endpoint first and the weight added to cost.
   */
  method Scan(sorted: seq<Edge>, n: int, cost0: int)
    returns (ds: DisjointSets, tree: seq<(int, int)>, cost: int, ghost chosen: seq<bool>, ghost taken: seq<Edge>)
    requires n >= 0 && EndpointsIn(sorted, n)
    ensures ScanState(sorted, n, |sorted|, ds, chosen, taken, tree, cost0, cost)
    ensures fresh(ds.parents) && fresh(ds.size)
  {
    ds := Begin(sorted, n, cost0);
    tree, cost, chosen, taken := [], cost0, [], [];
    var k := 0;
    while k < |sorted|
      invariant ScanState(sorted, n, k, ds, chosen, taken, tree, cost0, cost)
      invariant fresh(ds.parents) && fresh(ds.size)
    {
      tree, cost, chosen, taken := Consider(sorted, n, k, ds, chosen, taken, tree, cost0, cost);
      k := k + 1;
    }
  }

  /** parents(n) with iota and size(n, 1): the scan state before any edge. */
  method Begin(sorted: seq<Edge>, n: int, cost0: int) returns (ds: DisjointSets)
    requires n >= 0
    ensures ScanState(sorted, n, 0, ds, [], [], [], cost0, cost0)
    ensures fresh(ds.parents) && fresh(ds.size)
  {
    ds := new DisjointSets(n);
    NoEdges(Labels(ds.parents[..], ds.rank, ds.bound), n);
    assert sorted[..0] == [];
    assert Scanned(sorted, 0, [], [], [], cost0, cost0);
  }

  /** One pass of mst's scan, on edge k. */
  method Consider(sorted: seq<Edge>, n: int, k: int, ds: DisjointSets, ghost chosen: seq<bool>,
                  ghost taken: seq<Edge>, tree: seq<(int, int)>, cost0: int, cost: int)
    returns (tree': seq<(int, int)>, cost': int, ghost chosen': seq<bool>, ghost taken': seq<Edge>)
    modifies ds, ds.parents, ds.size
    requires ScanState(sorted, n, k, ds, chosen, taken, tree, cost0, cost) && k < |sorted| && EndpointsIn(sorted, n)
    ensures ScanState(sorted, n, k + 1, ds, chosen', taken', tree', cost0, cost')
  {
    var e := sorted[k];
    ghost var sets := ds.Sets();
    ghost var p0, h0, D0 := ds.parents[..], ds.rank, ds.bound;
    var joined := ds.Same(e.u, e.v);
    ghost var p1, h1, D1 := ds.parents[..], ds.rank, ds.bound;
    assert ds.Valid() && ds.parents.Length == n && ds.Sets() == sets;
    assert forall x :: 0 <= x < n ==> RootOf(p1, h1, D1, x) == RootOf(p0, h0, D0, x) by {
      forall x | 0 <= x < n
        ensures RootOf(p1, h1, D1, x) == RootOf(p0, h0, D0, x)
      {
        assert ds.Root(x) == old(ds.Root(x));
      }
    }
    SameLabels(p0, h0, D0, p1, h1, D1);
    assert ScanState(sorted, n, k, ds, chosen, taken, tree, cost0, cost);
    ScanAdvance(sorted, k, chosen, taken, tree, cost0, cost, !joined);
    if !joined {
      tree', cost', chosen', taken' := Join(sorted, n, k, ds, chosen, taken, tree, cost0, cost);
    } else {
      ScanPass(sorted, n, k, Labels(p1, h1, D1));
      tree', cost', chosen', taken' := tree, cost, chosen + [false], taken;
    }
  }

  /** The taking branch of one pass: union_sets, emit the ordered pair and add the weight. */
  method Join(sorted: seq<Edge>, n: int, k: int, ds: DisjointSets, ghost chosen: seq<bool>,
              ghost taken: seq<Edge>, tree: seq<(int, int)>, cost0: int, cost: int)
    returns (tree': seq<(int, int)>, cost': int, ghost chosen': seq<bool>, ghost taken': seq<Edge>)
    modifies ds, ds.parents, ds.size
    requires ScanState(sorted, n, k, ds, chosen, taken, tree, cost0, cost) && k < |sorted| && EndpointsIn(sorted, n)
    requires ds.Root(sorted[k].u) != ds.Root(sorted[k].v)
    requires Scanned(sorted, k + 1, chosen + [true], taken + [sorted[k]], tree + [Ordered(sorted[k])], cost0, cost + sorted[k].w)
    ensures ScanState(sorted, n, k + 1, ds, chosen', taken', tree', cost0, cost')
  {
    var e := sorted[k];
    ghost var sets := ds.Sets();
    ghost var p1, h1, D1 := ds.parents[..], ds.rank, ds.bound;
    ds.UnionSets(e.u, e.v);
    ghost var p2, h2, D2 := ds.parents[..], ds.rank, ds.bound;
    assert ds.Valid() && ds.parents.Length == n && ds.Sets() == sets - 1;
    ghost var pa, pb := RootOf(p1, h1, D1, e.u), RootOf(p1, h1, D1, e.v);
    ghost var w := RootOf(p2, h2, D2, e.u);
    assert forall x :: 0 <= x < n ==>
        RootOf(p2, h2, D2, x) == (if RootOf(p1, h1, D1, x) == pa || RootOf(p1, h1, D1, x) == pb then w else RootOf(p1, h1, D1, x)) by {
      forall x | 0 <= x < n
        ensures RootOf(p2, h2, D2, x) == (if RootOf(p1, h1, D1, x) == pa || RootOf(p1, h1, D1, x) == pb then w else RootOf(p1, h1, D1, x))
      {
        assert ds.Root(x) == RootOf(p2, h2, D2, x);
      }
    }
    Relabel(p1, h1, D1, p2, h2, D2, pa, pb, w);
    ScanTake(sorted, n, k, taken, Labels(p1, h1, D1), Labels(p2, h2, D2), w);
    tree', cost' := tree + [Ordered(e)], cost + e.w;
    taken', chosen' := taken + [e], chosen + [true];
  }

  /** Two parent vectors with the same roots have the same labels. */
  lemma SameLabels(p: seq<int>, h: seq<int>, D: int, p': seq<int>, h': seq<int>, D': int)
    requires Ranked(p, h, D) && Ranked(p', h', D') && |p'| == |p|
    requires forall x :: 0 <= x < |p| ==> RootOf(p', h', D', x) == RootOf(p, h, D, x)
    ensures Labels(p', h', D') == Labels(p, h, D)
  {
  }

  /** A union that sends the sets of pa and pb to w relabels exactly those two classes. */
  lemma Relabel(p: seq<int>, h: seq<int>, D: int, p': seq<int>, h': seq<int>, D': int, pa: int, pb: int, w: int)
    requires Ranked(p, h, D) && Ranked(p', h', D') && |p'| == |p|
    requires forall x :: 0 <= x < |p| ==>
      RootOf(p', h', D', x) == (if RootOf(p, h, D, x) == pa || RootOf(p, h, D, x) == pb then w else RootOf(p, h, D, x))
    ensures forall x :: 0 <= x < |p| ==>
      Labels(p', h', D')[x] == (if Labels(p, h, D)[x] == pa || Labels(p, h, D)[x] == pb then w else Labels(p, h, D)[x])
  {
  }

  /** Without edges every vertex is alone, so distinct labels are the partition. */
  lemma NoEdges(lab: seq<int>, n: int)
    requires |lab| == n && forall x :: 0 <= x < n ==> lab[x] == x
    ensures Partition(lab, [], n) && Respects([], lab)
  {
    forall x, y | 0 <= x < n && 0 <= y < n
      ensures lab[x] == lab[y] <==> Linked([], n, x, y)
    {
      if x == y {
        LinkedSelf([], n, x);
      }
      if Linked([], n, x, y) {
        var id := seq(n, z => z);
        LinkedLabel([], n, id, x, y);
      }
    }
  }

  /** The state of mst's final loop: no root has changed and vertices below i share one root. */
  ghost predicate JoinState(ds: DisjointSets, n: int, roots: seq<int>, sets: int, i: int)
    reads ds, ds.parents, ds.size
  {
    && 1 <= i && (n >= 1 ==> i <= n)
    && ds.Valid() && ds.parents.Length == n && |roots| == n && ds.Sets() == sets
    && (forall x :: 0 <= x < n ==> RootOf(ds.parents[..], ds.rank, ds.bound, x) == roots[x])
    && (forall x :: 0 <= x < i && x < n ==> roots[x] == roots[0])
  }

  /** mst's final loop: whether every vertex has the root of vertex 0. */
  method AllJoined(ds: DisjointSets) returns (ok: bool)
    modifies ds.parents
    requires ds.Valid()
    ensures ds.Valid() && ds.Sets() == old(ds.Sets())
    ensures ok <==> ds.parents.Length <= 1 || ds.Sets() == 1
  {
    var n := ds.parents.Length;
    ghost var p, h, D := ds.parents[..], ds.rank, ds.bound;
    ghost var roots := seq(n, x requires 0 <= x < n && Ranked(p, h, D) => RootOf(p, h, D, x));
    ghost var sets := ds.Sets();
    var i := 1;
    while i < n
      invariant JoinState(ds, n, roots, sets, i)
    {
      var same := CheckSame(ds, n, roots, sets, i);
      if !same {
        return false;
      }
      i := i + 1;
    }
    if n >= 1 {
      OneRootForAll(ds.parents[..], ds.rank, ds.bound, roots);
    }
    return true;
  }

  lemma OneRootForAll(p: seq<int>, h: seq<int>, D: int, roots: seq<int>)
    requires Ranked(p, h, D) && |p| >= 1 && |roots| == |p|
    requires forall x :: 0 <= x < |p| ==> RootOf(p, h, D, x) == roots[x]
    requires forall x :: 0 <= x < |p| ==> roots[x] == roots[0]
    ensures |Roots(p, h, D)| == 1
  {
    SingleSet(p, h, D);
  }

  /** One test of the final loop: same(parents[i], parents[i - 1]). */
  method CheckSame(ds: DisjointSets, ghost n: int, ghost roots: seq<int>, ghost sets: int, i: int) returns (same: bool)
    modifies ds.parents
    requires JoinState(ds, n, roots, sets, i) && i < n
    ensures JoinState(ds, n, roots, sets, if same then i + 1 else i)
    ensures !same ==> |Roots(ds.parents[..], ds.rank, ds.bound)| >= 2
  {
    ghost var p0, h, D := ds.parents[..], ds.rank, ds.bound;
    var a, b := ds.parents[i], ds.parents[i - 1];
    RootOfParent(p0, h, D, i);
    RootOfParent(p0, h, D, i - 1);
    same := ds.Same(a, b);
    ghost var p1 := ds.parents[..];
    assert Ranked(p1, h, D) && |p1| == n;
    assert same <==> RootOf(p0, h, D, a) == RootOf(p0, h, D, b);
    forall x | 0 <= x < n
      ensures RootOf(p1, h, D, x) == RootOf(p0, h, D, x)
    {
      assert ds.Root(x) == old(ds.Root(x));
    }
    assert |Roots(p1, h, D)| == sets;
    JoinStep(p0, p1, h, D, roots, i, same);
  }

  /** What one test of the final loop keeps and learns, on the parent vectors before and after. */
  lemma JoinStep(p0: seq<int>, p1: seq<int>, h: seq<int>, D: int, roots: seq<int>, i: int, same: bool)
    requires Ranked(p0, h, D) && Ranked(p1, h, D) && |p1| == |p0| == |roots| && 1 <= i < |p0|
    requires forall x :: 0 <= x < |p0| ==> RootOf(p1, h, D, x) == RootOf(p0, h, D, x)
    requires forall x :: 0 <= x < |p0| ==> RootOf(p0, h, D, x) == roots[x]
    requires forall x :: 0 <= x < i ==> roots[x] == roots[0]
    requires same <==> roots[i] == roots[i - 1]
    ensures forall x :: 0 <= x < |p1| ==> RootOf(p1, h, D, x) == roots[x]
    ensures same ==> forall x :: 0 <= x < i + 1 ==> roots[x] == roots[0]
    ensures !same ==> |Roots(p1, h, D)| >= 2
  {
    if !same {
      SeveralSets(p1, h, D, i, i - 1);
    }
  }

  /** One set left: the taken edges link every two vertices. */
  lemma AllLinked(p: seq<int>, h: seq<int>, D: int, taken: seq<Edge>, n: int)
    requires Ranked(p, h, D) && |p| == n >= 1 && |Roots(p, h, D)| == 1 && Partition(Labels(p, h, D), taken, n)
    ensures forall x, y :: 0 <= x < n && 0 <= y < n ==> Linked(taken, n, x, y)
  {
    forall x, y | 0 <= x < n && 0 <= y < n
      ensures Linked(taken, n, x, y)
    {
      if RootOf(p, h, D, x) != RootOf(p, h, D, y) {
        SeveralSets(p, h, D, x, y);
      }
    }
  }

  /**
   * Several sets left, with every input edge inside one set: some vertex is not linked
   * to vertex 0 by the input edges at all.
   */
  lemma SomeUnlinked(p: seq<int>, h: seq<int>, D: int, sorted: seq<Edge>, edges: seq<Edge>, n: int)
    requires Ranked(p, h, D) && |p| == n >= 1 && |Roots(p, h, D)| != 1
    requires Respects(sorted, Labels(p, h, D)) && multiset(sorted) == multiset(edges)
    ensures exists x :: 0 <= x < n && !Linked(edges, n, 0, x)
  {
    if forall x :: 0 <= x < n ==> RootOf(p, h, D, x) == RootOf(p, h, D, 0) {
      SingleSet(p, h, D);
    }
    var x :| 0 <= x < n && RootOf(p, h, D, x) != RootOf(p, h, D, 0);
    if Linked(edges, n, 0, x) {
      assert forall f :: f in edges ==> f in sorted by {
        forall f | f in edges
          ensures f in sorted
        {
          assert f in multiset(edges);
        }
      }
      LinkedMore(edges, sorted, n, 0, x);
      LinkedLabel(sorted, n, Labels(p, h, D), 0, x);
    }
  }

  /**
   * mst(edges, n, cost): the taken edges are those the `chosen` flags select from
   * `sorted`; never more than n - 1 are taken, each joins two vertices the earlier
   * ones had not linked (so they form a forest), and cost grows by their weights.
   * When n - 1 are taken they link every two vertices; otherwise the input itself
   * leaves some vertex apart from vertex 0, and the result is emptied (with cost
   * already raised).
   */
  method Mst(edges: seq<Edge>, sorted: seq<Edge>, n: int, cost0: int)
    returns (tree: seq<(int, int)>, cost: int, ghost chosen: seq<bool>)
    requires n >= 0 && EndpointsIn(edges, n)
    requires multiset(sorted) == multiset(edges) && SortedByWeight(sorted)
    ensures |chosen| == |sorted|
    ensures var taken := Select(sorted, chosen);
      && cost == cost0 + WeightSum(taken)
      && (n >= 1 ==> |taken| <= n - 1)
      && (forall t :: 0 <= t < |taken| ==> taken[t].u != taken[t].v)
      && tree == (if n <= 1 || |taken| == n - 1 then Pairs(taken) else [])
      && Acyclic(taken, n)
      && (n >= 1 && |taken| == n - 1 ==> forall x, y :: 0 <= x < n && 0 <= y < n ==> Linked(taken, n, x, y))
      && (n >= 1 && |taken| != n - 1 ==> exists x :: 0 <= x < n && !Linked(edges, n, 0, x))
  {
    SortedEndpoints(edges, sorted, n);
    var ds;
    ghost var taken;
    ds, tree, cost, chosen, taken := Scan(sorted, n, cost0);
    assert sorted[..|sorted|] == sorted;
    if n >= 1 {
      RootInRoots(ds.parents[..], ds.rank, ds.bound, 0);
      if |taken| == n - 1 {
        AllLinked(ds.parents[..], ds.rank, ds.bound, taken, n);
      } else {
        SomeUnlinked(ds.parents[..], ds.rank, ds.bound, sorted, edges, n);
      }
    }
    var ok := AllJoined(ds);
    if !ok {
      tree := [];
    }
  }

  /** A permutation of edges inside [0, n) stays inside [0, n). */
  lemma SortedEndpoints(edges: seq<Edge>, sorted: seq<Edge>, n: int)
    requires EndpointsIn(edges, n) && multiset(sorted) == multiset(edges)
    ensures EndpointsIn(sorted, n)
  {
    forall k | 0 <= k < |sorted|
      ensures 0 <= sorted[k].u < n && 0 <= sorted[k].v < n
    {
      assert sorted[k] in multiset(edges);
    }
  }
}
