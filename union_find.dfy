/**
 * Disjoint-set union: a parent vector in which every element leads to the root of
 * its set, with path compression in `find_parent` and union by size in `union_sets`.
 * The two vectors the functions receive by reference are the fields of `DisjointSets`.
 */
module UnionFind {

  /**
   * Every parent is an element, and h is a ghost ranking, bounded by D, that strictly
   * increases from every non-root to its parent; it makes the walk to a root terminate.
   */
  ghost predicate Ranked(p: seq<int>, h: seq<int>, D: int)
  {
    && |h| == |p|
    && forall x :: 0 <= x < |p| ==> 0 <= p[x] < |p| && 0 <= h[x] <= D && (p[x] != x ==> h[p[x]] > h[x])
  }

  /** The root that following parents from x reaches. */
  ghost function RootOf(p: seq<int>, h: seq<int>, D: int, x: int): (r: int)
    requires Ranked(p, h, D) && 0 <= x < |p|
    ensures 0 <= r < |p| && p[r] == r && h[r] >= h[x]
    ensures p[x] != x ==> h[r] > h[x]
    decreases D - h[x]
  {
    if p[x] == x then x else RootOf(p, h, D, p[x])
  }

  /**
   * Path compression: pointing x directly at its root keeps the ranking and leaves
   * the root of every element unchanged.
   */
  lemma Compress(p: seq<int>, h: seq<int>, D: int, x: int)
    requires Ranked(p, h, D) && 0 <= x < |p|
    ensures Ranked(p[x := RootOf(p, h, D, x)], h, D)
    ensures forall y :: 0 <= y < |p| ==> RootOf(p[x := RootOf(p, h, D, x)], h, D, y) == RootOf(p, h, D, y)
  {
    var p' := p[x := RootOf(p, h, D, x)];
    forall y | 0 <= y < |p|
      ensures RootOf(p', h, D, y) == RootOf(p, h, D, y)
    {
      CompressRoot(p, h, D, x, y);
    }
  }

  lemma {:induction false} CompressRoot(p: seq<int>, h: seq<int>, D: int, x: int, y: int)
    requires Ranked(p, h, D) && 0 <= x < |p| && 0 <= y < |p|
    ensures Ranked(p[x := RootOf(p, h, D, x)], h, D)
    ensures RootOf(p[x := RootOf(p, h, D, x)], h, D, y) == RootOf(p, h, D, y)
    decreases D - h[y]
  {
    var p' := p[x := RootOf(p, h, D, x)];
    assert Ranked(p', h, D);
    if p[y] != y && y != x {
      CompressRoot(p, h, D, x, p[y]);
    }
  }

  /**
   * Linking root b under root a (with a ranking raised at a) keeps a ranking, and moves
   * exactly the elements of b's set to a's root.
   */
  lemma {:induction false} LinkRoot(p: seq<int>, h: seq<int>, D: int, a: int, b: int, y: int)
    requires Ranked(p, h, D) && 0 <= a < |p| && 0 <= b < |p| && a != b && p[a] == a && p[b] == b
    requires 0 <= y < |p|
    ensures Ranked(p[b := a], Raise(h, a, b), Bound(h, D, b))
    ensures RootOf(p[b := a], Raise(h, a, b), Bound(h, D, b), y)
      == (if RootOf(p, h, D, y) == b then a else RootOf(p, h, D, y))
    decreases D - h[y]
  {
    var p', h', D' := p[b := a], Raise(h, a, b), Bound(h, D, b);
    assert Ranked(p', h', D');
    if y == b {
      assert RootOf(p', h', D', a) == a;
    } else if p[y] != y {
      LinkRoot(p, h, D, a, b, p[y]);
    }
  }

  /** The ranking after linking b under a. */
  function Raise(h: seq<int>, a: int, b: int): seq<int>
    requires 0 <= a < |h| && 0 <= b < |h|
  {
    h[a := if h[a] > h[b] + 1 then h[a] else h[b] + 1]
  }

  function Bound(h: seq<int>, D: int, b: int): int
    requires 0 <= b < |h|
  {
    if D > h[b] + 1 then D else h[b] + 1
  }

  /** The elements of r's set: those whose root is r. */
  ghost function Members(p: seq<int>, h: seq<int>, D: int, r: int): set<int>
    requires Ranked(p, h, D)
  {
    set x | 0 <= x < |p| && RootOf(p, h, D, x) == r
  }

  /** Every root's recorded size is the number of elements of its set. */
  ghost predicate Counted(p: seq<int>, h: seq<int>, D: int, size: seq<int>)
    requires Ranked(p, h, D)
  {
    |size| == |p| && forall r :: 0 <= r < |p| && p[r] == r ==> size[r] == |Members(p, h, D, r)|
  }

  /** Two rankings with the same root for every element have the same members. */
  lemma SameMembers(p: seq<int>, h: seq<int>, D: int, p': seq<int>, h': seq<int>, D': int, r: int)
    requires Ranked(p, h, D) && Ranked(p', h', D') && |p'| == |p|
    requires forall x :: 0 <= x < |p| ==> RootOf(p', h', D', x) == RootOf(p, h, D, x)
    ensures Members(p', h', D', r) == Members(p, h, D, r)
  {
  }

  /** Linking root b under root a: a's set gains b's, the sizes add, other sets stay. */
  lemma LinkedMembers(p: seq<int>, h: seq<int>, D: int, p': seq<int>, h': seq<int>, D': int, a: int, b: int)
    requires Ranked(p, h, D) && Ranked(p', h', D') && |p'| == |p| && 0 <= a < |p| && 0 <= b < |p| && a != b
    requires p[a] == a && p[b] == b
    requires forall x :: 0 <= x < |p| ==> RootOf(p', h', D', x) == (if RootOf(p, h, D, x) == b then a else RootOf(p, h, D, x))
    ensures Members(p', h', D', a) == Members(p, h, D, a) + Members(p, h, D, b)
    ensures |Members(p', h', D', a)| == |Members(p, h, D, a)| + |Members(p, h, D, b)|
    ensures forall r :: r != a && r != b ==> Members(p', h', D', r) == Members(p, h, D, r)
  {
    assert Members(p', h', D', a) == Members(p, h, D, a) + Members(p, h, D, b);
    assert Members(p, h, D, a) * Members(p, h, D, b) == {};
    forall r | r != a && r != b
      ensures Members(p', h', D', r) == Members(p, h, D, r)
    {
    }
  }

  /** Everything linking root b under root a does to the vectors, the ranking and the sets. */
  lemma LinkFacts(p: seq<int>, h: seq<int>, D: int, s: seq<int>, a: int, b: int)
    requires Ranked(p, h, D) && Counted(p, h, D, s) && 0 <= a < |p| && 0 <= b < |p| && a != b
    requires p[a] == a && p[b] == b
    ensures var p', h', D' := p[b := a], Raise(h, a, b), Bound(h, D, b);
      && Ranked(p', h', D')
      && (forall y :: 0 <= y < |p| ==> RootOf(p', h', D', y) == (if RootOf(p, h, D, y) == b then a else RootOf(p, h, D, y)))
      && Roots(p', h', D') == Roots(p, h, D) - {b}
      && Counted(p', h', D', s[a := s[a] + s[b]])
      && |Members(p', h', D', a)| == |Members(p, h, D, a)| + |Members(p, h, D, b)|
  {
    var p', h', D' := p[b := a], Raise(h, a, b), Bound(h, D, b);
    forall y | 0 <= y < |p|
      ensures RootOf(p', h', D', y) == (if RootOf(p, h, D, y) == b then a else RootOf(p, h, D, y))
    {
      LinkRoot(p, h, D, a, b, y);
    }
    LinkRoot(p, h, D, a, b, a);
    assert Roots(p', h', D') == Roots(p, h, D) - {b};
    LinkedMembers(p, h, D, p', h', D', a, b);
  }

  /** The elements whose root is themselves. */
  ghost function Roots(p: seq<int>, h: seq<int>, D: int): set<int>
    requires Ranked(p, h, D)
  {
    RootsBelow(p, h, D, |p|)
  }

  /** The roots below k. */
  ghost function RootsBelow(p: seq<int>, h: seq<int>, D: int, k: int): set<int>
    requires Ranked(p, h, D) && k <= |p|
  {
    set x | 0 <= x < k && RootOf(p, h, D, x) == x
  }

  class DisjointSets {
    /** parents: the direct ancestor of every element. */
    const parents: array<int>
    /** size: for a root, the size recorded for its tree. */
    const size: array<int>
    ghost var rank: seq<int>
    ghost var bound: int

    ghost predicate Valid()
      reads this, parents, size
    {
      && parents != size && size.Length == parents.Length && Ranked(parents[..], rank, bound)
      && Counted(parents[..], rank, bound, size[..])
    }

    /** The root of x's set. */
    ghost function Root(x: int): (r: int)
      reads this, parents, size
      requires Valid() && 0 <= x < parents.Length
      ensures 0 <= r < parents.Length && parents[r] == r
    {
      RootOf(parents[..], rank, bound, x)
    }

    /** The number of elements of r's set. */
    ghost function SetSize(r: int): nat
      reads this, parents, size
      requires Valid()
    {
      |Members(parents[..], rank, bound, r)|
    }

    /** The number of sets. */
    ghost function Sets(): nat
      reads this, parents, size
      requires Valid()
    {
      |Roots(parents[..], rank, bound)|
    }

    /** parents(n) with iota, and size(n, 1): n singleton sets. */
    constructor (n: int)
      requires n >= 0
      ensures Valid() && parents.Length == n && fresh(parents) && fresh(size)
      ensures forall x :: 0 <= x < n ==> parents[x] == x && size[x] == 1
      ensures forall x :: 0 <= x < n ==> Root(x) == x
      ensures Sets() == n
    {
      parents := new int[n](i => i);
      size := new int[n](_ => 1);
      rank := seq(n, _ => 0);
      bound := 0;
      new;
      AllRoots(parents[..], rank, bound, n);
      forall r | 0 <= r < n
        ensures size[r] == |Members(parents[..], rank, bound, r)|
      {
        assert Members(parents[..], rank, bound, r) == {r};
      }
    }

    /**
     * find_parent(a): the root of a; every element on the way (a included) is pointed
     * at the root, and no element's root changes.
     */
    method FindParent(a: int) returns (r: int)
      modifies parents
      requires Valid() && 0 <= a < parents.Length
      ensures Valid()
      ensures r == old(Root(a)) && parents[a] == r
      ensures forall x :: 0 <= x < parents.Length ==> Root(x) == old(Root(x))
      ensures forall x :: 0 <= x < parents.Length ==> parents[x] == old(parents[x]) || parents[x] == old(Root(x))
      ensures Sets() == old(Sets())
      decreases bound - rank[a]
    {
      if a == parents[a] {
        return a;
      }
      r := FindParent(parents[a]);
      ghost var p1 := parents[..];
      Compress(p1, rank, bound, a);
      parents[a] := r;
      assert parents[..] == p1[a := r];
      assert Roots(parents[..], rank, bound) == Roots(p1, rank, bound);
      forall q | 0 <= q < parents.Length && parents[q] == q
        ensures size[q] == |Members(parents[..], rank, bound, q)|
      {
        SameMembers(p1, rank, bound, parents[..], rank, bound, q);
      }
    }

    /**
     * union_sets(a, b): when a and b have different roots, the root of the smaller
     * tree (a's on a tie) goes under the other, whose size becomes the sum of both.
     * The recorded sizes are the sizes of the sets, so the choice is by set size.
     */
    method UnionSets(a: int, b: int)
      modifies this, parents, size
      requires Valid() && 0 <= a < parents.Length && 0 <= b < parents.Length
      ensures Valid()
      ensures Root(a) == Root(b)
      ensures var pa, pb := old(Root(a)), old(Root(b));
        var winner := if old(size[pa]) > old(size[pb]) then pa else pb;
        && (pa != pb ==> winner == (if old(SetSize(pa)) > old(SetSize(pb)) then pa else pb))
        && (pa != pb ==> SetSize(winner) == old(SetSize(pa)) + old(SetSize(pb)))
        && (pa != pb ==>
              && (forall x :: 0 <= x < parents.Length ==>
                    Root(x) == (if old(Root(x)) == pa || old(Root(x)) == pb then winner else old(Root(x))))
              && size[winner] == old(size[pa]) + old(size[pb])
              && (forall x :: 0 <= x < size.Length && x != winner ==> size[x] == old(size[x]))
              && Sets() == old(Sets()) - 1)
        && (pa == pb ==>
              && (forall x :: 0 <= x < parents.Length ==> Root(x) == old(Root(x)))
              && size[..] == old(size[..]) && Sets() == old(Sets()))
    {
      var pa := FindParent(a);
      var pb := FindParent(b);
      if pa != pb {
        if size[pa] > size[pb] {
          Link(pa, pb);
        } else {
          Link(pb, pa);
        }
      }
    }

    /** Puts root b under root a and adds b's size to a's. */
    method Link(a: int, b: int)
      modifies this, parents, size
      requires Valid() && 0 <= a < parents.Length && 0 <= b < parents.Length && a != b
      requires parents[a] == a && parents[b] == b
      ensures Valid()
      ensures forall x :: 0 <= x < parents.Length ==> Root(x) == (if old(Root(x)) == b then a else old(Root(x)))
      ensures size[a] == old(size[a]) + old(size[b])
      ensures forall x :: 0 <= x < size.Length && x != a ==> size[x] == old(size[x])
      ensures Sets() == old(Sets()) - 1
      ensures SetSize(a) == old(SetSize(a)) + old(SetSize(b))
    {
      ghost var p, h, D, s := parents[..], rank, bound, size[..];
      size[a] := size[a] + size[b];
      assert size[..] == s[a := s[a] + s[b]];
      parents[b] := a;
      assert parents[..] == p[b := a];
      rank, bound := Raise(h, a, b), Bound(h, D, b);
      LinkFacts(p, h, D, s, a, b);
    }

    /** same(a, b): whether a and b have the same root. */
    method Same(a: int, b: int) returns (r: bool)
      modifies parents
      requires Valid() && 0 <= a < parents.Length && 0 <= b < parents.Length
      ensures Valid()
      ensures r <==> old(Root(a)) == old(Root(b))
      ensures forall x :: 0 <= x < parents.Length ==> Root(x) == old(Root(x))
      ensures Sets() == old(Sets())
    {
      var ra := FindParent(a);
      var rb := FindParent(b);
      r := ra == rb;
    }
  }

  /** When every element is its own parent, the k first elements are k roots. */
  lemma {:induction false} AllRoots(p: seq<int>, h: seq<int>, D: int, k: int)
    requires Ranked(p, h, D) && 0 <= k <= |p| && forall x :: 0 <= x < |p| ==> p[x] == x
    ensures |RootsBelow(p, h, D, k)| == k
  {
    if k > 0 {
      AllRoots(p, h, D, k - 1);
      var below := RootsBelow(p, h, D, k - 1);
      assert RootOf(p, h, D, k - 1) == k - 1;
      assert k - 1 !in below;
      assert RootsBelow(p, h, D, k) == below + {k - 1} by {
        forall x
          ensures x in RootsBelow(p, h, D, k) <==> x in below || x == k - 1
        {
        }
      }
    } else {
      assert RootsBelow(p, h, D, k) == {};
    }
  }

  /** Following one parent link does not change the root. */
  lemma RootOfParent(p: seq<int>, h: seq<int>, D: int, x: int)
    requires Ranked(p, h, D) && 0 <= x < |p|
    ensures RootOf(p, h, D, p[x]) == RootOf(p, h, D, x)
  {
  }

  /** Every root is its own root, so the root of any element is among the roots. */
  lemma RootInRoots(p: seq<int>, h: seq<int>, D: int, x: int)
    requires Ranked(p, h, D) && 0 <= x < |p|
    ensures RootOf(p, h, D, x) in Roots(p, h, D)
  {
    var r := RootOf(p, h, D, x);
    assert RootOf(p, h, D, r) == r;
  }

  /** When all elements share one root, there is exactly one set. */
  lemma SingleSet(p: seq<int>, h: seq<int>, D: int)
    requires Ranked(p, h, D) && |p| >= 1
    requires forall x :: 0 <= x < |p| ==> RootOf(p, h, D, x) == RootOf(p, h, D, 0)
    ensures |Roots(p, h, D)| == 1
  {
    RootInRoots(p, h, D, 0);
    assert Roots(p, h, D) == {RootOf(p, h, D, 0)};
  }

  /** Two elements with different roots make at least two sets. */
  lemma SeveralSets(p: seq<int>, h: seq<int>, D: int, x: int, y: int)
    requires Ranked(p, h, D) && 0 <= x < |p| && 0 <= y < |p|
    requires RootOf(p, h, D, x) != RootOf(p, h, D, y)
    ensures |Roots(p, h, D)| >= 2
  {
    RootInRoots(p, h, D, x);
    RootInRoots(p, h, D, y);
    var two := {RootOf(p, h, D, x), RootOf(p, h, D, y)};
    var rest := Roots(p, h, D) - two;
    assert Roots(p, h, D) == two + rest && two * rest == {};
    assert |two| == 2;
  }
}
