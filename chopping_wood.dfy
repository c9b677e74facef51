/**
 * Chopping wood: decoding a Prüfer-like sequence. The input v[0..N-1] lists, for each
 * cut, the vertex the cut leaf hung from; the output u[0..N-1] lists the leaves in the
 * order they were cut, each the smallest leaf available at its turn, or "Error" when the
 * cuts do not take a tree on the vertices 1..N+1 down to a single vertex.
 *
 * Degrees start at 1 plus the number of times a vertex occurs in v[0..N-2] (the last entry
 * is the remaining root and is not counted), the leaves are kept in a min-heap, modelled
 * as a multiset whose smallest element is the top.
 */
module ChoppingWood {

  datatype Outcome = Error | Order(leaves: seq<nat>)

  function Elems(s: seq<nat>): set<nat>
  {
    set x | x in s
  }

  /** The entries that count towards the degrees: all but the last. */
  function Counted(v: seq<nat>): seq<nat>
  {
    if |v| == 0 then [] else v[..|v| - 1]
  }

  /** The counted entries not yet consumed before cut i: v[i..N-2]. */
  function Pending(v: seq<nat>, i: nat): multiset<nat>
  {
    if i < |v| then multiset(v[i..|v| - 1]) else multiset{}
  }

  /** The input range: every entry names one of the vertices 1..N+1. */
  predicate InRange(N: nat, v: seq<nat>)
  {
    |v| == N && forall k :: 0 <= k < N ==> 1 <= v[k] <= N + 1
  }

  /** The leaves at cut i: vertices not yet cut from which no counted later cut hangs. */
  ghost function Candidates(N: nat, v: seq<nat>, removed: set<nat>, i: nat): set<nat>
  {
    set w | 1 <= w <= N + 1 && w !in removed && w !in Pending(v, i)
  }

  ghost predicate IsMin(u: nat, s: set<nat>)
  {
    u in s && forall w :: w in s ==> u <= w
  }

  /** The leaf rule: each cut takes the smallest leaf left after the cuts before it. */
  ghost predicate LeafOrder(N: nat, v: seq<nat>, result: seq<nat>)
  {
    forall i :: 0 <= i < |result| ==> IsMin(result[i], Candidates(N, v, Elems(result[..i]), i))
  }

  /** The degree of w: its initial degree less its decrements, as `cut` vertex and as parent. */
  function Degree(v: seq<nat>, removed: set<nat>, i: nat, w: nat): int
    requires i <= |v|
  {
    1 + multiset(Counted(v))[w] as int - multiset(v[..i])[w] as int - (if w in removed then 1 else 0)
  }

  /** The cut vertices are vertices from which no pending cut hangs. */
  predicate CutOk(N: nat, v: seq<nat>, removed: set<nat>, i: nat)
  {
    forall w :: w in removed ==> 1 <= w <= N + 1 && w !in Pending(v, i)
  }

  predicate DegreesOk(N: nat, v: seq<nat>, degree: seq<int>, removed: set<nat>, i: nat)
    requires i <= |v|
  {
    |degree| == N + 2 && forall w :: 1 <= w <= N + 1 ==> degree[w] == Degree(v, removed, i, w)
  }

  /** The heap holds each leaf once, and nothing else. */
  ghost predicate HeapOk(N: nat, v: seq<nat>, leafs: multiset<nat>, removed: set<nat>, i: nat)
  {
    forall w :: (w in leafs <==> w in Candidates(N, v, removed, i)) && leafs[w] <= 1
  }

  /** What the decoding loop holds before cut i. */
  ghost predicate DecodeState(N: nat, v: seq<nat>, degree: seq<int>, leafs: multiset<nat>,
                              result: seq<nat>, removed: set<nat>, i: nat)
  {
    && InRange(N, v) && i <= N && |result| == i && removed == Elems(result) && |removed| == i
    && CutOk(N, v, removed, i) && DegreesOk(N, v, degree, removed, i)
    && LeafOrder(N, v, result)
    && (i < N ==> HeapOk(N, v, leafs, removed, i))
  }

  /** What the first loop has counted after reading v[..i]: the last entry is not counted. */
  function Tally(v: seq<nat>, i: nat, w: nat): int
    requires i <= |v|
  {
    1 + multiset(v[..i])[w] as int - (if i == |v| && i > 0 && w == v[i - 1] then 1 else 0)
  }

  predicate Tallied(v: seq<nat>, degree: seq<int>, i: nat)
    requires i <= |v|
  {
    |degree| == |v| + 2 && forall w :: 0 <= w < |v| + 2 ==> degree[w] == Tally(v, i, w)
  }

  /** Reading v[i], which counts unless it is the last entry. */
  lemma TallyStep(N: nat, v: seq<nat>, degree: seq<int>, i: nat, degree': seq<int>, i': nat)
    requires InRange(N, v) && i < N && Tallied(v, degree, i) && i' == i + 1
    requires degree' == if i != N - 1 then degree[v[i] := degree[v[i]] + 1] else degree
    ensures Tallied(v, degree', i')
  {
    assert v[..i + 1] == v[..i] + [v[i]];
    forall w | 0 <= w < N + 2
      ensures degree'[w] == Tally(v, i', w)
    {
      assert multiset(v[..i'])[w] == multiset(v[..i])[w] + (if w == v[i] then 1 else 0);
    }
  }

  /** After all N entries, the tally is 1 plus the counted occurrences. */
  lemma TallyDone(v: seq<nat>, w: nat)
    ensures Tally(v, |v|, w) == 1 + multiset(Counted(v))[w]
  {
    assert v[..|v|] == v;
    if |v| > 0 {
      assert v == Counted(v) + [v[|v| - 1]];
    }
  }

  /** The first loop: degree[w] is 1 plus the number of occurrences of w in v[0..N-2]. */
  method InitialDegrees(N: nat, v: seq<nat>) returns (degree: seq<int>)
    requires InRange(N, v)
    ensures |degree| == N + 2 && forall w :: 0 <= w < N + 2 ==> degree[w] == 1 + multiset(Counted(v))[w]
  {
    degree := seq(N + 2, _ => 1);
    var i := 0;
    while i < N
      invariant 0 <= i <= N && Tallied(v, degree, i)
    {
      ghost var degree0, i0 := degree, i;
      if i != N - 1 {
        degree := degree[v[i] := degree[v[i]] + 1];
      }
      i := i + 1;
      TallyStep(N, v, degree0, i0, degree, i);
    }
    forall w | 0 <= w < N + 2
      ensures degree[w] == 1 + multiset(Counted(v))[w]
    {
      TallyDone(v, w);
    }
  }

  /** The second loop: the heap holds each vertex of 1..N+1 whose degree is 1, once. */
  method InitialLeaves(N: nat, degree: seq<int>) returns (leafs: multiset<nat>)
    requires |degree| == N + 2
    ensures forall w :: (w in leafs <==> 1 <= w <= N + 1 && degree[w] == 1) && leafs[w] <= 1
  {
    leafs := multiset{};
    var i := 1;
    while i < |degree|
      invariant 1 <= i <= |degree|
      invariant forall w :: (w in leafs <==> 1 <= w < i && degree[w] == 1) && leafs[w] <= 1
    {
      if degree[i] == 1 {
        leafs := leafs + multiset{i};
      }
      i := i + 1;
    }
  }

  /** The counted entries split at i into those consumed and those pending. */
  lemma PendingSplit(v: seq<nat>, i: nat)
    requires i < |v|
    ensures multiset(Counted(v)) == multiset(v[..i]) + Pending(v, i)
  {
    assert Counted(v) == v[..i] + v[i..|v| - 1];
  }

  /** Consuming v[i], for a counted i, takes it out of the pending entries. */
  lemma PendingNext(v: seq<nat>, i: nat)
    requires i + 1 < |v|
    ensures Pending(v, i) == Pending(v, i + 1) + multiset{v[i]}
  {
    assert v[i..|v| - 1] == [v[i]] + v[i + 1..|v| - 1];
  }

  /** Before cut i < N, a vertex has degree 1 exactly when it is a leaf. */
  lemma DegreeOne(N: nat, v: seq<nat>, removed: set<nat>, i: nat, w: nat)
    requires InRange(N, v) && i < N && 1 <= w <= N + 1 && (w in removed ==> w !in Pending(v, i))
    ensures Degree(v, removed, i, w) == (if w in removed then 0 else 1) + Pending(v, i)[w]
    ensures Degree(v, removed, i, w) == 1 <==> w in Candidates(N, v, removed, i)
  {
    PendingSplit(v, i);
  }

  /** The vertices 1..n. */
  function Vertices(n: nat): (vs: set<nat>)
    ensures forall w :: w in vs <==> 1 <= w <= n
    ensures |vs| == n
  {
    if n == 0 then {} else Vertices(n - 1) + {n}
  }

  lemma {:induction false} ElemsCard(s: seq<nat>)
    ensures |Elems(s)| <= |s|
  {
    if |s| > 0 {
      assert Elems(s) == Elems(s[1..]) + {s[0]};
      ElemsCard(s[1..]);
    } else {
      assert Elems(s) == {};
    }
  }

  /**
   * The heap is never empty at a top(): before cut i < N, i vertices of the N+1 are cut
   * and at most N-1-i are still pending, so at least two leaves are left.
   */
  lemma LeafExists(N: nat, v: seq<nat>, removed: set<nat>, i: nat)
    requires InRange(N, v) && i < N && |removed| == i && forall w :: w in removed ==> 1 <= w <= N + 1
    ensures |Candidates(N, v, removed, i)| >= 2
  {
    var all := Vertices(N + 1);
    var left := all - removed;
    DiffCard(all, removed);
    var pend := Elems(v[i..N - 1]);
    ElemsCard(v[i..N - 1]);
    var cand := Candidates(N, v, removed, i);
    CandidatesDiff(N, v, removed, i);
    UnionCard(left, pend, cand);
  }

  /** The leaves are the vertices not cut, less those still pending. */
  lemma CandidatesDiff(N: nat, v: seq<nat>, removed: set<nat>, i: nat)
    requires InRange(N, v) && i < N
    ensures Candidates(N, v, removed, i) == (Vertices(N + 1) - removed) - Elems(v[i..N - 1])
  {
    forall w
      ensures w in Candidates(N, v, removed, i) <==> w in (Vertices(N + 1) - removed) - Elems(v[i..N - 1])
    {
      assert w in Pending(v, i) <==> w in v[i..N - 1];
    }
  }

  /** Taking away a subset takes away its size. */
  lemma DiffCard(a: set<nat>, b: set<nat>)
    requires b <= a
    ensures |a - b| == |a| - |b|
  {
    assert a == (a - b) + b && (a - b) * b == {};
  }

  /** What is left of a after removing b has at least |a| - |b| elements. */
  lemma UnionCard(a: set<nat>, b: set<nat>, c: set<nat>)
    requires c == a - b
    ensures |c| >= |a| - |b|
  {
    assert a <= c + b;
    assert c + b == a + (b - a) && c * b == {};
    assert |c + b| == |c| + |b|;
    assert a + (b - a) == (c + b);
    assert a * (b - a) == {};
  }

  /** A nonempty finite set of vertices has a smallest element. */
  lemma {:induction false} SetMin(s: set<nat>) returns (u: nat)
    requires s != {}
    ensures u in s && forall y :: y in s ==> u <= y
    decreases |s|
  {
    var x :| x in s;
    var rest := s - {x};
    if rest == {} {
      u := x;
      assert forall y :: y in s ==> y == x || y in rest;
    } else {
      var m := SetMin(rest);
      u := if x < m then x else m;
      assert forall y :: y in s ==> y == x || y in rest;
    }
  }

  /** So a nonempty heap has a top. */
  lemma HeapMin(h: multiset<nat>)
    requires h != multiset{}
    ensures exists u :: u in h && forall y :: y in h ==> u <= y
  {
    var x :| x in h;
    var s := set y | y in h;
    assert x in s;
    var u := SetMin(s);
    assert u in h && forall y :: y in h ==> y in s;
  }

  /** Facts about the state before cut i that the cut reads. */
  lemma CutFacts(N: nat, v: seq<nat>, degree: seq<int>, leafs: multiset<nat>,
                 result: seq<nat>, removed: set<nat>, i: nat)
    requires DecodeState(N, v, degree, leafs, result, removed, i) && i < N
    ensures leafs != multiset{}
    ensures forall u :: u in leafs ==> 1 <= u <= N + 1 && u !in removed && degree[u] == 1 && u !in Pending(v, i)
    ensures i + 1 < N ==> v[i] in Pending(v, i) && v[i] !in removed && degree[v[i]] >= 2
  {
    LeafExists(N, v, removed, i);
    var c :| c in Candidates(N, v, removed, i);
    assert c in leafs;
    forall u | u in leafs
      ensures 1 <= u <= N + 1 && u !in removed && degree[u] == 1 && u !in Pending(v, i)
    {
      DegreeOne(N, v, removed, i, u);
    }
    if i + 1 < N {
      PendingNext(v, i);
      DegreeOne(N, v, removed, i, v[i]);
    }
  }

  /** Cutting the smallest leaf extends the leaf order. */
  lemma OrderStep(N: nat, v: seq<nat>, result: seq<nat>, u: nat, result': seq<nat>)
    requires LeafOrder(N, v, result) && IsMin(u, Candidates(N, v, Elems(result), |result|))
    requires result' == result + [u]
    ensures LeafOrder(N, v, result') && Elems(result') == Elems(result) + {u}
  {
    assert result'[..|result|] == result;
    forall k | 0 <= k < |result'|
      ensures IsMin(result'[k], Candidates(N, v, Elems(result'[..k]), k))
    {
      if k < |result| {
        assert result'[..k] == result[..k];
      }
    }
  }

  /** The two decrements of a cut are the decrements the degree formula counts. */
  lemma DegreeStep(N: nat, v: seq<nat>, degree: seq<int>, removed: set<nat>, i: nat, u: nat, d: seq<int>,
                   degree': seq<int>, removed': set<nat>, i': nat)
    requires InRange(N, v) && i < N && 1 <= u <= N + 1 && u !in removed
    requires DegreesOk(N, v, degree, removed, i)
    requires d == degree[u := degree[u] - 1] && degree' == d[v[i] := d[v[i]] - 1]
    requires removed' == removed + {u} && i' == i + 1
    ensures DegreesOk(N, v, degree', removed', i')
  {
    var p := v[i];
    assert v[..i + 1] == v[..i] + [p];
    forall w | 1 <= w <= N + 1
      ensures degree'[w] == Degree(v, removed', i', w)
    {
      assert multiset(v[..i'])[w] == multiset(v[..i])[w] + (if w == p then 1 else 0);
    }
  }

  /** After a cut that is not the last, the heap again holds exactly the leaves, once each. */
  lemma HeapStep(N: nat, v: seq<nat>, degree': seq<int>, leafs: multiset<nat>, removed: set<nat>, i: nat,
                 u: nat, leafs': multiset<nat>, removed': set<nat>)
    requires InRange(N, v) && i + 1 < N
    requires CutOk(N, v, removed, i) && HeapOk(N, v, leafs, removed, i)
    requires u in leafs && removed' == removed + {u}
    requires DegreesOk(N, v, degree', removed', i + 1)
    requires leafs' == leafs - multiset{u} + (if degree'[v[i]] == 1 then multiset{v[i]} else multiset{})
    ensures CutOk(N, v, removed', i + 1) && HeapOk(N, v, leafs', removed', i + 1)
  {
    PendingNext(v, i);
    assert u in Candidates(N, v, removed, i);
    forall w
      ensures (w in leafs' <==> w in Candidates(N, v, removed', i + 1)) && leafs'[w] <= 1
    {
      HeapAt(N, v, degree', leafs, removed, i, u, leafs', removed', w);
    }
  }

  /** The heap after a cut that is not the last, at one vertex w. */
  lemma HeapAt(N: nat, v: seq<nat>, degree': seq<int>, leafs: multiset<nat>, removed: set<nat>, i: nat,
               u: nat, leafs': multiset<nat>, removed': set<nat>, w: nat)
    requires InRange(N, v) && i + 1 < N
    requires CutOk(N, v, removed, i) && HeapOk(N, v, leafs, removed, i)
    requires u in Candidates(N, v, removed, i) && removed' == removed + {u}
    requires DegreesOk(N, v, degree', removed', i + 1)
    requires Pending(v, i) == Pending(v, i + 1) + multiset{v[i]}
    requires leafs' == leafs - multiset{u} + (if degree'[v[i]] == 1 then multiset{v[i]} else multiset{})
    ensures (w in leafs' <==> w in Candidates(N, v, removed', i + 1)) && leafs'[w] <= 1
  {
    var p := v[i];
    assert p in Pending(v, i) && p !in leafs;
    if 1 <= w <= N + 1 {
      DegreeOne(N, v, removed', i + 1, w);
      if w != p && w != u {
        assert w in Candidates(N, v, removed', i + 1) <==> w in Candidates(N, v, removed, i);
      }
    } else {
      assert w !in leafs && w != p;
    }
  }

  /** One pass of the decoding loop: cut the smallest leaf and update the degrees and the heap. */
  method Cut(N: nat, v: seq<nat>, degree: seq<int>, leafs: multiset<nat>, result: seq<nat>, i: nat,
             ghost removed: set<nat>)
    returns (degree': seq<int>, leafs': multiset<nat>, result': seq<nat>, i': nat, ghost removed': set<nat>)
    requires DecodeState(N, v, degree, leafs, result, removed, i) && i < N
    ensures i' == i + 1 && DecodeState(N, v, degree', leafs', result', removed', i')
  {
    CutFacts(N, v, degree, leafs, result, removed, i);
    HeapMin(leafs);
    var u: nat :| u in leafs && forall y :: y in leafs ==> u <= y;
    result' := result + [u];
    var l := leafs - multiset{u};
    var d := degree[u := degree[u] - 1];
    l := l + if d[u] == 1 then multiset{u} else multiset{};
    var p := v[i];
    degree' := d[p := d[p] - 1];
    leafs' := l + if degree'[p] == 1 then multiset{p} else multiset{};
    i' := i + 1;
    removed' := removed + {u};
    CutRest(N, v, degree, leafs, result, removed, i, u, d, l, degree', leafs', result', removed', i');
  }

  /** The new state of a cut, from the three steps. */
  lemma CutRest(N: nat, v: seq<nat>, degree: seq<int>, leafs: multiset<nat>,
                result: seq<nat>, removed: set<nat>, i: nat, u: nat, d: seq<int>, l: multiset<nat>,
                degree': seq<int>, leafs': multiset<nat>, result': seq<nat>, removed': set<nat>, i': nat)
    requires DecodeState(N, v, degree, leafs, result, removed, i) && i < N
    requires u in leafs && forall y :: y in leafs ==> u <= y
    requires d == degree[u := degree[u] - 1] && l == leafs - multiset{u} + (if d[u] == 1 then multiset{u} else multiset{})
    requires degree' == d[v[i] := d[v[i]] - 1]
    requires leafs' == l + (if degree'[v[i]] == 1 then multiset{v[i]} else multiset{})
    requires result' == result + [u] && removed' == removed + {u} && i' == i + 1
    ensures DecodeState(N, v, degree', leafs', result', removed', i')
  {
    CutFacts(N, v, degree, leafs, result, removed, i);
    assert l == leafs - multiset{u};
    assert IsMin(u, Candidates(N, v, removed, i));
    OrderStep(N, v, result, u, result');
    assert 1 <= u <= N + 1 && u !in removed;
    DegreeStep(N, v, degree, removed, i, u, d, degree', removed', i');
    if i' < N {
      HeapStep(N, v, degree', leafs, removed, i, u, leafs', removed');
    } else {
      LastCut(N, v, removed, u, removed');
    }
  }

  /** After the last cut nothing is pending. */
  lemma LastCut(N: nat, v: seq<nat>, removed: set<nat>, u: nat, removed': set<nat>)
    requires InRange(N, v) && N >= 1
    requires CutOk(N, v, removed, N - 1) && 1 <= u <= N + 1 && removed' == removed + {u}
    ensures CutOk(N, v, removed', N)
  {
    assert Pending(v, N) == multiset{};
    forall w | w in removed'
      ensures 1 <= w <= N + 1 && w !in Pending(v, N)
    {
      assert w == u || w in removed;
    }
  }

  /** The final check: every degree in 1..N+1 is 0. */
  method AllZero(degree: seq<int>) returns (ok: bool)
    ensures ok <==> forall w :: 1 <= w < |degree| ==> degree[w] == 0
  {
    var i := 1;
    while i < |degree|
      invariant 1 <= i <= |degree| || |degree| == 0
      invariant forall w :: 1 <= w < i && w < |degree| ==> degree[w] == 0
    {
      if degree[i] != 0 {
        return false;
      }
      i := i + 1;
    }
    return true;
  }

  /**
   * After the N cuts the degrees are all 0 exactly when v[N-1], the vertex the last leaf
   * hung from, is the one vertex not cut; with N = 0 vertex 1 keeps degree 1.
   */
  lemma Verdict(N: nat, v: seq<nat>, degree: seq<int>, leafs: multiset<nat>, result: seq<nat>, removed: set<nat>)
    requires DecodeState(N, v, degree, leafs, result, removed, N)
    ensures (forall w :: 1 <= w < |degree| ==> degree[w] == 0) <==> N > 0 && v[N - 1] !in removed
  {
    if N == 0 {
      assert v[..0] == [];
      assert degree[1] == Degree(v, removed, 0, 1) == 1;
    } else {
      var last := v[N - 1];
      FinalDegrees(v, removed, last);
      if last !in removed {
        OneLeft(N, removed, last);
      } else {
        assert degree[last] == -1;
      }
    }
  }

  /** After all N cuts, w has lost 1 for being cut and 1 for being v[N-1]. */
  lemma FinalDegrees(v: seq<nat>, removed: set<nat>, last: nat)
    requires |v| > 0 && last == v[|v| - 1]
    ensures forall w :: Degree(v, removed, |v|, w) == 1 - (if w == last then 1 else 0) - (if w in removed then 1 else 0)
  {
    assert v[..|v|] == v;
    assert v == Counted(v) + [last];
  }

  /** N of the N+1 vertices are cut: the one not cut is the only vertex outside `removed`. */
  lemma OneLeft(N: nat, removed: set<nat>, last: nat)
    requires |removed| == N && (forall w :: w in removed ==> 1 <= w <= N + 1)
    requires 1 <= last <= N + 1 && last !in removed
    ensures forall w :: 1 <= w <= N + 1 && w != last ==> w in removed
  {
    forall w | 1 <= w <= N + 1 && w != last
      ensures w in removed
    {
      if w !in removed {
        MissingTwo(N, removed, w, last);
      }
    }
  }

  /** A set of vertices of 1..N+1 that misses two of them has at most N-1 elements. */
  lemma MissingTwo(N: nat, removed: set<nat>, a: nat, b: nat)
    requires forall w :: w in removed ==> 1 <= w <= N + 1
    requires 1 <= a <= N + 1 && 1 <= b <= N + 1 && a != b && a !in removed && b !in removed
    ensures |removed| <= N - 1
  {
    var all := Vertices(N + 1);
    var rest := all - {a, b};
    assert all == rest + {a, b} && rest * {a, b} == {} && |{a, b}| == 2;
    assert removed <= rest;
    assert rest == removed + (rest - removed) && removed * (rest - removed) == {};
  }

  /**
   * Lines 16-51 of main: the cut order follows the leaf rule and has N entries, and the
   * outcome is "Error" exactly when N = 0 or v[N-1] is itself among the cut leaves.
   */
  method Decode(N: nat, v: seq<nat>) returns (out: Outcome, ghost leaves: seq<nat>)
    requires InRange(N, v)
    ensures |leaves| == N && LeafOrder(N, v, leaves)
    ensures out == if N == 0 || v[N - 1] in Elems(leaves) then Error else Order(leaves)
  {
    var degree := InitialDegrees(N, v);
    var leafs := InitialLeaves(N, degree);
    var result: seq<nat> := [];
    var i: nat := 0;
    ghost var removed: set<nat> := {};
    assert DecodeState(N, v, degree, leafs, result, removed, i) by {
      if N > 0 {
        forall w | 1 <= w <= N + 1
          ensures degree[w] == 1 <==> w in Candidates(N, v, removed, 0)
        {
          DegreeOne(N, v, removed, 0, w);
        }
      }
    }
    while i < N
      invariant DecodeState(N, v, degree, leafs, result, removed, i)
      decreases N - i
    {
      degree, leafs, result, i, removed := Cut(N, v, degree, leafs, result, i, removed);
    }
    Verdict(N, v, degree, leafs, result, removed);
    var ok := AllZero(degree);
    leaves := result;
    out := if ok then Order(result) else Error;
  }
}
