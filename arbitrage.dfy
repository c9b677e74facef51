/**
 * Arbitrage: currencies are the vertices of a weight matrix, each exchange rate sets one
 * entry, APSP runs on the matrix, and the verdict looks for a negative diagonal entry.
 *
 * The source's APSP is a copy of the one in AllPairsPath and is modelled there. As
 * written, the verdict discards APSP's result: it reads the diagonal of the input matrix,
 * which APSP never changes, and for i < R, the number of rates, rather than for i < C, the
 * number of currencies. Written and Verdict model that; Detect is the verdict on APSP's
 * result over the C currencies.
 */
module Arbitrage {
  import opened AllPairsPath

  /** One exchange rate, already turned into matrix indices and a weight. */
  datatype Rate = Rate(from: int, to: int, weight: int)

  /** The verdict's outcome; OutOfRange is a read past the C x C matrix, which C++ leaves undefined. */
  datatype Outcome = Arbitrage | Ok | OutOfRange

  /** Every rate's indices are currencies. */
  predicate Indexed(rates: seq<Rate>, c: int)
  {
    forall r :: 0 <= r < |rates| ==> 0 <= rates[r].from < c && 0 <= rates[r].to < c
  }

  /**
   * The matrix entry (a, b) after the first rates: the last rate from a to b sets it;
   * otherwise the diagonal holds 1 and every other entry INF.
   */
  function Entry(rates: seq<Rate>, a: int, b: int): int
  {
    if rates == [] then (if a == b then 1 else INF)
    else
      var last := rates[|rates| - 1];
      if last.from == a && last.to == b then last.weight else Entry(rates[..|rates| - 1], a, b)
  }

  /**
   * The matrix main builds for C currencies: INF everywhere, 1 on the diagonal, then one
   * entry per rate, later rates overwriting earlier ones.
   */
  method Build(c: int, rates: seq<Rate>) returns (adj: seq<seq<int>>)
    requires c >= 0 && Indexed(rates, c)
    ensures Square(adj, c)
    ensures forall a, b :: 0 <= a < c && 0 <= b < c ==> adj[a][b] == Entry(rates, a, b)
  {
    adj := seq(c, _ => seq(c, _ => INF));
    for i := 0 to c
      invariant Square(adj, c)
      invariant forall a, b :: 0 <= a < c && 0 <= b < c ==> adj[a][b] == if a == b && a < i then 1 else INF
    {
      adj := adj[i := adj[i][i := 1]];
    }
    for r := 0 to |rates|
      invariant Square(adj, c)
      invariant forall a, b :: 0 <= a < c && 0 <= b < c ==> adj[a][b] == Entry(rates[..r], a, b)
    {
      assert rates[..r + 1][..r] == rates[..r];
      adj := adj[rates[r].from := adj[rates[r].from][rates[r].to := rates[r].weight]];
    }
    assert rates[..|rates|] == rates;
  }

  /**
   * What the verdict loop computes, as written: Arbitrage when one of the first R diagonal
   * entries of the input matrix is negative before the loop runs past the matrix, a read
   * past the matrix when R > C and none of the C entries is negative, and Ok otherwise.
   */
  ghost function Written(adj: seq<seq<int>>, c: int, r: int): Outcome
    requires Square(adj, c)
  {
    if exists i :: 0 <= i < r && i < c && adj[i][i] < 0 then Arbitrage
    else if r > c then OutOfRange
    else Ok
  }

  /** The verdict loop of main, as written: it tests adj[i][i] < 0 for i = 0, ..., R - 1. */
  method Verdict(adj: seq<seq<int>>, c: int, r: int) returns (v: Outcome)
    requires Square(adj, c)
    ensures v == Written(adj, c, r)
  {
    var i := 0;
    while i < r
      invariant 0 <= i <= c && (r >= 0 ==> i <= r)
      invariant forall i' :: 0 <= i' < i ==> adj[i'][i'] >= 0
    {
      if i >= c {
        return OutOfRange;
      }
      if adj[i][i] < 0 {
        return Arbitrage;
      }
      i := i + 1;
    }
    return Ok;
  }

  /**
   * A diagonal entry is 1, or the weight of a rate from that currency to itself: with
   * nonnegative weights, as the quotients of positive amounts are, the verdict as written
   * never reports arbitrage, whatever the rates are.
   */
  lemma {:induction false} NeverArbitrage(c: int, rates: seq<Rate>, adj: seq<seq<int>>, r: int)
    requires c >= 0 && Indexed(rates, c) && Square(adj, c)
    requires forall a, b :: 0 <= a < c && 0 <= b < c ==> adj[a][b] == Entry(rates, a, b)
    requires forall k :: 0 <= k < |rates| ==> rates[k].weight >= 0
    ensures Written(adj, c, r) != Arbitrage
  {
    forall i | 0 <= i < c
      ensures adj[i][i] >= 0
    {
      EntryNonNegative(rates, i);
    }
  }

  /** With nonnegative weights, every diagonal entry stays nonnegative. */
  lemma {:induction false} EntryNonNegative(rates: seq<Rate>, i: int)
    requires forall k :: 0 <= k < |rates| ==> rates[k].weight >= 0
    ensures Entry(rates, i, i) >= 0
    decreases |rates|
  {
    if rates != [] {
      EntryNonNegative(rates[..|rates| - 1], i);
    }
  }

  /** With more rates than currencies and no negative diagonal entry, the loop reads adj[C][C], past the matrix. */
  lemma ReadsPast()
    ensures Written([[1]], 1, 2) == OutOfRange
  {
    assert Square([[1]], 1);
    assert [[1]][0][0] == 1;
  }

  /**
   * The verdict on APSP's result: arbitrage when some currency's entry is negative,
   * testing i = 0, ..., C - 1.
   */
  method Detect(dp: seq<seq<int>>, c: int) returns (arbitrage: bool)
    requires Square(dp, c)
    ensures arbitrage <==> exists i :: 0 <= i < c && dp[i][i] < 0
  {
    for i := 0 to c
      invariant forall i' :: 0 <= i' < i ==> dp[i'][i'] >= 0
    {
      if dp[i][i] < 0 {
        return true;
      }
    }
    return false;
  }

  /** A negative entry on APSP's diagonal is justified: some currency lies on a negative closed walk. */
  lemma DetectSound(adj: seq<seq<int>>, p1: seq<seq<int>>, dp: seq<seq<int>>, c: int, i: int)
    requires Phase1(adj, p1, c) && Square(dp, c) && Marking(adj, p1, dp, c)
    requires 0 <= i < c && dp[i][i] < 0
    ensures exists m :: 0 <= m < c && NegCycle(adj, m)
  {
    if dp[i][i] == p1[i][i] {
      assert Path(adj, i, i, p1[i][i]);
      assert NegCycle(adj, i);
    } else {
      var m :| 0 <= m < |adj| && Reach(adj, i, m) && NegCycle(adj, m) && Reach(adj, m, i);
    }
  }

  /** A simple negative cycle whose partial sums fit makes the entry of its first currency negative. */
  lemma DetectComplete(adj: seq<seq<int>>, p1: seq<seq<int>>, dp: seq<seq<int>>, c: int, cycle: seq<int>)
    requires Phase1(adj, p1, c) && Square(dp, c) && Marking(adj, p1, dp, c)
    requires Walk(adj, cycle) && |cycle| >= 2 && Simple(cycle) && Fits(adj, cycle)
    requires cycle[0] == cycle[|cycle| - 1] && Weight(adj, cycle) < 0
    ensures dp[cycle[0]][cycle[0]] < 0
  {
    Optimal(adj, p1, c, cycle);
  }

  /**
   * The two verdicts differ: on the matrix of two currencies whose exchanges 0 -> 1 and
   * 1 -> 0 weigh -1 each, the loop as written reads the diagonal of 1s and says Ok, while
   * APSP's result has a negative diagonal entry, so Detect says arbitrage.
   */
  lemma Discarded(p1: seq<seq<int>>, dp: seq<seq<int>>)
    requires Phase1([[1, -1], [-1, 1]], p1, 2) && Square(dp, 2) && Marking([[1, -1], [-1, 1]], p1, dp, 2)
    ensures Written([[1, -1], [-1, 1]], 2, 2) == Ok
    ensures exists i :: 0 <= i < 2 && dp[i][i] < 0
  {
    var adj := [[1, -1], [-1, 1]];
    assert adj[0][0] == 1 && adj[1][1] == 1 && adj[0][1] == -1 && adj[1][0] == -1;
    var cycle := TwoCycle(adj);
    DetectComplete(adj, p1, dp, 2, cycle);
  }

  /** A one-edge walk weighs its entry. */
  lemma Edge(adj: seq<seq<int>>, a: int, b: int)
    requires Square(adj, |adj|) && 0 <= a < |adj| && 0 <= b < |adj| && adj[a][b] < INF
    ensures Walk(adj, [a, b]) && Weight(adj, [a, b]) == adj[a][b]
  {
    assert Walk(adj, [a, b]);
    assert [a, b][1..] == [b];
  }

  /** With exchanges 0 -> 1 and 1 -> 0 of weight -1, the cycle 0 -> 1 -> 0 is simple, fits, and weighs -2. */
  lemma TwoCycle(adj: seq<seq<int>>) returns (cycle: seq<int>)
    requires Square(adj, 2) && adj[0][1] == -1 && adj[1][0] == -1
    ensures Walk(adj, cycle) && |cycle| >= 2 && Simple(cycle) && Fits(adj, cycle)
    ensures cycle[0] == cycle[|cycle| - 1] && Weight(adj, cycle) < 0
  {
    cycle := [0, 1, 0];
    Edge(adj, 0, 1);
    Edge(adj, 1, 0);
    WeightJoin(adj, [0, 1], [1, 0]);
    assert [0, 1] + [1, 0][1..] == cycle;
    TwoCycleFits(adj, cycle);
  }

  /** Each part of 0 -> 1 -> 0 is a walk weighing -1 or -2. */
  lemma TwoCycleFits(adj: seq<seq<int>>, cycle: seq<int>)
    requires Square(adj, 2) && adj[0][1] == -1 && adj[1][0] == -1 && cycle == [0, 1, 0]
    requires Walk(adj, cycle) && Weight(adj, cycle) == -2
    ensures Fits(adj, cycle)
  {
    forall a, b | 0 <= a < b < 3
      ensures PartFits(adj, cycle, a, b)
    {
      if b - a == 2 {
        assert cycle[a..b + 1] == cycle;
      } else if a == 0 {
        Edge(adj, 0, 1);
        assert cycle[a..b + 1] == [0, 1];
      } else {
        Edge(adj, 1, 0);
        assert cycle[a..b + 1] == [1, 0];
      }
    }
  }
}
