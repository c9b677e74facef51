/**
 * 0/1 knapsack: a subset of the items of greatest total value whose total weight fits
 * a capacity C. A table DP[i][j], for the first i items and capacity j, is filled row by
 * row; each cell that takes item i-1 links back to the cell it extends, and the answer is
 * read back by following those links from DP[n][C].
 *
 * The cells are Items, as in the source; a `prev` pointer into the table becomes the
 * (row, column) of the cell it points at.
 */
module Knapsack {

  datatype Link = Null | Cell(row: nat, col: nat)

  /** Item of the source: value and weight are unsigned, `prev` a link into the table. */
  datatype Item = Item(value: nat, weight: nat, index: nat, prev: Link)

  /** A default-constructed Item: all fields zero and no link. */
  const Blank := Item(0, 0, 0, Null)

  /**
   * The value knapsack's recurrence gives DP[i][j]: column 0 and row 0 stay at zero, an
   * item too heavy for j leaves the value of the row above, and otherwise the item is
   * taken exactly when that strictly improves on leaving it.
   */
  function Table(items: seq<Item>, i: nat, j: nat): nat
    requires i <= |items|
    decreases i
  {
    if i == 0 || j == 0 then 0
    else
      var it := items[i - 1];
      if j < it.weight then Table(items, i - 1, j)
      else if Table(items, i - 1, j - it.weight) + it.value > Table(items, i - 1, j)
      then Table(items, i - 1, j - it.weight) + it.value
      else Table(items, i - 1, j)
  }

  /** The same recurrence with column 0 filled as well, as knapsack evidently intends. */
  function Best(items: seq<Item>, i: nat, j: nat): nat
    requires i <= |items|
    decreases i
  {
    if i == 0 then 0
    else
      var it := items[i - 1];
      if j < it.weight then Best(items, i - 1, j)
      else if Best(items, i - 1, j - it.weight) + it.value > Best(items, i - 1, j)
      then Best(items, i - 1, j - it.weight) + it.value
      else Best(items, i - 1, j)
  }

  /** A choice of items among the first n, given by their positions, largest first. */
  predicate Selection(n: int, rows: seq<int>)
  {
    && (forall k :: 0 <= k < |rows| ==> 0 <= rows[k] < n)
    && (forall a, b :: 0 <= a < b < |rows| ==> rows[b] < rows[a])
  }

  function ValueSum(items: seq<Item>, rows: seq<int>): nat
    requires Selection(|items|, rows)
  {
    if |rows| == 0 then 0 else items[rows[0]].value + ValueSum(items, rows[1..])
  }

  function WeightSum(items: seq<Item>, rows: seq<int>): nat
    requires Selection(|items|, rows)
  {
    if |rows| == 0 then 0 else items[rows[0]].weight + WeightSum(items, rows[1..])
  }

  /** A selection of items that fits capacity C. */
  predicate Fits(items: seq<Item>, C: nat, rows: seq<int>)
  {
    Selection(|items|, rows) && WeightSum(items, rows) <= C
  }

  /** A fitting selection of greatest total value. */
  ghost predicate Optimal(items: seq<Item>, C: nat, rows: seq<int>)
  {
    Fits(items, C, rows)
    && forall other :: Fits(items, C, other) ==> ValueSum(items, other) <= ValueSum(items, rows)
  }

  /** No selection of the first i items with weight at most j is worth more than Best(items, i, j). */
  lemma {:induction false} BestBound(items: seq<Item>, i: nat, j: nat, rows: seq<int>)
    requires i <= |items| && Selection(i, rows) && Selection(|items|, rows) && WeightSum(items, rows) <= j
    ensures ValueSum(items, rows) <= Best(items, i, j)
    decreases i
  {
    if i == 0 {
    } else if |rows| > 0 && rows[0] == i - 1 {
      var it := items[i - 1];
      var rest := rows[1..];
      assert Selection(i - 1, rest) by {
        forall k | 0 <= k < |rest|
          ensures rest[k] < i - 1
        {
          assert rows[k + 1] < rows[0];
        }
      }
      BestBound(items, i - 1, j - it.weight, rest);
    } else {
      assert Selection(i - 1, rows) by {
        forall k | 0 <= k < |rows|
          ensures rows[k] < i - 1
        {
          if k > 0 {
            assert rows[k] < rows[0];
          }
        }
      }
      BestBound(items, i - 1, j, rows);
    }
  }

  /** Best(items, i, j) is the value of some selection of the first i items with weight at most j. */
  lemma {:induction false} BestAchieved(items: seq<Item>, i: nat, j: nat) returns (rows: seq<int>)
    requires i <= |items|
    ensures Selection(i, rows) && Selection(|items|, rows)
    ensures WeightSum(items, rows) <= j && ValueSum(items, rows) == Best(items, i, j)
    decreases i
  {
    if i == 0 {
      rows := [];
    } else {
      var it := items[i - 1];
      if j >= it.weight && Best(items, i - 1, j - it.weight) + it.value > Best(items, i - 1, j) {
        var rest := BestAchieved(items, i - 1, j - it.weight);
        rows := [i - 1] + rest;
        assert rows[1..] == rest;
      } else {
        rows := BestAchieved(items, i - 1, j);
      }
    }
  }

  /** So Best(items, n, C) is the greatest value of a selection that fits C. */
  lemma BestOptimal(items: seq<Item>, C: nat) returns (rows: seq<int>)
    ensures Optimal(items, C, rows) && ValueSum(items, rows) == Best(items, |items|, C)
  {
    rows := BestAchieved(items, |items|, C);
    forall other | Fits(items, C, other)
      ensures ValueSum(items, other) <= ValueSum(items, rows)
    {
      BestBound(items, |items|, C, other);
    }
  }

  /** When every item weighs at least 1, knapsack's recurrence and the intended one agree. */
  lemma {:induction false} TableIsBest(items: seq<Item>, i: nat, j: nat)
    requires i <= |items| && forall k :: 0 <= k < |items| ==> items[k].weight >= 1
    ensures Table(items, i, j) == Best(items, i, j)
    decreases i, j
  {
    if i == 0 {
    } else if j == 0 {
      TableIsBest(items, i - 1, 0);
      assert Best(items, i, 0) == Best(items, i - 1, 0) by {
        assert j < items[i - 1].weight;
      }
      assert Table(items, i - 1, 0) == 0;
    } else {
      var it := items[i - 1];
      TableIsBest(items, i - 1, j);
      if j >= it.weight {
        TableIsBest(items, i - 1, j - it.weight);
      }
    }
  }

  /**
   * An item of weight 0 is lost at capacity 0, which the recurrence never fills: with
   * A (value 5, weight 0) and B (value 3, weight 1) and capacity 1 the table reaches 5,
   * while taking both fits and is worth 8.
   */
  lemma ZeroWeightShortfall()
    ensures var items := [Item(5, 0, 0, Null), Item(3, 1, 1, Null)];
            Table(items, 2, 1) == 5 && Fits(items, 1, [1, 0]) && ValueSum(items, [1, 0]) == 8
            && Best(items, 2, 1) == 8
  {
    var items := [Item(5, 0, 0, Null), Item(3, 1, 1, Null)];
    assert Table(items, 1, 1) == 5;
    assert Best(items, 1, 0) == 5;
    assert ValueSum(items, [1, 0][1..]) == 5;
    assert WeightSum(items, [1, 0][1..]) == 0;
  }

  /** DP has n + 1 rows of C + 1 cells. */
  predicate Shaped(dp: seq<seq<Item>>, n: nat, C: nat)
  {
    |dp| == n + 1 && forall r :: 0 <= r < |dp| ==> |dp[r]| == C + 1
  }

  /**
   * What knapsack writes into DP[r][c]: nothing in row 0 and column 0; otherwise a copy of
   * the cell above when item r-1 is too heavy or taking it does not strictly improve, and
   * else the improved value with the item's index and a link to the cell it extends.
   */
  predicate Entry(items: seq<Item>, C: nat, dp: seq<seq<Item>>, r: nat, c: nat)
    requires Shaped(dp, |items|, C) && r <= |items| && c <= C
  {
    if r == 0 || c == 0 then dp[r][c] == Blank
    else
      var it := items[r - 1];
      if c < it.weight then dp[r][c] == dp[r - 1][c]
      else if dp[r - 1][c - it.weight].value + it.value > dp[r - 1][c].value
      then dp[r][c] == Blank.(value := dp[r - 1][c - it.weight].value + it.value, index := it.index,
                              prev := Cell(r - 1, c - it.weight))
      else dp[r][c] == dp[r - 1][c]
  }

  /**
   * What a cell means: its value is the recurrence's, it has no link exactly when its value
   * is 0, and a link to (pr, pc) says the cell is item pr taken on top of DP[pr][pc]:
   * pc is c less the item's weight, the value is the item's more, the index is the item's.
   */
  predicate Linked(items: seq<Item>, dp: seq<seq<Item>>, r: nat, c: nat)
    requires r < |dp| && c < |dp[r]| && r <= |items|
  {
    var e := dp[r][c];
    && e.value == Table(items, r, c)
    && match e.prev
       case Null => e.value == 0
       case Cell(pr, pc) =>
         && pr < r && pc + items[pr].weight == c && e.index == items[pr].index
         && Table(items, r, c) == Table(items, pr, pc) + items[pr].value && e.value >= 1
  }

  predicate Done(items: seq<Item>, C: nat, dp: seq<seq<Item>>, r: nat, c: nat)
    requires Shaped(dp, |items|, C) && r <= |items| && c <= C
  {
    Entry(items, C, dp, r, c) && Linked(items, dp, r, c)
  }

  /** The cells the loops have passed when they stand at (i, j); column 0 is never visited. */
  predicate Before(i: nat, j: nat, r: nat, c: nat)
  {
    c == 0 || r < i || (r == i && c < j)
  }

  /** The table while the loops stand at (i, j): cells before it are done, the rest blank. */
  predicate FillState(items: seq<Item>, C: nat, dp: seq<seq<Item>>, i: nat, j: nat)
  {
    && Shaped(dp, |items|, C) && 1 <= i <= |items| + 1 && 1 <= j <= C + 1
    && (forall r, c :: 0 <= r <= |items| && 0 <= c <= C && Before(i, j, r, c) ==> Done(items, C, dp, r, c))
    && (forall r, c :: 0 <= r <= |items| && 0 <= c <= C && !Before(i, j, r, c) ==> dp[r][c] == Blank)
  }

  /** The cell knapsack writes at (i, j), from the finished row above it, is done. */
  lemma NewCell(items: seq<Item>, C: nat, dp: seq<seq<Item>>, i: nat, j: nat, e: Item, dp': seq<seq<Item>>)
    requires Shaped(dp, |items|, C) && 1 <= i <= |items| && 1 <= j <= C && dp[i][j] == Blank
    requires Linked(items, dp, i - 1, j)
    requires j >= items[i - 1].weight ==> Linked(items, dp, i - 1, j - items[i - 1].weight)
    requires var it := items[i - 1];
             e == if j < it.weight then dp[i - 1][j]
                  else if dp[i - 1][j - it.weight].value + it.value > dp[i - 1][j].value
                  then dp[i][j].(value := dp[i - 1][j - it.weight].value + it.value, index := it.index,
                                 prev := Cell(i - 1, j - it.weight))
                  else dp[i - 1][j]
    requires dp' == dp[i := dp[i][j := e]]
    ensures Shaped(dp', |items|, C) && Done(items, C, dp', i, j)
  {
    assert dp'[i - 1] == dp[i - 1];
  }

  /** A done cell stays done when neither it nor (off column 0) the row above it changes. */
  lemma DoneFrame(items: seq<Item>, C: nat, dp: seq<seq<Item>>, dp': seq<seq<Item>>, r: nat, c: nat)
    requires Shaped(dp, |items|, C) && Shaped(dp', |items|, C) && r <= |items| && c <= C
    requires Done(items, C, dp, r, c) && dp'[r][c] == dp[r][c] && (r > 0 && c > 0 ==> dp'[r - 1] == dp[r - 1])
    ensures Done(items, C, dp', r, c)
  {
  }

  /** Writing cell (i, j) as knapsack does keeps the table in order, one cell further on. */
  lemma FillStep(items: seq<Item>, C: nat, dp: seq<seq<Item>>, i: nat, j: nat,
                 e: Item, dp': seq<seq<Item>>, j': nat)
    requires FillState(items, C, dp, i, j) && i <= |items| && j <= C && j' == j + 1
    requires var it := items[i - 1];
             e == if j < it.weight then dp[i - 1][j]
                  else if dp[i - 1][j - it.weight].value + it.value > dp[i - 1][j].value
                  then dp[i][j].(value := dp[i - 1][j - it.weight].value + it.value, index := it.index,
                                 prev := Cell(i - 1, j - it.weight))
                  else dp[i - 1][j]
    requires dp' == dp[i := dp[i][j := e]]
    ensures FillState(items, C, dp', i, j')
  {
    var it := items[i - 1];
    assert Before(i, j, i - 1, j) && Done(items, C, dp, i - 1, j);
    if j >= it.weight {
      assert Before(i, j, i - 1, j - it.weight) && Done(items, C, dp, i - 1, j - it.weight);
    }
    assert !Before(i, j, i, j);
    NewCell(items, C, dp, i, j, e, dp');
    forall r, c | 0 <= r <= |items| && 0 <= c <= C && Before(i, j', r, c)
      ensures Done(items, C, dp', r, c)
    {
      if r != i || c != j {
        assert Before(i, j, r, c);
        assert dp'[r][c] == dp[r][c] by {
          if r == i {
            assert c != j;
          }
        }
        if r > 0 && c > 0 {
          assert r - 1 != i;
        }
        DoneFrame(items, C, dp, dp', r, c);
      }
    }
    forall r, c | 0 <= r <= |items| && 0 <= c <= C && !Before(i, j', r, c)
      ensures dp'[r][c] == Blank
    {
      assert !Before(i, j, r, c);
    }
  }

  /** A finished row: the loops move on to the first cell of the next. */
  lemma NextRow(items: seq<Item>, C: nat, dp: seq<seq<Item>>, i: nat, i': nat)
    requires FillState(items, C, dp, i, C + 1) && i <= |items| && i' == i + 1
    ensures FillState(items, C, dp, i', 1)
  {
  }

  /** The first half of knapsack: the DP table, every cell as written and as meant. */
  method Fill(C: nat, items: seq<Item>) returns (dp: seq<seq<Item>>)
    ensures Shaped(dp, |items|, C)
    ensures forall r, c :: 0 <= r <= |items| && 0 <= c <= C ==> Done(items, C, dp, r, c)
  {
    dp := seq(|items| + 1, _ => seq(C + 1, _ => Blank));
    var i := 1;
    while i <= |items|
      invariant FillState(items, C, dp, i, 1)
      decreases |items| + 1 - i
    {
      var j := 1;
      while j <= C
        invariant FillState(items, C, dp, i, j)
        decreases C + 1 - j
      {
        var it := items[i - 1];
        var e;
        if j < it.weight {
          e := dp[i - 1][j];
        } else if dp[i - 1][j - it.weight].value + it.value > dp[i - 1][j].value {
          e := dp[i][j].(value := dp[i - 1][j - it.weight].value + it.value, index := it.index,
                         prev := Cell(i - 1, j - it.weight));
        } else {
          e := dp[i - 1][j];
        }
        ghost var dp0, j0 := dp, j;
        dp := dp[i := dp[i][j := e]];
        j := j + 1;
        FillStep(items, C, dp0, i, j0, e, dp, j);
      }
      ghost var i0 := i;
      i := i + 1;
      NextRow(items, C, dp, i0, i);
    }
  }

  /** Appending one more selected item adds its value and its weight. */
  lemma {:induction false} SumsAppend(items: seq<Item>, rows: seq<int>, x: int)
    requires Selection(|items|, rows) && Selection(|items|, rows + [x]) && 0 <= x < |items|
    ensures ValueSum(items, rows + [x]) == ValueSum(items, rows) + items[x].value
    ensures WeightSum(items, rows + [x]) == WeightSum(items, rows) + items[x].weight
    decreases |rows|
  {
    if |rows| > 0 {
      assert (rows + [x])[1..] == rows[1..] + [x];
      SumsAppend(items, rows[1..], x);
    } else {
      assert ([x])[1..] == [];
    }
  }

  /** The walk back along the links, standing at (r, c) with `rows` taken so far. */
  predicate Walk(items: seq<Item>, C: nat, rows: seq<int>, result: seq<nat>, r: nat, c: nat)
  {
    && r <= |items| && c <= C && Selection(|items|, rows)
    && (forall k :: 0 <= k < |rows| ==> r <= rows[k])
    && |result| == |rows| && (forall k :: 0 <= k < |rows| ==> result[k] == items[rows[k]].index)
    && WeightSum(items, rows) + c == C
    && ValueSum(items, rows) + Table(items, r, c) == Table(items, |items|, C)
    && (|rows| > 0 ==> Table(items, |items|, C) >= 1)
  }

  /** Following the link of a cell whose value is not 0. */
  lemma WalkStep(items: seq<Item>, C: nat, dp: seq<seq<Item>>, rows: seq<int>, result: seq<nat>, r: nat, c: nat,
                 rows': seq<int>, result': seq<nat>, r': nat, c': nat)
    requires Shaped(dp, |items|, C) && Walk(items, C, rows, result, r, c) && Linked(items, dp, r, c)
    requires dp[r][c].prev == Cell(r', c')
    requires rows' == rows + [r'] && result' == result + [dp[r][c].index]
    ensures Walk(items, C, rows', result', r', c')
  {
    assert Selection(|items|, rows') by {
      if |rows| > 0 {
        assert rows'[|rows|] < rows[|rows| - 1];
      }
    }
    SumsAppend(items, rows, r');
  }

  /**
   * The second half of knapsack: the walk from DP[n][C] along the links, collecting the
   * index of every cell of nonzero value. The result names distinct items, last row
   * first, whose weights fit C and whose values add up to DP[n][C]; it is empty exactly
   * when that value is 0.
   */
  method Backtrack(items: seq<Item>, C: nat, dp: seq<seq<Item>>) returns (result: seq<nat>, ghost rows: seq<int>)
    requires Shaped(dp, |items|, C)
    requires forall r, c :: 0 <= r <= |items| && 0 <= c <= C ==> Linked(items, dp, r, c)
    ensures Fits(items, C, rows) && |result| == |rows|
    ensures forall k :: 0 <= k < |rows| ==> result[k] == items[rows[k]].index
    ensures ValueSum(items, rows) == Table(items, |items|, C)
    ensures result == [] <==> Table(items, |items|, C) == 0
  {
    result, rows := [], [];
    var r: nat, c: nat := |items|, C;
    while true
      invariant Walk(items, C, rows, result, r, c)
      decreases r
    {
      assert Linked(items, dp, r, c);
      var e := dp[r][c];
      ghost var rows0, result0, r0, c0 := rows, result, r, c;
      if e.value != 0 {
        result := result + [e.index];
      }
      if e.prev == Null {
        break;
      }
      rows := rows + [e.prev.row];
      r, c := e.prev.row, e.prev.col;
      WalkStep(items, C, dp, rows0, result0, r0, c0, rows, result, r, c);
    }
  }

  /**
   * knapsack(C, items): the indices of a selection of distinct items, last first, that
   * fits C and is worth the table's value DP[n][C], empty exactly when that value is 0.
   * When every item weighs at least 1 the selection is optimal.
   */
  method Solve(C: nat, items: seq<Item>) returns (result: seq<nat>, ghost rows: seq<int>)
    ensures Fits(items, C, rows) && |result| == |rows|
    ensures forall k :: 0 <= k < |rows| ==> result[k] == items[rows[k]].index
    ensures ValueSum(items, rows) == Table(items, |items|, C)
    ensures result == [] <==> Table(items, |items|, C) == 0
    ensures (forall k :: 0 <= k < |items| ==> items[k].weight >= 1) ==> Optimal(items, C, rows)
  {
    var dp := Fill(C, items);
    assert forall r, c :: 0 <= r <= |items| && 0 <= c <= C ==> Linked(items, dp, r, c) by {
      forall r, c | 0 <= r <= |items| && 0 <= c <= C
        ensures Linked(items, dp, r, c)
      {
        assert Done(items, C, dp, r, c);
      }
    }
    result, rows := Backtrack(items, C, dp);
    if forall k :: 0 <= k < |items| ==> items[k].weight >= 1 {
      TableIsBest(items, |items|, C);
      var best := BestOptimal(items, C);
    }
  }
}
