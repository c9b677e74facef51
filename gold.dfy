/**
 * Gold: a player starts at 'P' on a walled map of '#' walls, 'T' traps, 'G' gold and
 * '.' floor, and senses a draft whenever a trap is next to them. Moving only from squares
 * with no trap next to them, the answer is the number of gold squares they can be sure
 * to reach safely. The search pops squares from a queue, skips walls and squares
 * already visited, and queues all four neighbours of a square only when none of them is
 * a trap.
 *
 * A Node* of the source is the (row, column) of its square; the Node::visited flags are
 * kept in a matrix of their own, which the search returns.
 */
module Gold {
  import opened Graphs

  type Cell = (int, int)

  /** The row and column steps u and w: up, right, down, left. */
  const Up: seq<int> := [-1, 0, 1, 0]
  const Right: seq<int> := [0, 1, 0, -1]

  /** The k-th neighbour of c. */
  function Neighbour(c: Cell, k: int): Cell
    requires 0 <= k < 4
  {
    (c.0 + Up[k], c.1 + Right[k])
  }

  /** The four neighbours of c, in the order addChildren queues them. */
  function Children(c: Cell): seq<Cell>
  {
    [Neighbour(c, 0), Neighbour(c, 1), Neighbour(c, 2), Neighbour(c, 3)]
  }

  /** c is a square of the map. */
  predicate Inside(g: seq<seq<char>>, c: Cell)
  {
    0 <= c.0 < |g| && 0 <= c.1 < |g[c.0]|
  }

  /** A rectangular map whose border squares are all walls, as the input promises. */
  predicate Walled(g: seq<seq<char>>)
  {
    && |g| > 0
    && (forall i :: 0 <= i < |g| ==> |g[i]| == |g[0]|)
    && forall i, j :: 0 <= i < |g| && 0 <= j < |g[i]| && (i == 0 || i == |g| - 1 || j == 0 || j == |g[i]| - 1)
         ==> g[i][j] == '#'
  }

  /** On a walled map, the four neighbours of a square that is not a wall are squares. */
  lemma InnerSquare(g: seq<seq<char>>, c: Cell)
    requires Walled(g) && Inside(g, c) && g[c.0][c.1] != '#'
    ensures forall k :: 0 <= k < 4 ==> Inside(g, Neighbour(c, k))
  {
  }

  /** Square c of the map holds ch. */
  predicate Holds(g: seq<seq<char>>, c: Cell, ch: char)
  {
    Inside(g, c) && g[c.0][c.1] == ch
  }

  /** No neighbour of c is a trap: the player feels no draft there and may move on. */
  predicate Safe(g: seq<seq<char>>, c: Cell)
  {
    forall k :: 0 <= k < 4 ==> Inside(g, Neighbour(c, k)) && !Holds(g, Neighbour(c, k), 'T')
  }

  /**
   * A safe walk: squares that are not walls, each after the first a neighbour of the one
   * before, and every one but the last safe to move on from.
   */
  predicate Trail(g: seq<seq<char>>, p: seq<Cell>)
  {
    && |p| > 0
    && (forall k :: 0 <= k < |p| ==> Inside(g, p[k]) && !Holds(g, p[k], '#'))
    && (forall k :: 0 <= k < |p| - 1 ==> Safe(g, p[k]) && p[k + 1] in Children(p[k]))
  }

  /** The player can get from start to c safely. */
  ghost predicate Found(g: seq<seq<char>>, start: Cell, c: Cell)
  {
    exists p :: Trail(g, p) && p[0] == start && p[|p| - 1] == c
  }

  /** A walk to a safe square extends to each of its neighbours that is not a wall. */
  lemma FoundStep(g: seq<seq<char>>, start: Cell, c: Cell, d: Cell)
    requires Found(g, start, c) && Safe(g, c) && d in Children(c) && Inside(g, d) && !Holds(g, d, '#')
    ensures Found(g, start, d)
  {
    var p: seq<Cell> :| Trail(g, p) && p[0] == start && p[|p| - 1] == c;
    var p' := p + [d];
    assert forall k :: 0 <= k < |p| ==> p'[k] == p[k];
    assert Trail(g, p');
  }

  /**
   * addChildren(map, queue, cur): if any neighbour of cur is a trap, nothing is queued;
   * otherwise all four neighbours are, in order, and none of them is a trap.
   */
  method AddChildren(g: seq<seq<char>>, q: seq<Cell>, cur: Cell) returns (q': seq<Cell>)
    requires Walled(g) && Inside(g, cur) && !Holds(g, cur, '#')
    ensures q' == if Safe(g, cur) then q + Children(cur) else q
    ensures forall k :: |q| <= k < |q'| ==> Inside(g, q'[k]) && !Holds(g, q'[k], 'T')
  {
    InnerSquare(g, cur);
    var k := 0;
    while k < 4
      invariant 0 <= k <= 4
      invariant forall k' :: 0 <= k' < k ==> !Holds(g, Neighbour(cur, k'), 'T')
    {
      var temp := Neighbour(cur, k);
      if g[temp.0][temp.1] == 'T' {
        return q;
      }
      k := k + 1;
    }
    q' := q;
    k := 0;
    while k < 4
      invariant 0 <= k <= 4 && q' == q + Children(cur)[..k]
    {
      q' := q' + [Neighbour(cur, k)];
      k := k + 1;
    }
  }

  /** visited has the shape of the map. */
  predicate Shaped(g: seq<seq<char>>, visited: seq<seq<bool>>)
  {
    |visited| == |g| && forall i :: 0 <= i < |g| ==> |visited[i]| == |g[i]|
  }

  /** Square c is marked visited. */
  predicate Seen(visited: seq<seq<bool>>, c: Cell)
  {
    0 <= c.0 < |visited| && 0 <= c.1 < |visited[c.0]| && visited[c.0][c.1]
  }

  /** The flags with square c marked visited. */
  function Visit(visited: seq<seq<bool>>, c: Cell): (r: seq<seq<bool>>)
    requires 0 <= c.0 < |visited| && 0 <= c.1 < |visited[c.0]|
    ensures |r| == |visited| && forall i :: 0 <= i < |r| ==> |r[i]| == |visited[i]|
    ensures forall d :: Seen(r, d) <==> Seen(visited, d) || d == c
  {
    visited[c.0 := visited[c.0][c.1 := true]]
  }

  /** The number of visited gold squares in one row. */
  function GoldRow(row: seq<char>, seen: seq<bool>): nat
    requires |row| == |seen|
  {
    if row == [] then 0 else GoldRow(row[1..], seen[1..]) + (if seen[0] && row[0] == 'G' then 1 else 0)
  }

  /** The number of visited gold squares. */
  function GoldCount(g: seq<seq<char>>, visited: seq<seq<bool>>): nat
    requires Shaped(g, visited)
  {
    if g == [] then 0 else GoldRow(g[0], visited[0]) + GoldCount(g[1..], visited[1..])
  }

  /** Visiting one more square of a row adds one exactly when it holds gold. */
  lemma {:induction false} GoldRowMark(row: seq<char>, seen: seq<bool>, j: int)
    requires |row| == |seen| && 0 <= j < |seen| && !seen[j]
    ensures GoldRow(row, seen[j := true]) == GoldRow(row, seen) + (if row[j] == 'G' then 1 else 0)
    decreases |row|
  {
    if j > 0 {
      assert seen[j := true][1..] == seen[1..][j - 1 := true];
      GoldRowMark(row[1..], seen[1..], j - 1);
    } else {
      assert seen[j := true][1..] == seen[1..];
    }
  }

  /** Visiting one more square adds one to the gold count exactly when it holds gold. */
  lemma {:induction false} Mark(g: seq<seq<char>>, visited: seq<seq<bool>>, c: Cell)
    requires Shaped(g, visited) && Inside(g, c) && !Seen(visited, c)
    ensures Shaped(g, Visit(visited, c))
    ensures GoldCount(g, Visit(visited, c)) == GoldCount(g, visited) + (if Holds(g, c, 'G') then 1 else 0)
    decreases |g|
  {
    var v' := Visit(visited, c);
    if c.0 > 0 {
      assert v'[1..] == Visit(visited[1..], (c.0 - 1, c.1));
      Mark(g[1..], visited[1..], (c.0 - 1, c.1));
    } else {
      assert v'[1..] == visited[1..];
      GoldRowMark(g[0], visited[0], c.1);
    }
  }

  /** A row with nothing visited has no visited gold. */
  lemma {:induction false} FreshRow(row: seq<char>, seen: seq<bool>)
    requires |row| == |seen| && forall j :: 0 <= j < |seen| ==> !seen[j]
    ensures GoldRow(row, seen) == 0
    decreases |row|
  {
    if row != [] {
      FreshRow(row[1..], seen[1..]);
    }
  }

  /** A fresh matrix of visited flags has no gold counted. */
  lemma {:induction false} Fresh(g: seq<seq<char>>, visited: seq<seq<bool>>)
    requires Shaped(g, visited) && forall i, j :: 0 <= i < |g| && 0 <= j < |g[i]| ==> !visited[i][j]
    ensures GoldCount(g, visited) == 0
    decreases |g|
  {
    if g != [] {
      FreshRow(g[0], visited[0]);
      Fresh(g[1..], visited[1..]);
    }
  }

  /** c is visited, or is a wall, or is still waiting in the queue. */
  predicate Covered(g: seq<seq<char>>, visited: seq<seq<bool>>, q: seq<Cell>, c: Cell)
  {
    Seen(visited, c) || Holds(g, c, '#') || c in q
  }

  /** Every queued square is a square and no trap, and reachable from start unless a wall. */
  ghost predicate Queued(g: seq<seq<char>>, start: Cell, q: seq<Cell>)
  {
    forall k :: 0 <= k < |q| ==>
      Inside(g, q[k]) && !Holds(g, q[k], 'T') && (!Holds(g, q[k], '#') ==> Found(g, start, q[k]))
  }

  /** Every visited square is reachable and not a wall; gold counts the visited gold squares. */
  ghost predicate Visits(g: seq<seq<char>>, start: Cell, visited: seq<seq<bool>>, gold: int)
  {
    && Shaped(g, visited)
    && (forall c :: Seen(visited, c) ==> Inside(g, c) && !Holds(g, c, '#') && Found(g, start, c))
    && gold == GoldCount(g, visited)
  }

  /** The start, and each neighbour of a visited safe square, is covered. */
  ghost predicate Frontier(g: seq<seq<char>>, start: Cell, visited: seq<seq<bool>>, q: seq<Cell>)
  {
    && Covered(g, visited, q, start)
    && forall c, k :: Seen(visited, c) && Safe(g, c) && 0 <= k < 4 ==> Covered(g, visited, q, Neighbour(c, k))
  }

  /** The state of bfs's loop. */
  ghost predicate Searching(g: seq<seq<char>>, start: Cell, visited: seq<seq<bool>>, q: seq<Cell>, gold: int)
  {
    Visits(g, start, visited, gold) && Queued(g, start, q) && Frontier(g, start, visited, q)
  }

  /** The search begins with start queued and nothing visited. */
  lemma Begin(g: seq<seq<char>>, start: Cell, visited: seq<seq<bool>>)
    requires Inside(g, start) && Holds(g, start, 'P')
    requires Shaped(g, visited) && forall i, j :: 0 <= i < |g| && 0 <= j < |g[i]| ==> !visited[i][j]
    ensures Searching(g, start, visited, [start], 0)
  {
    Fresh(g, visited);
    var p := [start];
    assert Trail(g, p);
  }

  /** A popped square that is a wall or already visited is passed over. */
  lemma SkipStep(g: seq<seq<char>>, start: Cell, visited: seq<seq<bool>>, q: seq<Cell>, gold: int)
    requires Searching(g, start, visited, q, gold) && q != []
    requires Seen(visited, q[0]) || Holds(g, q[0], '#')
    ensures Searching(g, start, visited, q[1..], gold)
  {
    forall c | Covered(g, visited, q, c)
      ensures Covered(g, visited, q[1..], c)
    {
      if c !in q[1..] && c in q {
        assert c == q[0];
      }
    }
  }

  /** Visiting cur, reachable and not a wall, keeps the visited squares reachable and counts its gold. */
  lemma VisitKeeps(g: seq<seq<char>>, start: Cell, visited: seq<seq<bool>>, gold: int, cur: Cell)
    requires Visits(g, start, visited, gold) && Inside(g, cur) && !Holds(g, cur, '#') && !Seen(visited, cur)
    requires Found(g, start, cur)
    ensures Visits(g, start, Visit(visited, cur), gold + if Holds(g, cur, 'G') then 1 else 0)
    ensures Unvisited(Visit(visited, cur)) < Unvisited(visited)
  {
    Mark(g, visited, cur);
    UnvisitedMark(visited, cur.0, cur.1);
  }

  /** The squares queued after cur is popped are reachable too, unless walls. */
  lemma VisitQueues(g: seq<seq<char>>, start: Cell, q: seq<Cell>, cur: Cell, q': seq<Cell>)
    requires Queued(g, start, q) && q != [] && cur == q[0] && !Holds(g, cur, '#')
    requires q' == (if Safe(g, cur) then q[1..] + Children(cur) else q[1..])
    requires forall k :: |q| - 1 <= k < |q'| ==> Inside(g, q'[k]) && !Holds(g, q'[k], 'T')
    ensures Queued(g, start, q')
  {
    forall k | 0 <= k < |q'| && !Holds(g, q'[k], '#')
      ensures Found(g, start, q'[k])
    {
      if k >= |q| - 1 {
        assert q'[k] in Children(cur);
        FoundStep(g, start, cur, q'[k]);
      } else {
        assert q'[k] == q[k + 1];
      }
    }
  }

  /** After cur is popped, visited and its neighbours queued if it is safe, nothing covered is lost. */
  lemma VisitCovers(g: seq<seq<char>>, start: Cell, visited: seq<seq<bool>>, q: seq<Cell>, cur: Cell, q': seq<Cell>)
    requires Frontier(g, start, visited, q) && q != [] && cur == q[0]
    requires 0 <= cur.0 < |visited| && 0 <= cur.1 < |visited[cur.0]|
    requires q' == (if Safe(g, cur) then q[1..] + Children(cur) else q[1..])
    ensures Frontier(g, start, Visit(visited, cur), q')
  {
    var v' := Visit(visited, cur);
    forall c | Covered(g, visited, q, c)
      ensures Covered(g, v', q', c)
    {
      if c in q && c != cur {
        var k :| 0 <= k < |q| && q[k] == c;
        assert q'[k - 1] == c;
      }
    }
    if Safe(g, cur) {
      forall k | 0 <= k < 4
        ensures Covered(g, v', q', Neighbour(cur, k))
      {
        assert q'[|q| - 1 + k] == Neighbour(cur, k);
      }
    }
  }

  /**
   * Popping cur, neither a wall nor visited: it is marked visited, its gold counted, and
   * its neighbours queued when it is safe. The search state is kept, with one square fewer
   * unvisited.
   */
  lemma VisitStep(g: seq<seq<char>>, start: Cell, visited: seq<seq<bool>>, q: seq<Cell>, gold: int,
                  q': seq<Cell>, visited': seq<seq<bool>>, gold': int)
    requires Searching(g, start, visited, q, gold) && q != []
    requires !Seen(visited, q[0]) && !Holds(g, q[0], '#')
    requires q' == (if Safe(g, q[0]) then q[1..] + Children(q[0]) else q[1..])
    requires forall k :: |q| - 1 <= k < |q'| ==> Inside(g, q'[k]) && !Holds(g, q'[k], 'T')
    requires visited' == Visit(visited, q[0]) && gold' == gold + (if Holds(g, q[0], 'G') then 1 else 0)
    ensures Searching(g, start, visited', q', gold')
    ensures Unvisited(visited') < Unvisited(visited)
  {
    VisitKeeps(g, start, visited, gold, q[0]);
    VisitQueues(g, start, q, q[0], q');
    VisitCovers(g, start, visited, q, q[0], q');
  }

  /**
   * With the queue empty, the visited squares are exactly those reachable from start:
   * start was visited, and so was every non-wall neighbour of a visited safe square.
   */
  lemma Finished(g: seq<seq<char>>, start: Cell, visited: seq<seq<bool>>, gold: int)
    requires !Holds(g, start, '#') && Searching(g, start, visited, [], gold)
    ensures forall c :: Inside(g, c) ==> (Seen(visited, c) <==> Found(g, start, c))
  {
    forall c | Found(g, start, c)
      ensures Seen(visited, c)
    {
      var p: seq<Cell> :| Trail(g, p) && p[0] == start && p[|p| - 1] == c;
      var i := 0;
      while i < |p| - 1
        invariant 0 <= i < |p| && Seen(visited, p[i])
      {
        var k :| 0 <= k < 4 && p[i + 1] == Neighbour(p[i], k);
        assert Covered(g, visited, [], Neighbour(p[i], k));
        i := i + 1;
      }
    }
  }

  /**
   * bfs(map, start): the number of gold squares the player can reach safely from start.
   * The visited flags end set on exactly the reachable squares, and gold counts the gold
   * among them, each square once.
   */
  method Bfs(g: seq<seq<char>>, start: Cell) returns (gold: int, visited: seq<seq<bool>>)
    requires Walled(g) && Holds(g, start, 'P')
    ensures Shaped(g, visited)
    ensures forall c :: Inside(g, c) ==> (Seen(visited, c) <==> Found(g, start, c))
    ensures gold == GoldCount(g, visited)
  {
    visited := seq(|g|, i requires 0 <= i < |g| => seq(|g[i]|, _ => false));
    Begin(g, start, visited);
    var queue := [start];
    gold := 0;
    while queue != []
      invariant Searching(g, start, visited, queue, gold)
      decreases Unvisited(visited), |queue|
    {
      var cur := queue[0];
      ghost var q0 := queue;
      queue := queue[1..];
      if visited[cur.0][cur.1] || g[cur.0][cur.1] == '#' {
        SkipStep(g, start, visited, q0, gold);
        continue;
      } else if g[cur.0][cur.1] == 'G' {
        gold := gold + 1;
      }
      ghost var visited0 := visited;
      queue := AddChildren(g, queue, cur);
      visited := Visit(visited, cur);
      VisitStep(g, start, visited0, q0, gold - (if g[cur.0][cur.1] == 'G' then 1 else 0), queue, visited, gold);
    }
    Finished(g, start, visited, gold);
  }
}
