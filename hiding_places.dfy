/**
 * Hiding places: on an 8x8 chess board, a knight starts at a named square, and the hiding
 * places are the squares farthest from it in knight moves. BFS writes every square's
 * move distance into a grid; the scan in main then keeps the maximum distance and lists
 * the squares at that distance in row-major order, named back in chess notation.
 *
 * Rows of the grid run from the top: row 0 is rank 8 and row 7 rank 1; column 0 is file
 * 'a'. The grid is passed in and returned as a value.
 */
module HidingPlaces {
  import opened Graphs

  type Cell = (int, int)

  /** The row and column steps of the eight knight moves, horse_r and horse_c. */
  function HorseR(k: int): int
  {
    match k case 0 => -2 case 1 => -2 case 2 => -1 case 3 => 1 case 4 => 2 case 5 => 2 case 6 => 1 case _ => -1
  }
  function HorseC(k: int): int
  {
    match k case 0 => -1 case 1 => 1 case 2 => 2 case 3 => 2 case 4 => 1 case 5 => -1 case 6 => -2 case _ => -2
  }

  /** Every move is a knight's move: one step of 1 and one of 2, in either order. */
  lemma KnightMoves()
    ensures forall k :: 0 <= k < 8 ==>
      (Abs(HorseR(k)) == 1 && Abs(HorseC(k)) == 2) || (Abs(HorseR(k)) == 2 && Abs(HorseC(k)) == 1)
  {
  }

  function Abs(x: int): int
  {
    if x < 0 then -x else x
  }

  /** The square the k-th move leads to from c. */
  function Jump(c: Cell, k: int): Cell
    requires 0 <= k < 8
  {
    (c.0 + HorseR(k), c.1 + HorseC(k))
  }

  /** c is a square of the board. */
  predicate OnBoard(c: Cell)
  {
    0 <= c.0 < 8 && 0 <= c.1 < 8
  }

  /** m is an 8x8 matrix. */
  predicate Board<T>(m: seq<seq<T>>)
  {
    |m| == 8 && forall i :: 0 <= i < 8 ==> |m[i]| == 8
  }

  function At<T>(m: seq<seq<T>>, c: Cell): T
    requires Board(m) && OnBoard(c)
  {
    m[c.0][c.1]
  }

  /** The matrix m with square c set to x, and nothing else changed. */
  function Put<T>(m: seq<seq<T>>, c: Cell, x: T): (r: seq<seq<T>>)
    requires Board(m) && OnBoard(c)
    ensures Board(r) && At(r, c) == x
    ensures forall d {:trigger At(r, d)} :: OnBoard(d) && d != c ==> At(r, d) == At(m, d)
  {
    m[c.0 := m[c.0][c.1 := x]]
  }

  /** valid(vis, row, col): the square is on the board and not yet visited. */
  predicate Valid(vis: seq<seq<bool>>, row: int, col: int)
    requires Board(vis)
  {
    if row < 0 || col < 0 || row >= 8 || col >= 8 then false
    else !vis[row][col]
  }

  /** One knight move leads from a to b. */
  predicate Adjacent(a: Cell, b: Cell)
  {
    exists k :: 0 <= k < 8 && b == Jump(a, k)
  }

  /** A knight's walk: squares of the board, each one move from the one before. */
  predicate Jumps(p: seq<Cell>)
  {
    && |p| > 0
    && (forall i :: 0 <= i < |p| ==> OnBoard(p[i]))
    && (forall i :: 0 <= i < |p| - 1 ==> Adjacent(p[i], p[i + 1]))
  }

  /** The knight gets from start to c in exactly d moves. */
  ghost predicate Within(start: Cell, c: Cell, d: int)
  {
    exists p :: Jumps(p) && |p| == d + 1 && p[0] == start && p[|p| - 1] == c
  }

  /** The knight can get from start to c. */
  ghost predicate Reach(start: Cell, c: Cell)
  {
    exists p :: Jumps(p) && p[0] == start && p[|p| - 1] == c
  }

  /** d is the least number of moves from start to c. */
  ghost predicate Shortest(start: Cell, c: Cell, d: int)
  {
    && Within(start, c, d)
    && forall p :: Jumps(p) && p[0] == start && p[|p| - 1] == c ==> d <= |p| - 1
  }

  /** A walk of d moves to c extends by one move to any square a move away. */
  lemma WithinStep(start: Cell, c: Cell, d: int, k: int)
    requires Within(start, c, d) && 0 <= k < 8 && OnBoard(Jump(c, k))
    ensures Within(start, Jump(c, k), d + 1)
  {
    var p: seq<Cell> :| Jumps(p) && |p| == d + 1 && p[0] == start && p[|p| - 1] == c;
    var p' := p + [Jump(c, k)];
    assert forall i :: 0 <= i < |p| ==> p'[i] == p[i];
    assert Adjacent(p'[|p| - 1], p'[|p|]);
    assert Jumps(p');
  }

  /** No square is queued twice. */
  predicate Once(order: seq<Cell>)
  {
    forall i, j :: 0 <= i < j < |order| ==> order[i] != order[j]
  }

  /** The queued squares, each once, are exactly the marked ones. */
  ghost predicate Enqueued(visited: seq<seq<bool>>, order: seq<Cell>)
  {
    && Board(visited)
    && Once(order) && (forall i :: 0 <= i < |order| ==> OnBoard(order[i]))
    && (forall c :: OnBoard(c) ==> (At(visited, c) <==> c in order))
  }

  /**
   * The distances: start is marked and keeps its entry g0; each marked square c is reached
   * in grid[c] - g0 moves, and an unmarked one keeps its old entry.
   */
  ghost predicate Distances(start: Cell, grid0: seq<seq<int>>, visited: seq<seq<bool>>, grid: seq<seq<int>>)
  {
    && Board(grid0) && Board(visited) && Board(grid) && OnBoard(start)
    && At(visited, start) && At(grid, start) == At(grid0, start)
    && (forall c :: OnBoard(c) && At(visited, c) ==> Within(start, c, At(grid, c) - At(grid0, start)))
    && (forall c :: OnBoard(c) && !At(visited, c) ==> At(grid, c) == At(grid0, c))
  }

  /** The marks, the queued squares and the distances. */
  ghost predicate Reached(start: Cell, grid0: seq<seq<int>>, visited: seq<seq<bool>>, grid: seq<seq<int>>, order: seq<Cell>)
  {
    Enqueued(visited, order) && Distances(start, grid0, visited, grid)
  }

  /** Every move from an expanded square leads off the board, or to a marked square at most one further. */
  ghost predicate Settled(visited: seq<seq<bool>>, grid: seq<seq<int>>, done: set<Cell>)
    requires Board(visited) && Board(grid)
  {
    && (forall c :: c in done ==> OnBoard(c) && At(visited, c))
    && forall c, k :: c in done && 0 <= k < 8 && OnBoard(Jump(c, k)) ==>
         At(visited, Jump(c, k)) && At(grid, Jump(c, k)) <= At(grid, c) + 1
  }

  /** The queued squares are marked, in order of distance, at most one level apart from the nearest. */
  ghost predicate Levels(visited: seq<seq<bool>>, grid: seq<seq<int>>, q: seq<Cell>, low: int)
    requires Board(visited) && Board(grid)
  {
    && (forall i :: 0 <= i < |q| ==> OnBoard(q[i]) && At(visited, q[i]) && low <= At(grid, q[i]) <= low + 1)
    && (forall i, j :: 0 <= i < j < |q| ==> At(grid, q[i]) <= At(grid, q[j]))
    && (forall c :: OnBoard(c) && At(visited, c) ==> At(grid, c) <= low + 1)
  }

  /** The state of BFS's outer loop. */
  ghost predicate Searching(start: Cell, grid0: seq<seq<int>>, visited: seq<seq<bool>>, grid: seq<seq<int>>,
                            order: seq<Cell>, q: seq<Cell>, done: set<Cell>)
  {
    && Reached(start, grid0, visited, grid, order)
    && Settled(visited, grid, done)
    && (forall i :: 0 <= i < |q| ==> OnBoard(q[i]) && At(visited, q[i]))
    && (q != [] ==> Levels(visited, grid, q, At(grid, q[0])))
    && (forall c :: OnBoard(c) && At(visited, c) ==> c in done || c in q)
  }

  /** The state of the loop over cur's eight moves: the first i of them are dealt with. */
  ghost predicate Expanding(start: Cell, grid0: seq<seq<int>>, visited: seq<seq<bool>>, grid: seq<seq<int>>,
                            order: seq<Cell>, q: seq<Cell>, done: set<Cell>, cur: Cell, i: int)
  {
    && Reached(start, grid0, visited, grid, order)
    && Settled(visited, grid, done)
    && OnBoard(cur) && At(visited, cur) && 0 <= i <= 8
    && Levels(visited, grid, q, At(grid, cur))
    && (forall c :: OnBoard(c) && At(visited, c) ==> c in done || c in q || c == cur)
    && forall k :: 0 <= k < i && OnBoard(Jump(cur, k)) ==>
         At(visited, Jump(cur, k)) && At(grid, Jump(cur, k)) <= At(grid, cur) + 1
  }

  /** The search begins with start alone marked and queued. */
  lemma Begin(start: Cell, grid0: seq<seq<int>>, visited: seq<seq<bool>>)
    requires Board(grid0) && Board(visited) && OnBoard(start)
    requires forall c :: OnBoard(c) ==> !At(visited, c)
    ensures Searching(start, grid0, Put(visited, start, true), grid0, [start], [start], {})
  {
    assert Jumps([start]);
  }

  /** Popping cur, the nearest queued square, begins its expansion. */
  lemma Pop(start: Cell, grid0: seq<seq<int>>, visited: seq<seq<bool>>, grid: seq<seq<int>>,
            order: seq<Cell>, q: seq<Cell>, done: set<Cell>)
    requires Searching(start, grid0, visited, grid, order, q, done) && q != []
    ensures Expanding(start, grid0, visited, grid, order, q[1..], done, q[0], 0)
  {
    forall c | OnBoard(c) && At(visited, c)
      ensures c in done || c in q[1..] || c == q[0]
    {
      if c in q && c != q[0] {
        var i :| 0 <= i < |q| && q[i] == c;
        assert q[1..][i - 1] == c;
      }
    }
  }

  /** Marking n, a square one move from cur, and setting its distance one above cur's keeps the distances. */
  lemma DiscoverReached(start: Cell, grid0: seq<seq<int>>, visited: seq<seq<bool>>, grid: seq<seq<int>>,
                        order: seq<Cell>, cur: Cell, k: int,
                        visited': seq<seq<bool>>, grid': seq<seq<int>>, order': seq<Cell>)
    requires Reached(start, grid0, visited, grid, order) && OnBoard(cur) && At(visited, cur) && 0 <= k < 8
    requires OnBoard(Jump(cur, k)) && !At(visited, Jump(cur, k))
    requires visited' == Put(visited, Jump(cur, k), true) && grid' == Put(grid, Jump(cur, k), At(grid, cur) + 1)
    requires order' == order + [Jump(cur, k)]
    ensures Reached(start, grid0, visited', grid', order')
    ensures Unvisited(visited') == Unvisited(visited) - 1
  {
    var n := Jump(cur, k);
    QueuedOnce(visited, order, n, visited', order');
    MarkOne(visited, n, visited');
    DiscoverDistances(start, grid0, visited, grid, cur, k, visited', grid');
  }

  /** The distances part of the same step. */
  lemma DiscoverDistances(start: Cell, grid0: seq<seq<int>>, visited: seq<seq<bool>>, grid: seq<seq<int>>,
                          cur: Cell, k: int, visited': seq<seq<bool>>, grid': seq<seq<int>>)
    requires Distances(start, grid0, visited, grid) && OnBoard(cur) && At(visited, cur) && 0 <= k < 8
    requires OnBoard(Jump(cur, k)) && !At(visited, Jump(cur, k))
    requires visited' == Put(visited, Jump(cur, k), true) && grid' == Put(grid, Jump(cur, k), At(grid, cur) + 1)
    ensures Distances(start, grid0, visited', grid')
  {
    var n := Jump(cur, k);
    var g0 := At(grid0, start);
    WithinStep(start, cur, At(grid, cur) - g0, k);
    WithinKept(start, g0, visited, grid, n, At(grid, cur) + 1, visited', grid');
    Unassigned(grid0, visited, grid, n, At(grid, cur) + 1, visited', grid');
    assert start != n;
  }

  /** Marking one unmarked square leaves one fewer unmarked. */
  lemma MarkOne(visited: seq<seq<bool>>, n: Cell, visited': seq<seq<bool>>)
    requires Board(visited) && OnBoard(n) && !At(visited, n) && visited' == Put(visited, n, true)
    ensures Unvisited(visited') == Unvisited(visited) - 1
  {
    UnvisitedMark(visited, n.0, n.1);
  }

  /** Marking n and setting its distance leaves every unmarked square's entry as it was. */
  lemma Unassigned(grid0: seq<seq<int>>, visited: seq<seq<bool>>, grid: seq<seq<int>>, n: Cell, d: int,
                   visited': seq<seq<bool>>, grid': seq<seq<int>>)
    requires Board(grid0) && Board(visited) && Board(grid) && OnBoard(n)
    requires forall c :: OnBoard(c) && !At(visited, c) ==> At(grid, c) == At(grid0, c)
    requires visited' == Put(visited, n, true) && grid' == Put(grid, n, d)
    ensures forall c :: OnBoard(c) && !At(visited', c) ==> At(grid', c) == At(grid0, c)
  {
    forall c | OnBoard(c) && !At(visited', c)
      ensures At(grid', c) == At(grid0, c)
    {
      assert c != n && !At(visited, c);
    }
  }

  /** Marking n with a distance it is reached in keeps every marked square reached in its distance. */
  lemma WithinKept(start: Cell, g0: int, visited: seq<seq<bool>>, grid: seq<seq<int>>, n: Cell, d: int,
                   visited': seq<seq<bool>>, grid': seq<seq<int>>)
    requires Board(visited) && Board(grid) && OnBoard(n) && Within(start, n, d - g0)
    requires forall c :: OnBoard(c) && At(visited, c) ==> Within(start, c, At(grid, c) - g0)
    requires visited' == Put(visited, n, true) && grid' == Put(grid, n, d)
    ensures forall c :: OnBoard(c) && At(visited', c) ==> Within(start, c, At(grid', c) - g0)
  {
    forall c | OnBoard(c) && At(visited', c)
      ensures Within(start, c, At(grid', c) - g0)
    {
      if c != n {
        assert At(visited, c) && At(grid', c) == At(grid, c);
      }
    }
  }

  /** Queueing an unmarked square keeps every square queued at most once. */
  lemma QueuedOnce(visited: seq<seq<bool>>, order: seq<Cell>, n: Cell, visited': seq<seq<bool>>, order': seq<Cell>)
    requires Enqueued(visited, order) && OnBoard(n) && !At(visited, n)
    requires visited' == Put(visited, n, true) && order' == order + [n]
    ensures Enqueued(visited', order')
  {
    assert forall i :: 0 <= i < |order| ==> order'[i] == order[i];
    assert n !in order;
  }

  /** The same step keeps the queue in order of distance, and the expanded squares settled. */
  lemma DiscoverLevels(visited: seq<seq<bool>>, grid: seq<seq<int>>, q: seq<Cell>, done: set<Cell>, cur: Cell, k: int,
                       visited': seq<seq<bool>>, grid': seq<seq<int>>, q': seq<Cell>)
    requires Board(visited) && Board(grid) && OnBoard(cur)
    requires Levels(visited, grid, q, At(grid, cur)) && Settled(visited, grid, done)
    requires At(visited, cur) && 0 <= k < 8 && OnBoard(Jump(cur, k)) && !At(visited, Jump(cur, k))
    requires visited' == Put(visited, Jump(cur, k), true) && grid' == Put(grid, Jump(cur, k), At(grid, cur) + 1)
    requires q' == q + [Jump(cur, k)]
    ensures Levels(visited', grid', q', At(grid', cur)) && Settled(visited', grid', done)
  {
    var n := Jump(cur, k);
    assert forall i :: 0 <= i < |q| ==> q'[i] == q[i];
    forall c | c in done
      ensures OnBoard(c) && At(visited', c) && At(grid', c) == At(grid, c)
    {
      assert OnBoard(c) && At(visited, c) && c != n;
    }
    forall c, j | c in done && 0 <= j < 8 && OnBoard(Jump(c, j))
      ensures At(visited', Jump(c, j)) && At(grid', Jump(c, j)) <= At(grid', c) + 1
    {
      assert At(visited, Jump(c, j)) && Jump(c, j) != n;
    }
  }

  /** Marking, queueing and setting the distance of cur's k-th move, an unmarked square. */
  lemma Discover(start: Cell, grid0: seq<seq<int>>, visited: seq<seq<bool>>, grid: seq<seq<int>>,
                 order: seq<Cell>, q: seq<Cell>, done: set<Cell>, cur: Cell, k: int, row: int, col: int,
                 visited': seq<seq<bool>>, grid': seq<seq<int>>, order': seq<Cell>, q': seq<Cell>)
    requires Expanding(start, grid0, visited, grid, order, q, done, cur, k) && k < 8
    requires row == cur.0 + HorseR(k) && col == cur.1 + HorseC(k) && Valid(visited, row, col)
    requires visited' == Put(visited, (row, col), true) && grid' == Put(grid, (row, col), At(grid, cur) + 1)
    requires order' == order + [(row, col)] && q' == q + [(row, col)]
    ensures Expanding(start, grid0, visited', grid', order', q', done, cur, k + 1)
    ensures Unvisited(visited') == Unvisited(visited) - 1
  {
    var n := Jump(cur, k);
    DiscoverReached(start, grid0, visited, grid, order, cur, k, visited', grid', order');
    DiscoverLevels(visited, grid, q, done, cur, k, visited', grid', q');
    assert cur != n && At(grid', cur) == At(grid, cur);
    forall c | OnBoard(c) && At(visited', c)
      ensures c in done || c in q' || c == cur
    {
      if c == n {
        assert q'[|q|] == n;
      } else {
        assert At(visited, c);
      }
    }
    forall j | 0 <= j < k + 1 && OnBoard(Jump(cur, j))
      ensures At(visited', Jump(cur, j)) && At(grid', Jump(cur, j)) <= At(grid', cur) + 1
    {
      if j < k {
        assert At(visited, Jump(cur, j)) && Jump(cur, j) != n;
      } else {
        assert j == k;
      }
    }
  }

  /** Passing over a move that leads off the board or to a marked square. */
  lemma Pass(start: Cell, grid0: seq<seq<int>>, visited: seq<seq<bool>>, grid: seq<seq<int>>,
             order: seq<Cell>, q: seq<Cell>, done: set<Cell>, cur: Cell, k: int, row: int, col: int)
    requires Expanding(start, grid0, visited, grid, order, q, done, cur, k) && k < 8
    requires row == cur.0 + HorseR(k) && col == cur.1 + HorseC(k) && !Valid(visited, row, col)
    ensures Expanding(start, grid0, visited, grid, order, q, done, cur, k + 1)
  {
  }

  /** Once all eight moves of cur are dealt with, cur is expanded. */
  lemma Expanded(start: Cell, grid0: seq<seq<int>>, visited: seq<seq<bool>>, grid: seq<seq<int>>,
                 order: seq<Cell>, q: seq<Cell>, done: set<Cell>, cur: Cell)
    requires Expanding(start, grid0, visited, grid, order, q, done, cur, 8)
    ensures Searching(start, grid0, visited, grid, order, q, done + {cur})
  {
    if q != [] {
      assert Levels(visited, grid, q, At(grid, q[0]));
    }
    forall k | 0 <= k < 8 && OnBoard(Jump(cur, k))
      ensures At(visited, Jump(cur, k)) && At(grid, Jump(cur, k)) <= At(grid, cur) + 1
    {
    }
  }

  /**
   * With the queue empty, every walk from start ends at a marked square, whose distance is
   * at most the walk's number of moves.
   */
  lemma Finished(start: Cell, grid0: seq<seq<int>>, visited: seq<seq<bool>>, grid: seq<seq<int>>,
                 order: seq<Cell>, done: set<Cell>, p: seq<Cell>)
    requires Searching(start, grid0, visited, grid, order, [], done)
    requires Jumps(p) && p[0] == start
    ensures At(visited, p[|p| - 1]) && At(grid, p[|p| - 1]) - At(grid0, start) <= |p| - 1
  {
    var i := 0;
    while i < |p| - 1
      invariant 0 <= i < |p| && At(visited, p[i]) && At(grid, p[i]) - At(grid0, start) <= i
    {
      assert Adjacent(p[i], p[i + 1]);
      var k :| 0 <= k < 8 && p[i + 1] == Jump(p[i], k);
      assert p[i] in done;
      i := i + 1;
    }
  }

  /**
   * With the queue empty, the marked squares are exactly the reachable ones, each with its
   * least move count, and the queued squares are the marked ones.
   */
  lemma Concluded(start: Cell, grid0: seq<seq<int>>, visited: seq<seq<bool>>, grid: seq<seq<int>>,
                  order: seq<Cell>, done: set<Cell>)
    requires Searching(start, grid0, visited, grid, order, [], done)
    ensures Board(grid) && At(grid, start) == At(grid0, start)
    ensures forall c :: OnBoard(c) && Reach(start, c) ==> Shortest(start, c, At(grid, c) - At(grid0, start))
    ensures forall c :: OnBoard(c) && !Reach(start, c) ==> At(grid, c) == At(grid0, c)
    ensures Once(order) && forall c :: c in order <==> OnBoard(c) && Reach(start, c)
  {
    forall c | OnBoard(c) && Reach(start, c)
      ensures At(visited, c) && Shortest(start, c, At(grid, c) - At(grid0, start))
    {
      var p: seq<Cell> :| Jumps(p) && p[0] == start && p[|p| - 1] == c;
      Finished(start, grid0, visited, grid, order, done, p);
      forall p' | Jumps(p') && p'[0] == start && p'[|p'| - 1] == c
        ensures At(grid, c) - At(grid0, start) <= |p'| - 1
      {
        Finished(start, grid0, visited, grid, order, done, p');
      }
    }
    forall c | OnBoard(c) && At(visited, c)
      ensures Reach(start, c)
    {
      var d := At(grid, c) - At(grid0, start);
      assert Within(start, c, d);
    }
  }

  /**
   * BFS(grid, startRow, startCol): every square the knight can reach gets its least move
   * count from the start added to the start's entry, which itself is kept; squares it cannot
   * reach keep their entries. `order` lists the queued squares: each reachable square is
   * queued, marked and assigned exactly once.
   */
  method Bfs(grid: seq<seq<int>>, start: Cell) returns (grid': seq<seq<int>>, ghost order: seq<Cell>)
    requires Board(grid) && OnBoard(start)
    ensures Board(grid') && At(grid', start) == At(grid, start)
    ensures forall c :: OnBoard(c) && Reach(start, c) ==> Shortest(start, c, At(grid', c) - At(grid, start))
    ensures forall c :: OnBoard(c) && !Reach(start, c) ==> At(grid', c) == At(grid, c)
    ensures Once(order) && forall c :: c in order <==> OnBoard(c) && Reach(start, c)
  {
    var visited := seq(8, _ => seq(8, _ => false));
    Begin(start, grid, visited);
    var q := [start];
    visited := Put(visited, start, true);
    grid' := grid;
    order := [start];
    ghost var done: set<Cell> := {};
    while q != []
      invariant Searching(start, grid, visited, grid', order, q, done)
      decreases Unvisited(visited), |q|
    {
      var cell := q[0];
      var row, col := cell.0, cell.1;
      Pop(start, grid, visited, grid', order, q, done);
      q := q[1..];
      ghost var u0, n0 := Unvisited(visited), |q|;
      for i := 0 to 8
        invariant Expanding(start, grid, visited, grid', order, q, done, cell, i)
        invariant Unvisited(visited) <= u0 && Unvisited(visited) + |q| == u0 + n0
      {
        var newrow := row + HorseR(i);
        var newcol := col + HorseC(i);
        if Valid(visited, newrow, newcol) {
          ghost var visited0, grid0, order0, q0 := visited, grid', order, q;
          q := q + [(newrow, newcol)];
          visited := Put(visited, (newrow, newcol), true);
          grid' := Put(grid', (newrow, newcol), At(grid', cell) + 1);
          order := order + [(newrow, newcol)];
          Discover(start, grid, visited0, grid0, order0, q0, done, cell, i, newrow, newcol, visited, grid', order, q);
        } else {
          Pass(start, grid, visited, grid', order, q, done, cell, i, newrow, newcol);
        }
      }
      Expanded(start, grid, visited, grid', order, q, done, cell);
      done := done + {cell};
    }
    Concluded(start, grid, visited, grid', order, done);
  }

  /** The first n squares of the board in row-major order. */
  function Cells(n: nat): seq<Cell>
    requires n <= 64
  {
    seq(n, k => (k / 8, k % 8))
  }

  /** The position of a square in row-major order. */
  function Index(c: Cell): int
  {
    c.0 * 8 + c.1
  }

  /** The next square in row-major order is (i, j). */
  lemma CellsStep(i: int, j: int)
    requires 0 <= i < 8 && 0 <= j < 8
    ensures Cells(i * 8 + j + 1) == Cells(i * 8 + j) + [(i, j)]
  {
    assert (i * 8 + j) / 8 == i && (i * 8 + j) % 8 == j;
  }

  /** Every one of the first n squares is on the board, in increasing row-major order. */
  lemma CellsOrdered(n: nat)
    requires n <= 64
    ensures forall k :: 0 <= k < n ==> OnBoard(Cells(n)[k]) && Index(Cells(n)[k]) == k
  {
  }

  /** Squares of the board. */
  predicate AllOnBoard(cs: seq<Cell>)
  {
    forall k :: 0 <= k < |cs| ==> OnBoard(cs[k])
  }

  /** The largest entry of grid among the squares cs, or 0 when that is larger: maxDist after scanning cs. */
  function Top(grid: seq<seq<int>>, cs: seq<Cell>): int
    requires Board(grid) && AllOnBoard(cs)
  {
    if cs == [] then 0
    else
      var m := Top(grid, cs[..|cs| - 1]);
      if At(grid, cs[|cs| - 1]) > m then At(grid, cs[|cs| - 1]) else m
  }

  /** The squares of cs whose entry is m, in the order of cs. */
  function Level(grid: seq<seq<int>>, cs: seq<Cell>, m: int): seq<Cell>
    requires Board(grid) && AllOnBoard(cs)
  {
    if cs == [] then []
    else Level(grid, cs[..|cs| - 1], m) + (if At(grid, cs[|cs| - 1]) == m then [cs[|cs| - 1]] else [])
  }

  /** Top bounds every entry among cs, is at least 0, and is attained unless it is 0. */
  lemma {:induction false} TopBound(grid: seq<seq<int>>, cs: seq<Cell>)
    requires Board(grid) && AllOnBoard(cs)
    ensures Top(grid, cs) >= 0
    ensures forall k :: 0 <= k < |cs| ==> At(grid, cs[k]) <= Top(grid, cs)
    ensures Top(grid, cs) == 0 || exists k :: 0 <= k < |cs| && At(grid, cs[k]) == Top(grid, cs)
  {
    if cs != [] {
      var cs' := cs[..|cs| - 1];
      TopBound(grid, cs');
      assert forall k :: 0 <= k < |cs'| ==> cs'[k] == cs[k];
    }
  }

  /** Level holds exactly the squares of cs with entry m. */
  lemma {:induction false} LevelMembers(grid: seq<seq<int>>, cs: seq<Cell>, m: int)
    requires Board(grid) && AllOnBoard(cs)
    ensures forall c :: c in Level(grid, cs, m) <==> c in cs && At(grid, c) == m
  {
    if cs != [] {
      var cs' := cs[..|cs| - 1];
      LevelMembers(grid, cs', m);
      assert cs == cs' + [cs[|cs| - 1]];
    }
  }

  /** Level over the first n squares lists them in increasing row-major order. */
  lemma {:induction false} LevelOrdered(grid: seq<seq<int>>, n: nat, m: int)
    requires Board(grid) && n <= 64
    ensures AllOnBoard(Cells(n))
    ensures forall a, b :: 0 <= a < b < |Level(grid, Cells(n), m)| ==>
      Index(Level(grid, Cells(n), m)[a]) < Index(Level(grid, Cells(n), m)[b])
    ensures forall a :: 0 <= a < |Level(grid, Cells(n), m)| ==> 0 <= Index(Level(grid, Cells(n), m)[a]) < n
  {
    CellsOrdered(n);
    if n > 0 {
      LevelOrdered(grid, n - 1, m);
      assert Cells(n)[..n - 1] == Cells(n - 1);
    }
  }

  /** No square of cs has an entry above Top, so none is at a level above it. */
  lemma LevelAbove(grid: seq<seq<int>>, cs: seq<Cell>, m: int)
    requires Board(grid) && AllOnBoard(cs) && m > Top(grid, cs)
    ensures Level(grid, cs, m) == []
  {
    TopBound(grid, cs);
    LevelMembers(grid, cs, m);
    if Level(grid, cs, m) != [] {
      assert Level(grid, cs, m)[0] in Level(grid, cs, m);
    }
  }

  /**
   * The scan in main: maxDist is the largest entry of the grid, or 0, and hidingPlaces
   * holds the squares with that entry in row-major order. An entry above maxDist clears
   * the list; an equal one is appended.
   */
  method Scan(grid: seq<seq<int>>) returns (maxDist: int, places: seq<Cell>)
    requires Board(grid)
    ensures AllOnBoard(Cells(64))
    ensures maxDist == Top(grid, Cells(64)) && places == Level(grid, Cells(64), maxDist)
  {
    CellsOrdered(64);
    places := [];
    maxDist := 0;
    for i := 0 to 8
      invariant AllOnBoard(Cells(i * 8))
      invariant maxDist == Top(grid, Cells(i * 8)) && places == Level(grid, Cells(i * 8), maxDist)
    {
      for j := 0 to 8
        invariant AllOnBoard(Cells(i * 8 + j))
        invariant maxDist == Top(grid, Cells(i * 8 + j)) && places == Level(grid, Cells(i * 8 + j), maxDist)
      {
        ghost var cs := Cells(i * 8 + j);
        CellsStep(i, j);
        CellsOrdered(i * 8 + j + 1);
        assert (cs + [(i, j)])[..|cs|] == cs;
        if grid[i][j] > maxDist {
          LevelAbove(grid, cs, grid[i][j]);
          places := [];
          maxDist := grid[i][j];
          places := places + [(i, j)];
        } else if grid[i][j] == maxDist {
          places := places + [(i, j)];
        }
      }
    }
  }

  /** rowmap: from a rank digit to a row; entry 0 is unused. */
  const RowMap: seq<int> := [-1, 7, 6, 5, 4, 3, 2, 1, 0]

  /** colmap: from a file letter to a column. */
  const ColMap: map<char, int> := map['a' := 0, 'b' := 1, 'c' := 2, 'd' := 3, 'e' := 4, 'f' := 5, 'g' := 6, 'h' := 7]

  /** rowmap2 and colmap2: from a row to its rank, and from a column to its file letter. */
  const RowMap2: seq<int> := [8, 7, 6, 5, 4, 3, 2, 1]
  const ColMap2: seq<char> := ['a', 'b', 'c', 'd', 'e', 'f', 'g', 'h']

  /** colmap[ch]: a letter that is not a file is added to the map with column 0. */
  function Column(ch: char): (col: int)
    ensures 0 <= col < 8
  {
    if ch in ColMap then
      assert ch == 'a' || ch == 'b' || ch == 'c' || ch == 'd' || ch == 'e' || ch == 'f' || ch == 'g' || ch == 'h';
      ColMap[ch]
    else 0
  }

  /** The square a two-character name such as "e4" stands for. */
  function Parse(name: seq<char>): Cell
    requires |name| >= 2 && '0' <= name[1] <= '8'
  {
    (RowMap[name[1] as int - '0' as int], Column(name[0]))
  }

  /** The printed name of a square: its file letter and its rank digit. */
  function Name(c: Cell): seq<char>
    requires OnBoard(c)
  {
    [ColMap2[c.1], ('0' as int + RowMap2[c.0]) as char]
  }

  /** Naming a square and parsing the name gives the square back. */
  lemma ParseName(c: Cell)
    requires OnBoard(c)
    ensures Parse(Name(c)) == c
  {
    var j := c.1;
    assert ColMap2[j] in ColMap && ColMap[ColMap2[j]] == j by {
      assert j == 0 || j == 1 || j == 2 || j == 3 || j == 4 || j == 5 || j == 6 || j == 7;
    }
  }

  /** Parsing a well-formed name and naming the square gives the name back. */
  lemma NameParse(name: seq<char>)
    requires |name| == 2 && 'a' <= name[0] <= 'h' && '1' <= name[1] <= '8'
    ensures OnBoard(Parse(name)) && Name(Parse(name)) == name
  {
    assert name[0] in ColMap && ColMap2[ColMap[name[0]]] == name[0] by {
      var ch := name[0];
      assert ch == 'a' || ch == 'b' || ch == 'c' || ch == 'd' || ch == 'e' || ch == 'f' || ch == 'g' || ch == 'h';
    }
    var d := name[1] as int - '0' as int;
    assert 1 <= d <= 8 && RowMap2[RowMap[d]] == d by {
      assert d == 1 || d == 2 || d == 3 || d == 4 || d == 5 || d == 6 || d == 7 || d == 8;
    }
  }

  /**
   * What the scan finds: maxDist bounds every entry and is attained when some entry is at
   * least 0, and places lists, in row-major order, exactly the squares at maxDist.
   */
  lemma Farthest(grid: seq<seq<int>>, start: Cell, maxDist: int, places: seq<Cell>)
    requires Board(grid) && OnBoard(start) && At(grid, start) >= 0
    requires AllOnBoard(Cells(64)) && maxDist == Top(grid, Cells(64)) && places == Level(grid, Cells(64), maxDist)
    ensures forall c :: OnBoard(c) ==> At(grid, c) <= maxDist
    ensures exists c :: OnBoard(c) && At(grid, c) == maxDist
    ensures forall c :: c in places <==> OnBoard(c) && At(grid, c) == maxDist
    ensures forall a, b :: 0 <= a < b < |places| ==> Index(places[a]) < Index(places[b])
    ensures AllOnBoard(places)
  {
    TopBound(grid, Cells(64));
    LevelMembers(grid, Cells(64), maxDist);
    LevelOrdered(grid, 64, maxDist);
    CellsOrdered(64);
    forall c | OnBoard(c)
      ensures c in Cells(64)
    {
      assert Cells(64)[Index(c)] == c;
    }
    assert start in Cells(64);
  }

  /**
   * One test case of main: the knight starts on the square named by input, every square's
   * entry starts at 0, BFS fills in the distances, and the scan finds the farthest
   * distance and the squares at it, which are then named. Every square the knight can
   * reach gets its least move count, the start 0, and maxDist is the largest of them.
   */
  method Query(input: seq<char>) returns (maxDist: int, names: seq<seq<char>>, grid: seq<seq<int>>, places: seq<Cell>)
    requires |input| >= 2 && '1' <= input[1] <= '8'
    ensures OnBoard(Parse(input)) && Board(grid) && At(grid, Parse(input)) == 0
    ensures forall c :: OnBoard(c) && Reach(Parse(input), c) ==> Shortest(Parse(input), c, At(grid, c))
    ensures forall c :: OnBoard(c) && !Reach(Parse(input), c) ==> At(grid, c) == 0
    ensures forall c :: OnBoard(c) ==> At(grid, c) <= maxDist
    ensures exists c :: OnBoard(c) && At(grid, c) == maxDist
    ensures forall c :: c in places <==> OnBoard(c) && At(grid, c) == maxDist
    ensures forall a, b :: 0 <= a < b < |places| ==> Index(places[a]) < Index(places[b])
    ensures AllOnBoard(places) && names == Names(places)
  {
    var col := Column(input[0]);
    var row := RowMap[input[1] as int - '0' as int];
    assert 0 <= row < 8 by {
      var d := input[1] as int - '0' as int;
      assert d == 1 || d == 2 || d == 3 || d == 4 || d == 5 || d == 6 || d == 7 || d == 8;
    }
    var zero := seq(8, _ => seq(8, _ => 0));
    assert Board(zero) && forall c :: OnBoard(c) ==> At(zero, c) == 0;
    assert Parse(input) == (row, col) && At(zero, (row, col)) == 0;
    ghost var order;
    grid, order := Bfs(zero, (row, col));
    maxDist, places := Scan(grid);
    Farthest(grid, (row, col), maxDist, places);
    names := Names(places);
  }

  /** The printed names of the squares ps, in order. */
  function Names(ps: seq<Cell>): (names: seq<seq<char>>)
    requires AllOnBoard(ps)
  {
    seq(|ps|, k requires 0 <= k < |ps| => Name(ps[k]))
  }
}
