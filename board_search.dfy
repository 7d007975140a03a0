/**
 * Facts about the breadth-first search nearestBoardEmpty runs over the board: cells,
 * their four neighbours in the order the search tries them, the Manhattan distance the
 * search order follows, and how many distinct cells a grid can hold.
 */
module BoardSearch {
  import opened Letters
  import opened Scoring

  /** A board cell as (row, column). */
  type Cell = (int, int)

  predicate InGrid(c: Cell, rows: int, columns: int) {
    0 <= c.0 < rows && 0 <= c.1 < columns
  }

  /** The neighbours in the search's order: dr = [1, 0, -1, 0], dc = [0, 1, 0, -1]. */
  function Neighbours(c: Cell): (n: seq<Cell>)
    ensures |n| == 4
  {
    [(c.0 + 1, c.1), (c.0, c.1 + 1), (c.0 - 1, c.1), (c.0, c.1 - 1)]
  }

  /** Neighbour k is the cell offset by dr[k] rows and dc[k] columns. */
  lemma NeighbourOffsets(c: Cell, k: int)
    requires 0 <= k < 4
    ensures Neighbours(c)[k] == (c.0 + [1, 0, -1, 0][k], c.1 + [0, 1, 0, -1][k])
  {
  }

  function Abs(x: int): nat {
    if x >= 0 then x else -x
  }

  /** Steps between two cells when moving one row or column at a time. */
  function Dist(a: Cell, b: Cell): nat {
    Abs(a.0 - b.0) + Abs(a.1 - b.1)
  }

  predicate Distinct<T(==)>(s: seq<T>) {
    forall i, j :: 0 <= i < j < |s| ==> s[i] != s[j]
  }

  /** Every neighbour is one step nearer to, or one step further from, any cell t. */
  lemma NeighbourDist(c: Cell, i: int, t: Cell)
    requires 0 <= i < 4
    ensures Dist(Neighbours(c)[i], t) == Dist(c, t) + 1 || Dist(Neighbours(c)[i], t) + 1 == Dist(c, t)
  {
  }

  /** A cell other than t has a neighbour on the grid that is one step nearer to t. */
  lemma StepToward(c: Cell, t: Cell, rows: int, columns: int) returns (i: int)
    requires InGrid(c, rows, columns) && InGrid(t, rows, columns) && c != t
    ensures 0 <= i < 4 && InGrid(Neighbours(c)[i], rows, columns)
    ensures Dist(Neighbours(c)[i], t) + 1 == Dist(c, t)
  {
    if c.0 < t.0 {
      i := 0;
    } else if c.1 < t.1 {
      i := 1;
    } else if c.0 > t.0 {
      i := 2;
    } else {
      i := 3;
    }
  }

  /**
   * The search's reach. Suppose the first p cells of `order` have had all their grid
   * neighbours added to `order`, t is in `order`, and every cell from index p on is at
   * least D steps from t. Then every grid cell within D steps of t is in `order`, and
   * every grid cell nearer than D is among the first p.
   */
  lemma {:induction false} Reached(order: seq<Cell>, p: nat, t: Cell, rows: int, columns: int, D: int, c: Cell)
    requires p <= |order| && t in order
    requires forall i, k :: 0 <= i < p && 0 <= k < 4 && InGrid(Neighbours(order[i])[k], rows, columns) ==>
      Neighbours(order[i])[k] in order
    requires forall i :: p <= i < |order| ==> Dist(order[i], t) >= D
    requires InGrid(c, rows, columns) && InGrid(t, rows, columns) && Dist(c, t) <= D
    ensures c in order
    ensures Dist(c, t) < D ==> c in order[..p]
    decreases Dist(c, t)
  {
    if c != t {
      var k := StepToward(c, t, rows, columns);
      var n := Neighbours(c)[k];
      Reached(order, p, t, rows, columns, D, n);
      var i :| 0 <= i < p && order[i] == n;
      var back := (k + 2) % 4;
      assert Neighbours(order[i])[back] == c;
    }
    if Dist(c, t) < D {
      var j :| 0 <= j < |order| && order[j] == c;
      assert j < p;
      assert order[..p][j] == c;
    }
  }

  /** A set of grid cells that holds t and every grid neighbour of its members is the whole grid. */
  lemma ClosedCoversGrid(order: seq<Cell>, t: Cell, rows: int, columns: int)
    requires t in order && InGrid(t, rows, columns)
    requires forall i, k :: 0 <= i < |order| && 0 <= k < 4 && InGrid(Neighbours(order[i])[k], rows, columns) ==>
      Neighbours(order[i])[k] in order
    ensures forall c :: InGrid(c, rows, columns) ==> c in order
  {
    forall c | InGrid(c, rows, columns) ensures c in order {
      Reached(order, |order|, t, rows, columns, Dist(c, t), c);
    }
  }

  // ---------------------------------------------------------------------------
  // Counting cells

  function RowCells(r: int, columns: nat): set<Cell> {
    if columns == 0 then {} else RowCells(r, columns - 1) + {(r, columns - 1)}
  }

  function GridCells(rows: nat, columns: nat): set<Cell> {
    if rows == 0 then {} else GridCells(rows - 1, columns) + RowCells(rows - 1, columns)
  }

  lemma {:induction false} RowCellsMembers(r: int, columns: nat)
    ensures forall c :: c in RowCells(r, columns) <==> c.0 == r && 0 <= c.1 < columns
  {
    if columns > 0 {
      RowCellsMembers(r, columns - 1);
    }
  }

  lemma {:induction false} RowCellsCard(r: int, columns: nat)
    ensures |RowCells(r, columns)| == columns
  {
    if columns > 0 {
      RowCellsCard(r, columns - 1);
      RowCellsMembers(r, columns - 1);
      assert (r, columns - 1) !in RowCells(r, columns - 1);
    }
  }

  lemma {:induction false} GridCellsMembers(rows: nat, columns: nat)
    ensures forall c :: c in GridCells(rows, columns) <==> InGrid(c, rows, columns)
  {
    if rows > 0 {
      GridCellsMembers(rows - 1, columns);
      RowCellsMembers(rows - 1, columns);
    }
  }

  lemma {:induction false} GridCellsCard(rows: nat, columns: nat)
    ensures |GridCells(rows, columns)| == rows * columns
  {
    if rows > 0 {
      var upper, last := GridCells(rows - 1, columns), RowCells(rows - 1, columns);
      assert upper !! last by {
        GridCellsMembers(rows - 1, columns);
        RowCellsMembers(rows - 1, columns);
      }
      calc {
        |GridCells(rows, columns)|;
        |upper + last|;
        { DisjointUnionCard(upper, last); }
        |upper| + |last|;
        { GridCellsCard(rows - 1, columns); RowCellsCard(rows - 1, columns); }
        (rows - 1) * columns + columns;
        { Distribute(rows, columns); }
        rows * columns;
      }
    }
  }

  lemma GridCellsSpec(rows: nat, columns: nat)
    ensures forall c :: c in GridCells(rows, columns) <==> InGrid(c, rows, columns)
    ensures |GridCells(rows, columns)| == rows * columns
  {
    GridCellsMembers(rows, columns);
    GridCellsCard(rows, columns);
  }

  lemma DisjointUnionCard<T>(a: set<T>, b: set<T>)
    requires a !! b
    ensures |a + b| == |a| + |b|
  {
  }

  lemma Distribute(n: int, m: int)
    ensures n * m == (n - 1) * m + m
  {
  }

  lemma {:induction false} DistinctElements<T>(s: seq<T>)
    requires Distinct(s)
    ensures |set x | x in s| == |s|
  {
    if s != [] {
      var s' := s[..|s| - 1];
      DistinctElements(s');
      assert (set x | x in s) == (set x | x in s') + {s[|s| - 1]};
    }
  }

  /** Distinct grid cells number at most rows * columns (the capacity of the search's queues). */
  lemma DistinctCellsBound(s: seq<Cell>, rows: nat, columns: nat)
    requires Distinct(s) && forall i :: 0 <= i < |s| ==> InGrid(s[i], rows, columns)
    ensures |s| <= rows * columns
  {
    DistinctElements(s);
    GridCellsSpec(rows, columns);
    var cells := set x | x in s;
    assert cells <= GridCells(rows, columns);
    SubsetCard(cells, GridCells(rows, columns));
  }

  lemma SubsetCard<T>(a: set<T>, b: set<T>)
    requires a <= b
    ensures |a| <= |b|
  {
    assert b == a + (b - a);
  }

  // ---------------------------------------------------------------------------
  // The state of the search

  /** The cell is on the board and holds a tile. */
  ghost predicate Occupied(letters: seq<seq<Letter>>, c: Cell) {
    0 <= c.0 < |letters| && 0 <= c.1 < |letters[c.0]| && letters[c.0][c.1] != INVISIBLE_LETTER
  }

  /**
   * r is an empty cell on the board, and no empty cell is nearer to t (in steps along
   * rows and columns).
   */
  ghost predicate NearestEmpty(letters: seq<seq<Letter>>, rows: nat, columns: nat, t: Cell, r: Cell) {
    && InGrid(r, rows, columns) && !Occupied(letters, r)
    && forall c :: InGrid(c, rows, columns) && Dist(c, t) < Dist(r, t) ==> Occupied(letters, c)
  }

  /** The rows of the cells, as the row queue holds them. */
  function RowsOf(s: seq<Cell>): (r: seq<int>)
    ensures |r| == |s| && forall i :: 0 <= i < |s| ==> r[i] == s[i].0
  {
    seq(|s|, i requires 0 <= i < |s| => s[i].0)
  }

  /** The columns of the cells, as the column queue holds them. */
  function ColumnsOf(s: seq<Cell>): (r: seq<int>)
    ensures |r| == |s| && forall i :: 0 <= i < |s| ==> r[i] == s[i].1
  {
    seq(|s|, i requires 0 <= i < |s| => s[i].1)
  }

  /** Enqueuing a cell appends its row to the row queue and its column to the column queue. */
  lemma QueuedAppend(order: seq<Cell>, p: nat, c: Cell)
    requires p < |order|
    ensures RowsOf((order + [c])[p + 1..]) == RowsOf(order[p + 1..]) + [c.0]
    ensures ColumnsOf((order + [c])[p + 1..]) == ColumnsOf(order[p + 1..]) + [c.1]
  {
    assert (order + [c])[p + 1..] == order[p + 1..] + [c];
  }

  /**
   * The search from t after p cells have been taken from the queues: `order` lists the
   * cells in the order they were enqueued, starting at t, each once and each on the
   * board; vis marks exactly those cells; the p taken cells hold tiles and all their
   * neighbours on the board are enqueued; and the distances from t never decrease along
   * `order` and grow by at most one past the next cell to take.
   */
  ghost predicate Searching(letters: seq<seq<Letter>>, rows: nat, columns: nat, t: Cell,
                            order: seq<Cell>, p: nat, vis: seq<seq<bool>>)
  {
    && IsGrid(letters, rows, columns) && IsGrid(vis, rows, columns)
    && 0 < |order| && order[0] == t && p <= |order|
    && Distinct(order)
    && (forall i :: 0 <= i < |order| ==> InGrid(order[i], rows, columns))
    && (forall r, c :: 0 <= r < rows && 0 <= c < columns ==> (vis[r][c] <==> (r, c) in order))
    && (forall i :: 0 <= i < p ==> Occupied(letters, order[i]))
    && (forall i, k :: 0 <= i < p && 0 <= k < 4 && InGrid(Neighbours(order[i])[k], rows, columns) ==>
          Neighbours(order[i])[k] in order)
    && (forall i, j :: 0 <= i <= j < |order| ==> Dist(order[i], t) <= Dist(order[j], t))
    && (p < |order| ==> forall j :: p <= j < |order| ==> Dist(order[j], t) <= Dist(order[p], t) + 1)
  }

  /**
   * Part way through the neighbours of order[p], the cell just taken, which holds a tile:
   * as Searching, with neighbours 0 .. k - 1 of order[p] that are on the board enqueued.
   */
  ghost predicate Expanding(letters: seq<seq<Letter>>, rows: nat, columns: nat, t: Cell,
                            order: seq<Cell>, p: nat, vis: seq<seq<bool>>, k: int)
  {
    && IsGrid(letters, rows, columns) && IsGrid(vis, rows, columns)
    && 0 < |order| && order[0] == t && p < |order|
    && Distinct(order)
    && (forall i :: 0 <= i < |order| ==> InGrid(order[i], rows, columns))
    && (forall r, c :: 0 <= r < rows && 0 <= c < columns ==> (vis[r][c] <==> (r, c) in order))
    && (forall i :: 0 <= i <= p ==> Occupied(letters, order[i]))
    && (forall i, k :: 0 <= i < p && 0 <= k < 4 && InGrid(Neighbours(order[i])[k], rows, columns) ==>
          Neighbours(order[i])[k] in order)
    && (forall m :: 0 <= m < k && m < 4 && InGrid(Neighbours(order[p])[m], rows, columns) ==>
          Neighbours(order[p])[m] in order)
    && (forall i, j :: 0 <= i <= j < |order| ==> Dist(order[i], t) <= Dist(order[j], t))
    && (forall j :: p <= j < |order| ==> Dist(order[j], t) <= Dist(order[p], t) + 1)
  }

  /** The search starts with t alone enqueued and marked. */
  lemma SearchBegins(letters: seq<seq<Letter>>, rows: nat, columns: nat, t: Cell, vis: seq<seq<bool>>)
    requires IsGrid(letters, rows, columns) && IsGrid(vis, rows, columns) && InGrid(t, rows, columns)
    requires forall r, c :: 0 <= r < rows && 0 <= c < columns ==> (vis[r][c] <==> (r, c) == t)
    ensures Searching(letters, rows, columns, t, [t], 0, vis)
  {
  }

  /** Taking a cell that holds a tile starts the scan of its neighbours. */
  lemma ExpandBegins(letters: seq<seq<Letter>>, rows: nat, columns: nat, t: Cell,
                     order: seq<Cell>, p: nat, vis: seq<seq<bool>>)
    requires Searching(letters, rows, columns, t, order, p, vis) && p < |order| && Occupied(letters, order[p])
    ensures Expanding(letters, rows, columns, t, order, p, vis, 0)
  {
  }

  /**
   * Trying neighbour k of order[p]: a neighbour off the board or already marked changes
   * nothing; any other is marked and enqueued, and there is room for it in queues of
   * rows * columns slots.
   */
  lemma ExpandStep(letters: seq<seq<Letter>>, rows: nat, columns: nat, t: Cell,
                   order: seq<Cell>, p: nat, vis: seq<seq<bool>>, k: int)
    requires Expanding(letters, rows, columns, t, order, p, vis, k) && 0 <= k < 4
    ensures var n := Neighbours(order[p])[k];
      if InGrid(n, rows, columns) && !vis[n.0][n.1] then
        && |order| < rows * columns
        && Expanding(letters, rows, columns, t, order + [n], p, vis[n.0 := vis[n.0][n.1 := true]], k + 1)
      else Expanding(letters, rows, columns, t, order, p, vis, k + 1)
  {
    var n := Neighbours(order[p])[k];
    if InGrid(n, rows, columns) && !vis[n.0][n.1] {
      ExpandAppend(letters, rows, columns, t, order, p, vis, k);
    }
  }

  /** The neighbour tried is on the board and new: it is one step further from t than order[p]. */
  lemma ExpandAppend(letters: seq<seq<Letter>>, rows: nat, columns: nat, t: Cell,
                     order: seq<Cell>, p: nat, vis: seq<seq<bool>>, k: int)
    requires Expanding(letters, rows, columns, t, order, p, vis, k) && 0 <= k < 4
    requires InGrid(Neighbours(order[p])[k], rows, columns)
    requires !vis[Neighbours(order[p])[k].0][Neighbours(order[p])[k].1]
    ensures var n := Neighbours(order[p])[k];
      && |order| < rows * columns
      && Expanding(letters, rows, columns, t, order + [n], p, vis[n.0 := vis[n.0][n.1 := true]], k + 1)
  {
    var n := Neighbours(order[p])[k];
    var D := Dist(order[p], t);
    assert n !in order;
    NeighbourDist(order[p], k, t);
    if Dist(n, t) + 1 == D {
      Reached(order, p, t, rows, columns, D, n);
      assert false;
    }
    DistinctAppended(order, n);
    MarkAppended(vis, order, n, rows, columns);
    DistAppended(order, t, p, n);
    ClosedAppended(order, p, n, rows, columns);
    PrefixAppended(letters, order, p, n, k, rows, columns);
    DistinctCellsBound(order + [n], rows, columns);
  }

  /** Enqueuing the on-board neighbour k of order[p] keeps what is known of the cells before it. */
  lemma PrefixAppended(letters: seq<seq<Letter>>, order: seq<Cell>, p: nat, n: Cell, k: int,
                       rows: nat, columns: nat)
    requires p < |order| && 0 <= k < 4 && n == Neighbours(order[p])[k] && InGrid(n, rows, columns)
    requires forall i :: 0 <= i < |order| ==> InGrid(order[i], rows, columns)
    requires forall i :: 0 <= i <= p ==> Occupied(letters, order[i])
    requires forall m :: 0 <= m < k && m < 4 && InGrid(Neighbours(order[p])[m], rows, columns) ==>
      Neighbours(order[p])[m] in order
    ensures var order' := order + [n];
      && order'[0] == order[0] && order'[p] == order[p] && p < |order'|
      && (forall i :: 0 <= i < |order'| ==> InGrid(order'[i], rows, columns))
      && (forall i :: 0 <= i <= p ==> Occupied(letters, order'[i]))
      && (forall m :: 0 <= m < k + 1 && m < 4 && InGrid(Neighbours(order'[p])[m], rows, columns) ==>
            Neighbours(order'[p])[m] in order')
  {
    var order' := order + [n];
    forall m | 0 <= m < k + 1 && m < 4 && InGrid(Neighbours(order'[p])[m], rows, columns)
      ensures Neighbours(order'[p])[m] in order'
    {
      if m < k {
        assert Neighbours(order[p])[m] in order;
      }
    }
  }

  lemma DistinctAppended(order: seq<Cell>, n: Cell)
    requires Distinct(order) && n !in order
    ensures Distinct(order + [n])
  {
  }

  /** Enqueuing keeps the neighbours of the first p cells enqueued. */
  lemma ClosedAppended(order: seq<Cell>, p: nat, n: Cell, rows: nat, columns: nat)
    requires p <= |order|
    requires forall i, k :: 0 <= i < p && 0 <= k < 4 && InGrid(Neighbours(order[i])[k], rows, columns) ==>
      Neighbours(order[i])[k] in order
    ensures forall i, k :: 0 <= i < p && 0 <= k < 4 && InGrid(Neighbours((order + [n])[i])[k], rows, columns) ==>
      Neighbours((order + [n])[i])[k] in order + [n]
  {
    forall i, k | 0 <= i < p && 0 <= k < 4 && InGrid(Neighbours((order + [n])[i])[k], rows, columns)
      ensures Neighbours((order + [n])[i])[k] in order + [n]
    {
      assert (order + [n])[i] == order[i];
    }
  }

  /** Marking n keeps vis the indicator of the enqueued cells once n is enqueued. */
  lemma MarkAppended(vis: seq<seq<bool>>, order: seq<Cell>, n: Cell, rows: nat, columns: nat)
    requires IsGrid(vis, rows, columns) && InGrid(n, rows, columns)
    requires forall r, c :: 0 <= r < rows && 0 <= c < columns ==> (vis[r][c] <==> (r, c) in order)
    ensures var vis' := vis[n.0 := vis[n.0][n.1 := true]];
      && IsGrid(vis', rows, columns)
      && forall r, c :: 0 <= r < rows && 0 <= c < columns ==> (vis'[r][c] <==> (r, c) in order + [n])
  {
    var vis' := vis[n.0 := vis[n.0][n.1 := true]];
    forall r, c | 0 <= r < rows && 0 <= c < columns ensures vis'[r][c] <==> (r, c) in order + [n] {
      assert (r, c) in order + [n] <==> (r, c) in order || (r, c) == n;
    }
  }

  /** Enqueuing a cell one step further than order[p] keeps the order by distance. */
  lemma DistAppended(order: seq<Cell>, t: Cell, p: nat, n: Cell)
    requires p < |order|
    requires forall i, j :: 0 <= i <= j < |order| ==> Dist(order[i], t) <= Dist(order[j], t)
    requires forall j :: p <= j < |order| ==> Dist(order[j], t) <= Dist(order[p], t) + 1
    requires Dist(n, t) == Dist(order[p], t) + 1
    ensures forall i, j :: 0 <= i <= j < |order + [n]| ==> Dist((order + [n])[i], t) <= Dist((order + [n])[j], t)
    ensures forall j :: p <= j < |order + [n]| ==> Dist((order + [n])[j], t) <= Dist((order + [n])[p], t) + 1
  {
    var order' := order + [n];
    forall i, j | 0 <= i <= j < |order'| ensures Dist(order'[i], t) <= Dist(order'[j], t) {
      if j == |order| && i < p {
        assert Dist(order[i], t) <= Dist(order[p], t);
      }
    }
  }

  /** Once all four neighbours are tried, the taken cell joins the closed prefix. */
  lemma ExpandEnds(letters: seq<seq<Letter>>, rows: nat, columns: nat, t: Cell,
                   order: seq<Cell>, p: nat, vis: seq<seq<bool>>)
    requires Expanding(letters, rows, columns, t, order, p, vis, 4)
    ensures Searching(letters, rows, columns, t, order, p + 1, vis)
  {
    if p + 1 < |order| {
      forall j | p + 1 <= j < |order| ensures Dist(order[j], t) <= Dist(order[p + 1], t) + 1 {
        assert Dist(order[p], t) <= Dist(order[p + 1], t);
      }
    }
  }

  /** A taken cell without a tile is as near to t as any empty cell on the board. */
  lemma SearchFound(letters: seq<seq<Letter>>, rows: nat, columns: nat, t: Cell,
                    order: seq<Cell>, p: nat, vis: seq<seq<bool>>)
    requires Searching(letters, rows, columns, t, order, p, vis) && p < |order|
    ensures forall c :: InGrid(c, rows, columns) && Dist(c, t) < Dist(order[p], t) ==> Occupied(letters, c)
  {
    forall c | InGrid(c, rows, columns) && Dist(c, t) < Dist(order[p], t) ensures Occupied(letters, c) {
      Reached(order, p, t, rows, columns, Dist(order[p], t), c);
      var i :| 0 <= i < p && order[..p][i] == c;
    }
  }

  /** When the queues run dry every cell on the board has been taken, and holds a tile. */
  lemma SearchExhausted(letters: seq<seq<Letter>>, rows: nat, columns: nat, t: Cell,
                        order: seq<Cell>, vis: seq<seq<bool>>)
    requires Searching(letters, rows, columns, t, order, |order|, vis)
    ensures forall c :: InGrid(c, rows, columns) ==> Occupied(letters, c)
  {
    ClosedCoversGrid(order, t, rows, columns);
  }
}
