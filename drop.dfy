/**
 * The pieces of dropping a dragged tile: where a drag starts and ends, single-cell
 * writes to the board, the rack once the shuffle state is folded back into it, and
 * the tiles a board holds, counted with repetition.
 */
module Drops {
  import opened Wrappers
  import opened Letters

  /** Where a dragged tile starts or ends: a board cell, a rack slot, or neither. */
  datatype Position = Position(boardRow: Option<int>, boardColumn: Option<int>, rackIndex: Option<int>)

  predicate OnBoard(p: Position) {
    p.boardRow.Some? && p.boardColumn.Some?
  }

  /** The grid with cell (r, c) holding x; a cell off the grid changes nothing. */
  function SetCell(g: seq<seq<Letter>>, r: int, c: int, x: Letter): (h: seq<seq<Letter>>)
    ensures |h| == |g| && forall i :: 0 <= i < |g| ==> |h[i]| == |g[i]|
    ensures forall i, j :: 0 <= i < |g| && 0 <= j < |g[i]| ==>
      h[i][j] == if (i, j) == (r, c) then x else g[i][j]
  {
    if 0 <= r < |g| && 0 <= c < |g[r]| then g[r := g[r][c := x]] else g
  }

  /**
   * The rack once a drag ends: each slot takes the shuffle state's tile where the
   * shuffle state holds one, and keeps its own tile elsewhere.
   */
  function Restored(rack: seq<Letter>, shuffle: seq<Letter>): (r: seq<Letter>)
    requires |shuffle| == |rack|
    ensures |r| == |rack|
  {
    seq(|rack|, i requires 0 <= i < |rack| => if shuffle[i] != INVISIBLE_LETTER then shuffle[i] else rack[i])
  }

  /** Every tile of a grid, empty cells included, counted with repetition. */
  function Tiles(g: seq<seq<Letter>>): multiset<Letter> {
    if g == [] then multiset{} else Tiles(g[..|g| - 1]) + multiset(g[|g| - 1])
  }

  /** Writing x over cell (r, c) trades the tile that was there for x. */
  lemma {:induction false} SetCellTiles(g: seq<seq<Letter>>, r: int, c: int, x: Letter)
    requires 0 <= r < |g| && 0 <= c < |g[r]|
    ensures Tiles(SetCell(g, r, c, x)) + multiset{g[r][c]} == Tiles(g) + multiset{x}
  {
    var n := |g| - 1;
    var h := SetCell(g, r, c, x);
    if r == n {
      SetLastRowTiles(g, c, x);
    } else {
      SetCellTiles(g[..n], r, c, x);
      assert h[..n] == SetCell(g[..n], r, c, x);
      assert g[..n][r][c] == g[r][c];
      calc {
        Tiles(h) + multiset{g[r][c]};
        Tiles(h[..n]) + multiset(g[n]) + multiset{g[r][c]};
        (Tiles(h[..n]) + multiset{g[r][c]}) + multiset(g[n]);
        (Tiles(g[..n]) + multiset{x}) + multiset(g[n]);
        Tiles(g) + multiset{x};
      }
    }
  }

  lemma SetLastRowTiles(g: seq<seq<Letter>>, c: int, x: Letter)
    requires |g| > 0 && 0 <= c < |g[|g| - 1]|
    ensures Tiles(SetCell(g, |g| - 1, c, x)) + multiset{g[|g| - 1][c]} == Tiles(g) + multiset{x}
  {
    var n := |g| - 1;
    var h := SetCell(g, n, c, x);
    assert h[..n] == g[..n];
    assert h[n] == g[n][c := x];
    assert g[n] == g[n][c := x][c := g[n][c]];
  }

  /**
   * A tile moved from cell s to an empty cell e: the board holds the same tiles as
   * before, each as many times.
   */
  lemma MoveKeepsTiles(g: seq<seq<Letter>>, s: (int, int), e: (int, int))
    requires 0 <= s.0 < |g| && 0 <= s.1 < |g[s.0]| && 0 <= e.0 < |g| && 0 <= e.1 < |g[e.0]|
    requires g[e.0][e.1] == INVISIBLE_LETTER && g[s.0][s.1] != INVISIBLE_LETTER
    ensures Tiles(SetCell(SetCell(g, s.0, s.1, INVISIBLE_LETTER), e.0, e.1, g[s.0][s.1])) == Tiles(g)
  {
    var g1 := SetCell(g, s.0, s.1, INVISIBLE_LETTER);
    var x := g[s.0][s.1];
    SetCellTiles(g, s.0, s.1, INVISIBLE_LETTER);
    SetCellTiles(g1, e.0, e.1, x);
    assert g1[e.0][e.1] == INVISIBLE_LETTER;
    Cancel(Tiles(SetCell(g1, e.0, e.1, x)), Tiles(g), INVISIBLE_LETTER);
  }

  lemma Cancel<T>(a: multiset<T>, b: multiset<T>, x: T)
    requires a + multiset{x} == b + multiset{x}
    ensures a == b
  {
    forall y ensures a[y] == b[y] {
      assert (a + multiset{x})[y] == (b + multiset{x})[y];
    }
  }
}
