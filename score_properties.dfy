/**
 * What the turn-scoring engine's result means, stated over the board rather than over
 * the engine's intermediate list: when a move is rejected, the centre opening, a lone
 * tile's fallback score, the single-tile axis, and that multipliers matter only on the
 * cells played this turn.
 */
module ScoringProperties {
  import opened Wrappers
  import opened Letters
  import opened Scoring
  import BoardSearch

  // ---------------------------------------------------------------------------
  // Shapes of a placement, over the board

  /** All tiles placed this turn share one row (vacuously true when there are none). */
  ghost predicate OneRow(b: Board) {
    forall r1, c1, r2, c2 :: b.Placed(r1, c1) && b.Placed(r2, c2) ==> r1 == r2
  }

  /** All tiles placed this turn share one column. */
  ghost predicate OneColumn(b: Board) {
    forall r1, c1, r2, c2 :: b.Placed(r1, c1) && b.Placed(r2, c2) ==> c1 == c2
  }

  /** An empty cell lies in a row strictly between two tiles placed in that row. */
  ghost predicate GapInRow(b: Board) {
    exists r, c1, c, c2 :: b.Placed(r, c1) && b.Placed(r, c2) && c1 < c < c2 && !b.Occupied(r, c)
  }

  /** An empty cell lies in a column strictly between two tiles placed in that column. */
  ghost predicate GapInColumn(b: Board) {
    exists c, r1, r, r2 :: b.Placed(r1, c) && b.Placed(r2, c) && r1 < r < r2 && !b.Occupied(r, c)
  }

  predicate SameRow(u: seq<PositionedValue>)
    requires |u| > 0
  {
    forall p :: p in u ==> p.row == u[0].row
  }

  predicate SameColumn(u: seq<PositionedValue>)
    requires |u| > 0
  {
    forall p :: p in u ==> p.column == u[0].column
  }

  // ---------------------------------------------------------------------------
  // The axis

  lemma SingletonMembers(s: set<int>, x: int, y: int)
    requires |s| == 1 && x in s && y in s
    ensures x == y
  {
    if x != y {
      assert {x, y} <= s;
      assert |{x, y}| == 2;
      BoardSearch.SubsetCard({x, y}, s);
    }
  }

  /** One distinct row exactly when every tile is in the first tile's row. */
  lemma RowSetSingleton(u: seq<PositionedValue>)
    requires |u| > 0
    ensures |RowSet(u)| >= 1
    ensures |RowSet(u)| == 1 <==> SameRow(u)
  {
    assert u[0] in u;
    assert u[0].row in RowSet(u);
    if SameRow(u) {
      assert RowSet(u) == {u[0].row};
    } else {
      var p :| p in u && p.row != u[0].row;
      assert p.row in RowSet(u);
      if |RowSet(u)| == 1 {
        SingletonMembers(RowSet(u), p.row, u[0].row);
      }
    }
    BoardSearch.SubsetCard({u[0].row}, RowSet(u));
  }

  lemma ColumnSetSingleton(u: seq<PositionedValue>)
    requires |u| > 0
    ensures |ColumnSet(u)| >= 1
    ensures |ColumnSet(u)| == 1 <==> SameColumn(u)
  {
    assert u[0] in u;
    assert u[0].column in ColumnSet(u);
    if SameColumn(u) {
      assert ColumnSet(u) == {u[0].column};
    } else {
      var p :| p in u && p.column != u[0].column;
      assert p.column in ColumnSet(u);
      if |ColumnSet(u)| == 1 {
        SingletonMembers(ColumnSet(u), p.column, u[0].column);
      }
    }
    BoardSearch.SubsetCard({u[0].column}, ColumnSet(u));
  }

  /**
   * getAxis: no axis exactly when the tiles use two rows and two columns; horizontal
   * exactly when they share a row (so a single tile is horizontal); vertical exactly
   * when they share a column but not a row.
   */
  lemma AxisOfSpec(u: seq<PositionedValue>)
    requires |u| > 0
    ensures AxisOf(u) == None <==> !SameRow(u) && !SameColumn(u)
    ensures AxisOf(u) == Some(Horizontal) <==> SameRow(u)
    ensures AxisOf(u) == Some(Vertical) <==> !SameRow(u) && SameColumn(u)
  {
    RowSetSingleton(u);
    ColumnSetSingleton(u);
  }

  lemma SingleTileIsHorizontal(p: PositionedValue)
    ensures AxisOf([p]) == Some(Horizontal)
  {
    AxisOfSpec([p]);
  }

  // ---------------------------------------------------------------------------
  // Rejected placements

  /** On a board, the collected list's shape is the board's shape. */
  lemma UnlockedShape(b: Board)
    requires |Unlocked(b)| > 0
    ensures SameRow(Unlocked(b)) <==> OneRow(b)
    ensures SameColumn(Unlocked(b)) <==> OneColumn(b)
  {
    var u := Unlocked(b);
    UnlockedSpec(b);
    assert u[0] in u;
    if SameRow(u) {
      forall r1, c1, r2, c2 | b.Placed(r1, c1) && b.Placed(r2, c2) ensures r1 == r2 {
        assert Entry(b, r1, c1) in u && Entry(b, r2, c2) in u;
      }
    }
    if OneRow(b) {
      forall p | p in u ensures p.row == u[0].row {
        assert b.Placed(p.row, p.column) && b.Placed(u[0].row, u[0].column);
      }
    }
    if SameColumn(u) {
      forall r1, c1, r2, c2 | b.Placed(r1, c1) && b.Placed(r2, c2) ensures c1 == c2 {
        assert Entry(b, r1, c1) in u && Entry(b, r2, c2) in u;
      }
    }
    if OneColumn(b) {
      forall p | p in u ensures p.column == u[0].column {
        assert b.Placed(p.row, p.column) && b.Placed(u[0].row, u[0].column);
      }
    }
  }

  /** In a row-major list of cells the first is least and the last is greatest. */
  lemma SortedEnds(u: seq<PositionedValue>, p: PositionedValue)
    requires SortedRowMajor(u) && p in u
    ensures p == u[0] || Before(u[0], p)
    ensures p == u[|u| - 1] || Before(p, u[|u| - 1])
  {
  }

  /** Tiles placed in one row leave no gap in any column, and symmetrically. */
  lemma OneLineNoCrossGap(b: Board)
    ensures OneRow(b) ==> !GapInColumn(b)
    ensures OneColumn(b) ==> !GapInRow(b)
  {
  }

  /** Along a shared row, the placement has a gap exactly when the board has one. */
  lemma RowGapIff(b: Board)
    requires |Unlocked(b)| > 0 && SameRow(Unlocked(b))
    ensures !Contiguous(b, Horizontal, Unlocked(b)) <==> GapInRow(b)
  {
    if GapInRow(b) {
      RowGapBreaks(b);
    }
    if !Contiguous(b, Horizontal, Unlocked(b)) {
      RowBreakIsGap(b);
    }
  }

  lemma RowGapBreaks(b: Board)
    requires |Unlocked(b)| > 0 && SameRow(Unlocked(b)) && GapInRow(b)
    ensures !Contiguous(b, Horizontal, Unlocked(b))
  {
    var u := Unlocked(b);
    UnlockedSpec(b);
    var first := u[0];
    assert first in u;
    var r, c1, c, c2 :| b.Placed(r, c1) && b.Placed(r, c2) && c1 < c < c2 && !b.Occupied(r, c);
    assert Entry(b, r, c1) in u && Entry(b, r, c2) in u;
    SortedEnds(u, Entry(b, r, c1));
    SortedEnds(u, Entry(b, r, c2));
    assert !b.Occupied(first.row, c);
  }

  lemma RowBreakIsGap(b: Board)
    requires |Unlocked(b)| > 0 && SameRow(Unlocked(b)) && !Contiguous(b, Horizontal, Unlocked(b))
    ensures GapInRow(b)
  {
    var u := Unlocked(b);
    UnlockedSpec(b);
    var first, last := u[0], u[|u| - 1];
    assert first in u && last in u;
    var c :| first.column <= c <= last.column && !b.Occupied(first.row, c);
    assert b.Placed(first.row, first.column) && b.Placed(first.row, last.column);
    assert first.column < c < last.column;
  }

  /** Along a shared column, the placement has a gap exactly when the board has one. */
  lemma ColumnGapIff(b: Board)
    requires |Unlocked(b)| > 0 && SameColumn(Unlocked(b))
    ensures !Contiguous(b, Vertical, Unlocked(b)) <==> GapInColumn(b)
  {
    if GapInColumn(b) {
      ColumnGapBreaks(b);
    }
    if !Contiguous(b, Vertical, Unlocked(b)) {
      ColumnBreakIsGap(b);
    }
  }

  lemma ColumnGapBreaks(b: Board)
    requires |Unlocked(b)| > 0 && SameColumn(Unlocked(b)) && GapInColumn(b)
    ensures !Contiguous(b, Vertical, Unlocked(b))
  {
    var u := Unlocked(b);
    UnlockedSpec(b);
    var first := u[0];
    assert first in u;
    var c, r1, r, r2 :| b.Placed(r1, c) && b.Placed(r2, c) && r1 < r < r2 && !b.Occupied(r, c);
    assert Entry(b, r1, c) in u && Entry(b, r2, c) in u;
    SortedEnds(u, Entry(b, r1, c));
    SortedEnds(u, Entry(b, r2, c));
    assert !b.Occupied(r, first.column);
  }

  lemma ColumnBreakIsGap(b: Board)
    requires |Unlocked(b)| > 0 && SameColumn(Unlocked(b)) && !Contiguous(b, Vertical, Unlocked(b))
    ensures GapInColumn(b)
  {
    var u := Unlocked(b);
    UnlockedSpec(b);
    var first, last := u[0], u[|u| - 1];
    assert first in u && last in u;
    var r :| first.row <= r <= last.row && !b.Occupied(r, first.column);
    assert b.Placed(first.row, first.column) && b.Placed(last.row, first.column);
    assert first.row < r < last.row;
  }

  /**
   * computeScore returns nil exactly when the tiles placed this turn are neither in one
   * row nor in one column, or leave an empty cell between two of them along their line
   * (locked tiles may fill the space between placed tiles).
   */
  lemma ScoreRejectsIff(b: Board)
    ensures Score(b).None? <==> (!OneRow(b) && !OneColumn(b)) || GapInRow(b) || GapInColumn(b)
  {
    var u := Unlocked(b);
    UnlockedSpec(b);
    if |u| == 0 {
      NothingPlacedIff(b);
    } else {
      AxisOfSpec(u);
      UnlockedShape(b);
      OneLineNoCrossGap(b);
      if SameRow(u) {
        RowGapIff(b);
      } else if SameColumn(u) {
        ColumnGapIff(b);
      } else {
        assert Score(b).None?;
      }
    }
  }

  // ---------------------------------------------------------------------------
  // Single tiles

  /** Nothing was placed this turn exactly when the collected list is empty; then the move scores 0. */
  lemma NothingPlacedIff(b: Board)
    ensures Unlocked(b) == [] <==> forall r, c :: !b.Placed(r, c)
    ensures (forall r, c :: !b.Placed(r, c)) ==> Score(b) == Some(0)
  {
    var u := Unlocked(b);
    UnlockedSpec(b);
    if |u| > 0 {
      assert b.Placed(u[0].row, u[0].column);
    } else {
      forall r, c ensures !b.Placed(r, c) {
        assert b.Placed(r, c) ==> Entry(b, r, c) in u;
      }
    }
  }

  /** A single tile placed this turn is the whole collected list. */
  lemma OnlyTile(b: Board, r: int, c: int)
    requires b.Placed(r, c)
    requires forall r', c' :: b.Placed(r', c') ==> r' == r && c' == c
    ensures Unlocked(b) == [Entry(b, r, c)]
  {
    var u := Unlocked(b);
    UnlockedSpec(b);
    assert Entry(b, r, c) in u;
    assert u[0] in u;
    assert |u| < 2 || (u[1] in u && Before(u[0], u[1]));
  }

  /** The opening move: one tile on the centre cell scores value times both its multipliers. */
  lemma CenterOpening(b: Board, r: int, c: int)
    requires b.Placed(r, c) && r == (b.Rows() - 1) / 2 && c == (b.Columns() - 1) / 2
    requires forall r', c' :: b.Placed(r', c') ==> r' == r && c' == c
    ensures Score(b) == Some(b.ValueAt(r, c) * b.LetterMultiplierAt(r, c) * b.WordMultiplierAt(r, c))
  {
    OnlyTile(b, r, c);
    SingleTileIsHorizontal(Entry(b, r, c));
  }

  /**
   * A lone tile off the centre with no tile beside it in its row or column makes no
   * word, so it falls back to its own value times both multipliers.
   */
  lemma IsolatedTileScoresItself(b: Board, r: int, c: int)
    requires b.Placed(r, c) && !(r == (b.Rows() - 1) / 2 && c == (b.Columns() - 1) / 2)
    requires forall r', c' :: b.Placed(r', c') ==> r' == r && c' == c
    requires !b.Occupied(r - 1, c) && !b.Occupied(r + 1, c) && !b.Occupied(r, c - 1) && !b.Occupied(r, c + 1)
    ensures Score(b) == Some(b.ValueAt(r, c) * b.LetterMultiplierAt(r, c) * b.WordMultiplierAt(r, c))
  {
    OnlyTile(b, r, c);
    SingleTileIsHorizontal(Entry(b, r, c));
    var u := [Entry(b, r, c)];
    assert u[..0] == [];
    assert RunStart(b, Horizontal, r, c) == c && RunEnd(b, Horizontal, r, c) == c;
    assert RunStart(b, Vertical, c, r) == r && RunEnd(b, Vertical, c, r) == r;
    assert WordScore(b, Horizontal, r, c) == 0 && WordScore(b, Vertical, r, c) == 0;
    assert CrossSum(b, Vertical, u) == 0;
  }

  /**
   * Playing all seven rack tiles in one accepted line scores the cross words and the main
   * word plus the bingo bonus of 50, with no centre or lone-tile special case.
   */
  lemma BingoBonus(b: Board)
    requires |Unlocked(b)| == NUM_RACK_TILES && Score(b).Some?
    ensures var u := Unlocked(b);
      && (forall p :: p in u ==> b.InBounds(p.row, p.column))
      && AxisOf(u).Some?
      && var axis := AxisOf(u).value;
         var opposite := if axis == Horizontal then Vertical else Horizontal;
         Score(b) == Some(CrossSum(b, opposite, u) + WordScore(b, axis, u[0].row, u[0].column) + BINGO_BONUS)
  {
    UnlockedPlaced(b);
  }

  // ---------------------------------------------------------------------------
  // Multipliers count only under the tiles placed this turn

  /** Boards that agree on tiles and locks, and on multipliers under this turn's tiles. */
  ghost predicate SameButLockedMultipliers(b1: Board, b2: Board) {
    && b1.letters == b2.letters && b1.locked == b2.locked
    && forall r, c :: b1.Placed(r, c) ==>
         b1.LetterMultiplierAt(r, c) == b2.LetterMultiplierAt(r, c) && b1.WordMultiplierAt(r, c) == b2.WordMultiplierAt(r, c)
  }

  lemma {:induction false} SpanAgree(b1: Board, b2: Board, axis: Axis, line: int, s: int, t: int)
    requires SameButLockedMultipliers(b1, b2)
    requires forall i :: s <= i < t ==> OccupiedOnLine(b1, axis, line, i)
    ensures SpanSum(b1, axis, line, s, t) == SpanSum(b2, axis, line, s, t)
    ensures SpanMultiplier(b1, axis, line, s, t) == SpanMultiplier(b2, axis, line, s, t)
    decreases t - s
  {
    if s < t {
      SpanAgree(b1, b2, axis, line, s, t - 1);
      assert OccupiedOnLine(b1, axis, line, t - 1);
    }
  }

  lemma {:induction false} RunStartAgree(b1: Board, b2: Board, axis: Axis, line: int, k: int)
    requires b1.letters == b2.letters
    ensures RunStart(b1, axis, line, k) == RunStart(b2, axis, line, k)
    decreases k
  {
    if k > 0 && OccupiedOnLine(b1, axis, line, k - 1) {
      RunStartAgree(b1, b2, axis, line, k - 1);
    }
  }

  lemma {:induction false} RunEndAgree(b1: Board, b2: Board, axis: Axis, line: int, k: int)
    requires b1.letters == b2.letters
    ensures RunEnd(b1, axis, line, k) == RunEnd(b2, axis, line, k)
    decreases LineLength(b1, axis) - k
  {
    if k < LineLength(b1, axis) - 1 && OccupiedOnLine(b1, axis, line, k + 1) {
      RunEndAgree(b1, b2, axis, line, k + 1);
    }
  }

  lemma WordScoreAgree(b1: Board, b2: Board, axis: Axis, r: int, c: int)
    requires SameButLockedMultipliers(b1, b2) && b1.Occupied(r, c)
    ensures WordScore(b1, axis, r, c) == WordScore(b2, axis, r, c)
  {
    var line, k := Line(axis, r, c), Along(axis, r, c);
    RunStartAgree(b1, b2, axis, line, k);
    RunEndAgree(b1, b2, axis, line, k);
    RunOccupied(b1, axis, line, k);
    SpanAgree(b1, b2, axis, line, RunStart(b1, axis, line, k), RunEnd(b1, axis, line, k) + 1);
  }

  lemma {:induction false} CrossSumAgree(b1: Board, b2: Board, axis: Axis, u: seq<PositionedValue>)
    requires SameButLockedMultipliers(b1, b2)
    requires forall p :: p in u ==> b1.InBounds(p.row, p.column) && b1.Occupied(p.row, p.column) && b2.InBounds(p.row, p.column)
    ensures CrossSum(b1, axis, u) == CrossSum(b2, axis, u)
  {
    if u != [] {
      assert u[|u| - 1] in u;
      CrossSumAgree(b1, b2, axis, u[..|u| - 1]);
      WordScoreAgree(b1, b2, axis, u[|u| - 1].row, u[|u| - 1].column);
    }
  }

  lemma {:induction false} RowUnlockedAgree(b1: Board, b2: Board, r: int, c: nat)
    requires b1.letters == b2.letters && b1.locked == b2.locked
    ensures RowUnlocked(b1, r, c) == RowUnlocked(b2, r, c)
  {
    if c > 0 {
      RowUnlockedAgree(b1, b2, r, c - 1);
    }
  }

  lemma {:induction false} UnlockedRowsAgree(b1: Board, b2: Board, n: nat)
    requires b1.letters == b2.letters && b1.locked == b2.locked
    ensures UnlockedRows(b1, n) == UnlockedRows(b2, n)
  {
    if n > 0 {
      UnlockedRowsAgree(b1, b2, n - 1);
      RowUnlockedAgree(b1, b2, n - 1, b1.Columns());
    }
  }

  /** Two boards whose scoring parts agree score tiles u along an axis alike. */
  lemma LineScoreOfSameParts(b1: Board, b2: Board, axis: Axis, u: seq<PositionedValue>)
    requires |u| > 0 && b1.Rows() == b2.Rows() && b1.Columns() == b2.Columns()
    requires forall p :: p in u ==> b1.InBounds(p.row, p.column) && b2.InBounds(p.row, p.column)
    requires SoloScore(b1, u[0]) == SoloScore(b2, u[0])
    requires var opposite := if axis == Horizontal then Vertical else Horizontal;
      CrossSum(b1, opposite, u) + WordScore(b1, axis, u[0].row, u[0].column)
      == CrossSum(b2, opposite, u) + WordScore(b2, axis, u[0].row, u[0].column)
    ensures LineScore(b1, axis, u) == LineScore(b2, axis, u)
  {
    assert SingleInCenter(b1, u) == SingleInCenter(b2, u);
  }

  /** Two boards that agree on a list u's gaps and line scores score u alike. */
  lemma ScoreOfSameParts(b1: Board, b2: Board, u: seq<PositionedValue>)
    requires forall p :: p in u ==> b1.InBounds(p.row, p.column) && b2.InBounds(p.row, p.column)
    requires |u| > 0 ==> Contiguous(b1, Horizontal, u) == Contiguous(b2, Horizontal, u)
    requires |u| > 0 ==> Contiguous(b1, Vertical, u) == Contiguous(b2, Vertical, u)
    requires |u| > 0 ==> LineScore(b1, Horizontal, u) == LineScore(b2, Horizontal, u)
    requires |u| > 0 ==> LineScore(b1, Vertical, u) == LineScore(b2, Vertical, u)
    ensures ScoreOf(b1, u) == ScoreOf(b2, u)
  {
  }

  /**
   * Letter and word multipliers take effect only under the tiles placed this turn:
   * changing them anywhere else (under locked tiles, on empty cells) leaves the score
   * unchanged.
   */
  lemma ScoreIgnoresOtherMultipliers(b1: Board, b2: Board)
    requires SameButLockedMultipliers(b1, b2)
    ensures Score(b1) == Score(b2)
  {
    var u := Unlocked(b1);
    UnlockedRowsAgree(b1, b2, b1.Rows());
    assert Unlocked(b2) == u;
    UnlockedPlaced(b1);
    if |u| > 0 {
      var p := u[0];
      assert p in u;
      assert forall r, c :: b1.Occupied(r, c) == b2.Occupied(r, c);
      WordScoreAgree(b1, b2, Horizontal, p.row, p.column);
      WordScoreAgree(b1, b2, Vertical, p.row, p.column);
      CrossSumAgree(b1, b2, Horizontal, u);
      CrossSumAgree(b1, b2, Vertical, u);
      assert SoloScore(b1, p) == SoloScore(b2, p);
      LineScoreOfSameParts(b1, b2, Horizontal, u);
      LineScoreOfSameParts(b1, b2, Vertical, u);
      assert Contiguous(b1, Horizontal, u) == Contiguous(b2, Horizontal, u);
      assert Contiguous(b1, Vertical, u) == Contiguous(b2, Vertical, u);
    }
    ScoreOfSameParts(b1, b2, u);
  }
}
