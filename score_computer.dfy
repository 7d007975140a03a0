/**
 * The turn-scoring engine. Given a snapshot of the board (tiles, locked flags, letter
 * and word multipliers) it scores the tiles placed this turn (the unlocked, non-empty
 * cells) or reports that they do not form a legal placement (None).
 *
 * The specification functions (Unlocked, AxisOf, Contiguous, RunStart, RunEnd,
 * WordScore, Score) say what the engine computes; the class ScoreComputer holds the
 * engine's loops, each proved to compute its specification function. What the
 * specification functions mean is proved in module ScoringProperties.
 */
module Scoring {
  import opened Wrappers
  import opened Letters

  datatype Axis = Horizontal | Vertical

  /** A tile placed this turn: its cell and its point value. */
  datatype PositionedValue = PositionedValue(row: int, column: int, value: int)

  predicate IsGrid<T>(g: seq<seq<T>>, rows: nat, columns: nat) {
    |g| == rows && forall r :: 0 <= r < rows ==> |g[r]| == columns
  }

  /**
   * The snapshot the engine reads: four parallel grids. The cell accessors read a cell
   * of each grid, with the empty tile, "unlocked" and multiplier 1 outside a grid, so
   * that the specification below is total; on a Valid board they read the grids.
   */
  datatype Board = Board(letters: seq<seq<Letter>>, locked: seq<seq<bool>>,
                         letterMultipliers: seq<seq<int>>, wordMultipliers: seq<seq<int>>)
  {
    function Rows(): nat {
      |letters|
    }

    function Columns(): nat {
      if letters == [] then 0 else |letters[0]|
    }

    predicate InBounds(r: int, c: int) {
      0 <= r < Rows() && 0 <= c < Columns()
    }

    function LetterAt(r: int, c: int): Letter {
      if 0 <= r < |letters| && 0 <= c < |letters[r]| then letters[r][c] else INVISIBLE_LETTER
    }

    function LockedAt(r: int, c: int): bool {
      if 0 <= r < |locked| && 0 <= c < |locked[r]| then locked[r][c] else false
    }

    function LetterMultiplierAt(r: int, c: int): int {
      if 0 <= r < |letterMultipliers| && 0 <= c < |letterMultipliers[r]| then letterMultipliers[r][c] else 1
    }

    function WordMultiplierAt(r: int, c: int): int {
      if 0 <= r < |wordMultipliers| && 0 <= c < |wordMultipliers[r]| then wordMultipliers[r][c] else 1
    }

    /** The cell is on the board and holds a tile (locked or not). */
    predicate Occupied(r: int, c: int) {
      InBounds(r, c) && LetterAt(r, c) != INVISIBLE_LETTER
    }

    /** The cell holds a tile placed this turn. */
    predicate Placed(r: int, c: int) {
      Occupied(r, c) && !LockedAt(r, c)
    }

    /** Point value of the tile in a cell (0 for an empty cell, which is never scored). */
    function ValueAt(r: int, c: int): int {
      LetterAt(r, c).value.GetOr(0)
    }

    /** What callers guarantee: the grids share one shape and every real tile has a value. */
    ghost predicate Valid() {
      && IsGrid(letters, Rows(), Columns())
      && IsGrid(locked, Rows(), Columns())
      && IsGrid(letterMultipliers, Rows(), Columns())
      && IsGrid(wordMultipliers, Rows(), Columns())
      && forall r, c :: Occupied(r, c) ==> LetterAt(r, c).value.Some?
    }
  }

  // ---------------------------------------------------------------------------
  // The tiles placed this turn, in row-major order

  function Entry(b: Board, r: int, c: int): PositionedValue {
    PositionedValue(r, c, b.ValueAt(r, c))
  }

  /** Row-major order on cells: by row, then by column. */
  predicate Before(p: PositionedValue, q: PositionedValue) {
    p.row < q.row || (p.row == q.row && p.column < q.column)
  }

  predicate SortedRowMajor(s: seq<PositionedValue>) {
    forall i, j :: 0 <= i < j < |s| ==> Before(s[i], s[j])
  }

  /** The placed tiles of row r among its first c columns, left to right. */
  function RowUnlocked(b: Board, r: int, c: nat): seq<PositionedValue>
  {
    if c == 0 then []
    else RowUnlocked(b, r, c - 1) + (if b.Placed(r, c - 1) then [Entry(b, r, c - 1)] else [])
  }

  /** The placed tiles of the first n rows, in row-major order. */
  function UnlockedRows(b: Board, n: nat): seq<PositionedValue>
  {
    if n == 0 then [] else UnlockedRows(b, n - 1) + RowUnlocked(b, n - 1, b.Columns())
  }

  /**
   * The tiles placed this turn (the source's unlockedPositionedValues), gathered by a
   * row-major scan; UnlockedSpec states what it holds.
   */
  function Unlocked(b: Board): seq<PositionedValue> {
    UnlockedRows(b, b.Rows())
  }

  lemma {:induction false} RowUnlockedSpec(b: Board, r: int, c: nat)
    requires c <= b.Columns()
    ensures forall p :: p in RowUnlocked(b, r, c) ==> p.row == r && 0 <= p.column < c && b.Placed(r, p.column) && p == Entry(b, r, p.column)
    ensures forall k :: 0 <= k < c && b.Placed(r, k) ==> Entry(b, r, k) in RowUnlocked(b, r, c)
    ensures SortedRowMajor(RowUnlocked(b, r, c))
    decreases c
  {
    if c > 0 {
      RowUnlockedSpec(b, r, c - 1);
    }
  }

  lemma {:induction false} UnlockedRowsSpec(b: Board, n: nat)
    requires n <= b.Rows()
    ensures forall p :: p in UnlockedRows(b, n) ==> 0 <= p.row < n && b.Placed(p.row, p.column) && p == Entry(b, p.row, p.column)
    ensures forall r, k :: 0 <= r < n && b.Placed(r, k) ==> Entry(b, r, k) in UnlockedRows(b, n)
    ensures SortedRowMajor(UnlockedRows(b, n))
    decreases n
  {
    if n > 0 {
      UnlockedRowsSpec(b, n - 1);
      RowUnlockedSpec(b, n - 1, b.Columns());
      var prefix, last := UnlockedRows(b, n - 1), RowUnlocked(b, n - 1, b.Columns());
      forall i, j | 0 <= i < |prefix| && 0 <= j < |last| ensures Before(prefix[i], last[j]) {
        assert prefix[i] in prefix && last[j] in last;
      }
    }
  }

  /**
   * The placed tiles are exactly the unlocked non-empty cells, each with its value,
   * sorted by row then column (strictly, so each cell appears once).
   */
  lemma UnlockedSpec(b: Board)
    ensures forall p :: p in Unlocked(b) ==> b.Placed(p.row, p.column) && p == Entry(b, p.row, p.column)
    ensures forall r, c :: b.Placed(r, c) ==> Entry(b, r, c) in Unlocked(b)
    ensures SortedRowMajor(Unlocked(b))
  {
    UnlockedRowsSpec(b, b.Rows());
  }

  /** Every collected tile is a placed tile (so on the board). */
  lemma UnlockedPlaced(b: Board)
    ensures forall p :: p in Unlocked(b) ==> b.Placed(p.row, p.column)
  {
    UnlockedSpec(b);
  }

  // ---------------------------------------------------------------------------
  // Axis and contiguity

  function RowSet(u: seq<PositionedValue>): set<int> {
    set p | p in u :: p.row
  }

  function ColumnSet(u: seq<PositionedValue>): set<int> {
    set p | p in u :: p.column
  }

  /**
   * The axis of a placement: none when the tiles use more than one row and more than
   * one column; horizontal when they use one row (which includes a single tile);
   * vertical otherwise.
   */
  function AxisOf(u: seq<PositionedValue>): Option<Axis> {
    var rows, columns := RowSet(u), ColumnSet(u);
    if |rows| > 1 && |columns| > 1 then None
    else if |rows| == 1 then Some(Horizontal)
    else Some(Vertical)
  }

  /**
   * The loop of isContiguous, as a condition: every cell from the first placed tile
   * to the last, stepping along the axis, holds a tile (locked tiles may fill gaps).
   */
  predicate Contiguous(b: Board, axis: Axis, u: seq<PositionedValue>)
    requires |u| > 0
  {
    var first, last := u[0], u[|u| - 1];
    if axis == Horizontal then
      first.row <= last.row ==> forall c :: first.column <= c <= last.column ==> b.Occupied(first.row, c)
    else
      first.column <= last.column ==> forall r :: first.row <= r <= last.row ==> b.Occupied(r, first.column)
  }

  // ---------------------------------------------------------------------------
  // Words along an axis

  /** Index along the axis, and the index of the line (row for horizontal, column for vertical). */
  function Along(axis: Axis, r: int, c: int): int {
    if axis == Horizontal then c else r
  }

  function Line(axis: Axis, r: int, c: int): int {
    if axis == Horizontal then r else c
  }

  function LineLength(b: Board, axis: Axis): nat {
    if axis == Horizontal then b.Columns() else b.Rows()
  }

  /** The cell at index k of line `line`. */
  function RowAt(axis: Axis, line: int, k: int): int {
    if axis == Horizontal then line else k
  }

  function ColumnAt(axis: Axis, line: int, k: int): int {
    if axis == Horizontal then k else line
  }

  predicate OccupiedOnLine(b: Board, axis: Axis, line: int, k: int) {
    b.Occupied(RowAt(axis, line, k), ColumnAt(axis, line, k))
  }

  /** Start of the run of tiles through index k of a line (verticalMin, horizontalMin). */
  function RunStart(b: Board, axis: Axis, line: int, k: int): int
    decreases k
  {
    if k > 0 && OccupiedOnLine(b, axis, line, k - 1) then RunStart(b, axis, line, k - 1) else k
  }

  /** End of the run of tiles through index k of a line (verticalMax, horizontalMax). */
  function RunEnd(b: Board, axis: Axis, line: int, k: int): int
    decreases LineLength(b, axis) - k
  {
    if k < LineLength(b, axis) - 1 && OccupiedOnLine(b, axis, line, k + 1) then RunEnd(b, axis, line, k + 1) else k
  }

  /**
   * The run starts at or before k (and on the board when k is), holds tiles from its
   * start up to k, and has an empty cell or the board edge just before it.
   */
  lemma {:induction false} RunStartSpec(b: Board, axis: Axis, line: int, k: int)
    requires 0 <= k
    ensures 0 <= RunStart(b, axis, line, k) <= k
    ensures forall i :: RunStart(b, axis, line, k) <= i < k ==> OccupiedOnLine(b, axis, line, i)
    ensures RunStart(b, axis, line, k) == 0 || !OccupiedOnLine(b, axis, line, RunStart(b, axis, line, k) - 1)
    decreases k
  {
    if k > 0 && OccupiedOnLine(b, axis, line, k - 1) {
      RunStartSpec(b, axis, line, k - 1);
    }
  }

  /**
   * The run ends at or after k and on the board, holds tiles from k up to its end, and
   * has an empty cell or the board edge just after it.
   */
  lemma {:induction false} RunEndSpec(b: Board, axis: Axis, line: int, k: int)
    requires k < LineLength(b, axis)
    ensures k <= RunEnd(b, axis, line, k) < LineLength(b, axis)
    ensures forall i :: k < i <= RunEnd(b, axis, line, k) ==> OccupiedOnLine(b, axis, line, i)
    ensures RunEnd(b, axis, line, k) == LineLength(b, axis) - 1 || !OccupiedOnLine(b, axis, line, RunEnd(b, axis, line, k) + 1)
    decreases LineLength(b, axis) - k
  {
    if k < LineLength(b, axis) - 1 && OccupiedOnLine(b, axis, line, k + 1) {
      RunEndSpec(b, axis, line, k + 1);
    }
  }

  /** A tile's contribution to a word: its value, times its letter multiplier only when unlocked. */
  function LetterScore(b: Board, axis: Axis, line: int, i: int): int {
    var r, c := RowAt(axis, line, i), ColumnAt(axis, line, i);
    b.ValueAt(r, c) * (if b.LockedAt(r, c) then 1 else b.LetterMultiplierAt(r, c))
  }

  /** A cell's factor in the word multiplier: its word multiplier only when unlocked. */
  function WordFactor(b: Board, axis: Axis, line: int, i: int): int {
    var r, c := RowAt(axis, line, i), ColumnAt(axis, line, i);
    if b.LockedAt(r, c) then 1 else b.WordMultiplierAt(r, c)
  }

  /** Sum of the letter scores of indices [s, t) of a line. */
  function SpanSum(b: Board, axis: Axis, line: int, s: int, t: int): int
    decreases t - s
  {
    if t <= s then 0 else SpanSum(b, axis, line, s, t - 1) + LetterScore(b, axis, line, t - 1)
  }

  /** Product of the word factors of indices [s, t) of a line. */
  function SpanMultiplier(b: Board, axis: Axis, line: int, s: int, t: int): int
    decreases t - s
  {
    if t <= s then 1 else SpanMultiplier(b, axis, line, s, t - 1) * WordFactor(b, axis, line, t - 1)
  }

  /**
   * Score of the word along `axis` through cell (r, c) (scoreAxis): 0 when the run of
   * tiles through the cell is that cell alone, otherwise the sum of its letter scores
   * times the product of its word factors.
   */
  function WordScore(b: Board, axis: Axis, r: int, c: int): int
    requires b.InBounds(r, c)
  {
    var line, k := Line(axis, r, c), Along(axis, r, c);
    var s, e := RunStart(b, axis, line, k), RunEnd(b, axis, line, k);
    if s == e then 0 else SpanSum(b, axis, line, s, e + 1) * SpanMultiplier(b, axis, line, s, e + 1)
  }

  /** Sum of the words along `axis` through each of the cells u (the cross words). */
  function CrossSum(b: Board, axis: Axis, u: seq<PositionedValue>): int
    requires forall p :: p in u ==> b.InBounds(p.row, p.column)
  {
    if u == [] then 0
    else
      assert u[|u| - 1] in u;
      CrossSum(b, axis, u[..|u| - 1]) + WordScore(b, axis, u[|u| - 1].row, u[|u| - 1].column)
  }

  // ---------------------------------------------------------------------------
  // The move's score

  /** A tile scored on its own: value times both multipliers of its cell. */
  function SoloScore(b: Board, p: PositionedValue): int {
    p.value * b.LetterMultiplierAt(p.row, p.column) * b.WordMultiplierAt(p.row, p.column)
  }

  /** isSingleLetterInCenter: exactly one tile placed, on cell ((rows-1)/2, (columns-1)/2). */
  predicate SingleInCenter(b: Board, u: seq<PositionedValue>) {
    |u| == 1 && u[0].row == (b.Rows() - 1) / 2 && u[0].column == (b.Columns() - 1) / 2
  }

  /**
   * computeScore: Some(0) when nothing was placed; None when the placed tiles are not
   * on one line or leave a gap; the centre opening scored directly; otherwise the cross
   * words plus the word along the axis plus the bingo bonus, with a lone tile that
   * scored nothing falling back to its own score.
   */
  function Score(b: Board): Option<int> {
    UnlockedPlaced(b);
    ScoreOf(b, Unlocked(b))
  }

  /** The body of computeScore, once the tiles placed this turn are collected into u. */
  function ScoreOf(b: Board, u: seq<PositionedValue>): Option<int>
    requires forall p :: p in u ==> b.InBounds(p.row, p.column)
  {
    if |u| == 0 then Some(0)
    else match AxisOf(u)
      case None => None
      case Some(axis) => if !Contiguous(b, axis, u) then None else Some(LineScore(b, axis, u))
  }

  /** computeScore for tiles u that lie without a gap along `axis`. */
  function LineScore(b: Board, axis: Axis, u: seq<PositionedValue>): int
    requires |u| > 0 && forall p :: p in u ==> b.InBounds(p.row, p.column)
  {
    if SingleInCenter(b, u) then SoloScore(b, u[0])
    else
      assert u[0] in u;
      var opposite := if axis == Horizontal then Vertical else Horizontal;
      var sum := CrossSum(b, opposite, u) + WordScore(b, axis, u[0].row, u[0].column)
                 + (if |u| == NUM_RACK_TILES then BINGO_BONUS else 0);
      if sum == 0 && |u| == 1 then SoloScore(b, u[0]) else sum
  }

  // ---------------------------------------------------------------------------
  // Steps of the engine's loops

  /**
   * One step of scoreAxis's loop: with the running sum and product equal to those of the
   * span [s, k) of a line, adding cell k = (r, c), which holds a tile, gives those of
   * [s, k + 1), read straight from the grids.
   */
  lemma SpanStep(b: Board, axis: Axis, line: int, s: int, k: int, r: int, c: int, sum: int, product: int)
    requires b.Valid() && s <= k && r == RowAt(axis, line, k) && c == ColumnAt(axis, line, k) && b.Occupied(r, c)
    requires sum == SpanSum(b, axis, line, s, k) && product == SpanMultiplier(b, axis, line, s, k)
    ensures 0 <= r < |b.letters| && 0 <= c < |b.letters[r]| && 0 <= r < |b.locked| && 0 <= c < |b.locked[r]|
    ensures 0 <= r < |b.letterMultipliers| && 0 <= c < |b.letterMultipliers[r]|
    ensures 0 <= r < |b.wordMultipliers| && 0 <= c < |b.wordMultipliers[r]|
    ensures b.letters[r][c].value.Some?
    ensures b.locked[r][c] ==> SpanSum(b, axis, line, s, k + 1) == sum + b.letters[r][c].value.value
    ensures !b.locked[r][c] ==> SpanSum(b, axis, line, s, k + 1) == sum + b.letters[r][c].value.value * b.letterMultipliers[r][c]
    ensures b.locked[r][c] ==> SpanMultiplier(b, axis, line, s, k + 1) == product
    ensures !b.locked[r][c] ==> SpanMultiplier(b, axis, line, s, k + 1) == product * b.wordMultipliers[r][c]
  {
  }

  /** The run through index k of a line is all tiles, from its start to its end. */
  lemma RunOccupied(b: Board, axis: Axis, line: int, k: int)
    requires 0 <= k < LineLength(b, axis) && OccupiedOnLine(b, axis, line, k)
    ensures 0 <= RunStart(b, axis, line, k) <= k <= RunEnd(b, axis, line, k) < LineLength(b, axis)
    ensures forall i :: RunStart(b, axis, line, k) <= i <= RunEnd(b, axis, line, k) ==> OccupiedOnLine(b, axis, line, i)
  {
    RunStartSpec(b, axis, line, k);
    RunEndSpec(b, axis, line, k);
  }

  /** On a valid board, a tile's solo score reads its cell's multipliers. */
  lemma SoloScoreOnBoard(b: Board, p: PositionedValue)
    requires b.Valid() && b.InBounds(p.row, p.column)
    ensures 0 <= p.row < |b.letterMultipliers| && 0 <= p.column < |b.letterMultipliers[p.row]|
    ensures 0 <= p.row < |b.wordMultipliers| && 0 <= p.column < |b.wordMultipliers[p.row]|
    ensures SoloScore(b, p) == p.value * b.letterMultipliers[p.row][p.column] * b.wordMultipliers[p.row][p.column]
  {
  }

  // ---------------------------------------------------------------------------
  // The engine

  class ScoreComputer {
    const boardLetters: seq<seq<Letter>>
    const locked: seq<seq<bool>>
    const letterMultipliers: seq<seq<int>>
    const wordMultipliers: seq<seq<int>>
    const unlockedPositionedValues: seq<PositionedValue>

    function Snapshot(): Board {
      Board(boardLetters, locked, letterMultipliers, wordMultipliers)
    }

    ghost predicate Valid() {
      Snapshot().Valid() && unlockedPositionedValues == Unlocked(Snapshot())
    }

    /**
     * Collects the placed tiles with a row-major nested loop. The collected list is
     * already sorted by (row, column), so the source's sort leaves it unchanged.
     */
    constructor (boardLetters: seq<seq<Letter>>, locked: seq<seq<bool>>,
                 letterMultipliers: seq<seq<int>>, wordMultipliers: seq<seq<int>>)
      requires Board(boardLetters, locked, letterMultipliers, wordMultipliers).Valid()
      ensures Snapshot() == Board(boardLetters, locked, letterMultipliers, wordMultipliers)
      ensures Valid()
    {
      ghost var b := Board(boardLetters, locked, letterMultipliers, wordMultipliers);
      var positionedValues: seq<PositionedValue> := [];
      for row := 0 to |boardLetters|
        invariant positionedValues == UnlockedRows(b, row)
      {
        assert |boardLetters[row]| == b.Columns();
        for column := 0 to |boardLetters[row]|
          invariant positionedValues == UnlockedRows(b, row) + RowUnlocked(b, row, column)
        {
          assert b.InBounds(row, column);
          if boardLetters[row][column] != INVISIBLE_LETTER && !locked[row][column] {
            assert b.Occupied(row, column);
            positionedValues := positionedValues + [PositionedValue(row, column, boardLetters[row][column].value.value)];
          }
        }
      }
      this.boardLetters := boardLetters;
      this.locked := locked;
      this.unlockedPositionedValues := positionedValues;
      this.letterMultipliers := letterMultipliers;
      this.wordMultipliers := wordMultipliers;
    }

    method ComputeScore() returns (score: Option<int>)
      requires Valid()
      ensures score == Score(Snapshot())
    {
      var u := unlockedPositionedValues;
      ghost var b := Snapshot();
      UnlockedPlaced(b);
      if |u| == 0 {
        return Some(0);
      }
      var axis := GetAxis();
      if axis.None? {
        return None;
      }
      var contiguous := IsContiguous(axis.value);
      if !contiguous {
        return None;
      }
      assert u[0] in u;
      SoloScoreOnBoard(b, u[0]);
      if SingleInCenter(Snapshot(), u) {
        var centerRow := u[0].row;
        var centerColumn := u[0].column;
        return Some(u[0].value * letterMultipliers[centerRow][centerColumn] * wordMultipliers[centerRow][centerColumn]);
      }
      var oppositeAxis := if axis.value == Horizontal then Vertical else Horizontal;
      var sum := CrossWords(oppositeAxis);
      var axisScore := ScoreAxis(axis.value, u[0].row, u[0].column);
      sum := sum + axisScore;
      if |u| == NUM_RACK_TILES {
        sum := sum + BINGO_BONUS;
      }
      if sum == 0 && |u| == 1 {
        sum := sum + u[0].value * letterMultipliers[u[0].row][u[0].column] * wordMultipliers[u[0].row][u[0].column];
      }
      return Some(sum);
    }

    /** The loop of computeScore over the placed tiles: the sum of their cross words. */
    method CrossWords(oppositeAxis: Axis) returns (sum: int)
      requires Valid()
      ensures forall p :: p in unlockedPositionedValues ==> Snapshot().InBounds(p.row, p.column)
      ensures sum == CrossSum(Snapshot(), oppositeAxis, unlockedPositionedValues)
    {
      var u := unlockedPositionedValues;
      ghost var b := Snapshot();
      UnlockedPlaced(b);
      sum := 0;
      for i := 0 to |u|
        invariant sum == CrossSum(b, oppositeAxis, u[..i])
      {
        assert u[i] in u;
        var wordScore := ScoreAxis(oppositeAxis, u[i].row, u[i].column);
        assert u[..i + 1][..i] == u[..i];
        sum := sum + wordScore;
      }
      assert u[..|u|] == u;
    }

    method GetAxis() returns (axis: Option<Axis>)
      requires Valid()
      ensures axis == AxisOf(unlockedPositionedValues)
    {
      var u := unlockedPositionedValues;
      var rows: set<int> := {};
      var columns: set<int> := {};
      for i := 0 to |u|
        invariant rows == RowSet(u[..i]) && columns == ColumnSet(u[..i])
      {
        assert u[..i + 1] == u[..i] + [u[i]];
        rows := rows + {u[i].row};
        columns := columns + {u[i].column};
      }
      assert u[..|u|] == u;
      if |rows| > 1 && |columns| > 1 {
        return None;
      }
      if |rows| == 1 {
        return Some(Horizontal);
      }
      return Some(Vertical);
    }

    method IsContiguous(axis: Axis) returns (contiguous: bool)
      requires Valid() && |unlockedPositionedValues| > 0
      ensures contiguous == Contiguous(Snapshot(), axis, unlockedPositionedValues)
    {
      var u := unlockedPositionedValues;
      ghost var b := Snapshot();
      UnlockedPlaced(b);
      var dr := if axis == Horizontal then 0 else 1;
      var dc := if axis == Horizontal then 1 else 0;
      var nUnlocked := |u|;
      assert u[0] in u && u[nUnlocked - 1] in u;
      var row := u[0].row;
      var column := u[0].column;
      var rowMax := u[nUnlocked - 1].row;
      var columnMax := u[nUnlocked - 1].column;
      while row <= rowMax && column <= columnMax
        invariant axis == Horizontal ==> row == u[0].row && u[0].column <= column
        invariant axis == Horizontal && row <= rowMax ==> column <= columnMax + 1 || column == u[0].column
        invariant axis == Horizontal ==> forall c :: u[0].column <= c < column ==> b.Occupied(row, c)
        invariant axis == Vertical ==> column == u[0].column && u[0].row <= row
        invariant axis == Vertical && column <= columnMax ==> row <= rowMax + 1 || row == u[0].row
        invariant axis == Vertical ==> forall r :: u[0].row <= r < row ==> b.Occupied(r, column)
        decreases rowMax - row + columnMax - column
      {
        assert b.InBounds(row, column);
        if boardLetters[row][column] == INVISIBLE_LETTER {
          assert !b.Occupied(row, column);
          return false;
        }
        row := row + dr;
        column := column + dc;
      }
      return true;
    }

    method VerticalMin(startRow: int, startColumn: int) returns (row: int)
      requires Valid() && Snapshot().InBounds(startRow, startColumn)
      ensures row == RunStart(Snapshot(), Vertical, startColumn, startRow)
    {
      row := startRow;
      while row > 0 && boardLetters[row - 1][startColumn] != INVISIBLE_LETTER
        invariant 0 <= row <= startRow
        invariant RunStart(Snapshot(), Vertical, startColumn, row) == RunStart(Snapshot(), Vertical, startColumn, startRow)
      {
        row := row - 1;
      }
    }

    method VerticalMax(startRow: int, startColumn: int) returns (row: int)
      requires Valid() && Snapshot().InBounds(startRow, startColumn)
      ensures row == RunEnd(Snapshot(), Vertical, startColumn, startRow)
    {
      row := startRow;
      while row < |boardLetters| - 1 && boardLetters[row + 1][startColumn] != INVISIBLE_LETTER
        invariant startRow <= row < |boardLetters|
        invariant RunEnd(Snapshot(), Vertical, startColumn, row) == RunEnd(Snapshot(), Vertical, startColumn, startRow)
      {
        row := row + 1;
      }
    }

    method HorizontalMin(startRow: int, startColumn: int) returns (column: int)
      requires Valid() && Snapshot().InBounds(startRow, startColumn)
      ensures column == RunStart(Snapshot(), Horizontal, startRow, startColumn)
    {
      column := startColumn;
      while column > 0 && boardLetters[startRow][column - 1] != INVISIBLE_LETTER
        invariant 0 <= column <= startColumn
        invariant RunStart(Snapshot(), Horizontal, startRow, column) == RunStart(Snapshot(), Horizontal, startRow, startColumn)
      {
        column := column - 1;
      }
    }

    method HorizontalMax(startRow: int, startColumn: int) returns (column: int)
      requires Valid() && Snapshot().InBounds(startRow, startColumn)
      ensures column == RunEnd(Snapshot(), Horizontal, startRow, startColumn)
    {
      column := startColumn;
      while column < |boardLetters[startRow]| - 1 && boardLetters[startRow][column + 1] != INVISIBLE_LETTER
        invariant startColumn <= column < |boardLetters[startRow]|
        invariant RunEnd(Snapshot(), Horizontal, startRow, column) == RunEnd(Snapshot(), Horizontal, startRow, startColumn)
      {
        column := column + 1;
      }
    }

    /** scoreAxis; the base cell holds a tile (callers pass placed tiles). */
    method ScoreAxis(axis: Axis, baseRow: int, baseColumn: int) returns (wordSum: int)
      requires Valid() && Snapshot().Occupied(baseRow, baseColumn)
      ensures wordSum == WordScore(Snapshot(), axis, baseRow, baseColumn)
    {
      ghost var b := Snapshot();
      ghost var line, base := Line(axis, baseRow, baseColumn), Along(axis, baseRow, baseColumn);
      ghost var s, e := RunStart(b, axis, line, base), RunEnd(b, axis, line, base);
      var dr := if axis == Horizontal then 0 else 1;
      var dc := if axis == Horizontal then 1 else 0;
      var row := -1;
      var rowMax := -1;
      var column := -1;
      var columnMax := -1;
      if axis == Horizontal {
        row := baseRow;
        rowMax := baseRow;
        column := HorizontalMin(baseRow, baseColumn);
        columnMax := HorizontalMax(baseRow, baseColumn);
      } else {
        row := VerticalMin(baseRow, baseColumn);
        rowMax := VerticalMax(baseRow, baseColumn);
        column := baseColumn;
        columnMax := baseColumn;
      }
      if row == rowMax && column == columnMax {
        return 0;
      }
      RunOccupied(b, axis, line, base);
      wordSum := RunScore(axis, line, s, e, row, column, rowMax, columnMax);
    }

    /**
     * The loop of scoreAxis: steps from (row, column) to (rowMax, columnMax), the ends of
     * the run [s, e] of a line, summing letter scores and multiplying word factors.
     */
    method RunScore(axis: Axis, ghost line: int, ghost s: int, ghost e: int,
                    row: int, column: int, rowMax: int, columnMax: int) returns (wordSum: int)
      requires Valid() && 0 <= s <= e
      requires forall i :: s <= i <= e ==> OccupiedOnLine(Snapshot(), axis, line, i)
      requires row == RowAt(axis, line, s) && column == ColumnAt(axis, line, s)
      requires rowMax == RowAt(axis, line, e) && columnMax == ColumnAt(axis, line, e)
      ensures wordSum == SpanSum(Snapshot(), axis, line, s, e + 1) * SpanMultiplier(Snapshot(), axis, line, s, e + 1)
    {
      ghost var b := Snapshot();
      var dr := if axis == Horizontal then 0 else 1;
      var dc := if axis == Horizontal then 1 else 0;
      var row, column := row, column;
      var wordMultiplier := 1;
      wordSum := 0;
      ghost var k := s;
      while row <= rowMax && column <= columnMax
        invariant s <= k <= e + 1
        invariant row == RowAt(axis, line, k) && column == ColumnAt(axis, line, k)
        invariant wordSum == SpanSum(b, axis, line, s, k)
        invariant wordMultiplier == SpanMultiplier(b, axis, line, s, k)
        decreases e - k
      {
        assert OccupiedOnLine(b, axis, line, k);
        SpanStep(b, axis, line, s, k, row, column, wordSum, wordMultiplier);
        var letterScore := boardLetters[row][column].value.value;
        if !locked[row][column] {
          wordMultiplier := wordMultiplier * wordMultipliers[row][column];
          letterScore := letterScore * letterMultipliers[row][column];
        }
        wordSum := wordSum + letterScore;
        row := row + dr;
        column := column + dc;
        k := k + 1;
      }
      assert k == e + 1;
      wordSum := wordSum * wordMultiplier;
    }
  }
}
