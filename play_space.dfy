/**
 * The play space: the board grids and the seven-slot rack of a game in progress, and the
 * operations that move tiles between them (recalling, shuffling, dragging within the
 * rack, dropping on the board), build the tile list of a turn, and report the end of a
 * game. The view state of the source is a value type whose fields each operation
 * updates, so it is a class whose grids and rack are sequence fields.
 */
module PlaySpaces {
  import opened Wrappers
  import opened Letters
  import opened Scoring
  import opened Racks
  import opened Turns
  import opened UtilityFuncs
  import opened IntQueues
  import opened BoardSearch
  import opened Drops
  import opened GameEnd

  /** A rows-by-columns grid holding v everywhere. */
  function Grid<T>(rows: nat, columns: nat, v: T): (g: seq<seq<T>>)
    ensures IsGrid(g, rows, columns)
    ensures forall r, c :: 0 <= r < rows && 0 <= c < columns ==> g[r][c] == v
  {
    seq(rows, _ => seq(columns, _ => v))
  }

  /** A rack with every slot empty. */
  function EmptyRack(): (rack: seq<Letter>)
    ensures |rack| == NUM_RACK_TILES && forall k :: 0 <= k < |rack| ==> rack[k] == INVISIBLE_LETTER
  {
    seq(NUM_RACK_TILES, _ => INVISIBLE_LETTER)
  }

  /**
   * The rack view part way through shiftRack: slot `from` is empty and the tiles
   * between it and `index` (exclusive) have moved one step away from `from`, rightwards
   * when `up`, leftwards otherwise.
   */
  function PartialShift(v: seq<Letter>, from: int, index: int, up: bool): (w: seq<Letter>)
    requires 0 <= from < |v|
    ensures |w| == |v|
  {
    seq(|v|, k requires 0 <= k < |v| =>
      if k == from then INVISIBLE_LETTER
      else if up && from < k < index then v[k - 1]
      else if !up && index < k < from then v[k + 1]
      else v[k])
  }

  lemma ShiftBegins(v: seq<Letter>, from: int, up: bool)
    requires 0 <= from < |v|
    ensures v[from := INVISIBLE_LETTER] == PartialShift(v, from, if up then from + 1 else from - 1, up)
  {
  }

  lemma ShiftAdvances(v: seq<Letter>, from: int, index: int, up: bool)
    requires 0 <= from < |v| && 0 <= index < |v|
    requires if up then from < index else index < from
    ensures PartialShift(v, from, index, up)[index := if up then v[index - 1] else v[index + 1]] ==
      PartialShift(v, from, if up then index + 1 else index - 1, up)
  {
  }

  lemma ShiftEnds(v: seq<Letter>, from: int, to: int)
    requires 0 <= from < |v| && 0 <= to < |v|
    ensures PartialShift(v, from, if to >= from then to + 1 else to - 1, to >= from) == Shifted(v, from, to)
  {
    ShiftedSpec(v, from, to);
  }

  // ---------------------------------------------------------------------------
  // Recalling tiles

  /** The tiles of the listed cells of b, as they come back to the rack. */
  function RecalledTiles(b: Board, cells: seq<PositionedValue>): (r: seq<Letter>)
    ensures |r| == |cells|
  {
    seq(|cells|, i requires 0 <= i < |cells| => Recalled(b.LetterAt(cells[i].row, cells[i].column)))
  }

  /** The cells of a list of positioned tiles. */
  function Cells(cells: seq<PositionedValue>): set<Cell> {
    set p | p in cells :: (p.row, p.column)
  }

  /** The grid with the listed cells emptied. */
  function ClearCells(g: seq<seq<Letter>>, cells: seq<PositionedValue>): (r: seq<seq<Letter>>)
    ensures |r| == |g| && forall i :: 0 <= i < |g| ==> |r[i]| == |g[i]|
  {
    if cells == [] then g
    else
      var p, g' := cells[|cells| - 1], ClearCells(g, cells[..|cells| - 1]);
      if 0 <= p.row < |g'| && 0 <= p.column < |g'[p.row]| then g'[p.row := g'[p.row][p.column := INVISIBLE_LETTER]]
      else g'
  }

  /** A cell is emptied exactly when it is listed; every other cell keeps its tile. */
  lemma {:induction false} ClearCellsAt(g: seq<seq<Letter>>, cells: seq<PositionedValue>, r: int, c: int)
    requires 0 <= r < |g| && 0 <= c < |g[r]|
    ensures ClearCells(g, cells)[r][c] == if (r, c) in Cells(cells) then INVISIBLE_LETTER else g[r][c]
  {
    if cells != [] {
      var init := cells[..|cells| - 1];
      ClearCellsAt(g, init, r, c);
      assert cells == init + [cells[|cells| - 1]];
      assert Cells(cells) == Cells(init) + {(cells[|cells| - 1].row, cells[|cells| - 1].column)};
    }
  }

  /** How many tiles recallTiles moves: all the placed tiles, or as many as the rack has room for. */
  function RecallCount(rack: seq<Letter>, placed: seq<PositionedValue>): nat {
    if |placed| <= EmptyCount(rack) then |placed| else EmptyCount(rack)
  }

  /** A row-major scan that has reached (row, column) has produced a prefix of the placed tiles. */
  lemma {:induction false} RowUnlockedPrefix(b: Board, r: int, c: nat, c2: nat)
    requires c <= c2
    ensures RowUnlocked(b, r, c) <= RowUnlocked(b, r, c2)
    decreases c2
  {
    if c < c2 {
      RowUnlockedPrefix(b, r, c, c2 - 1);
    }
  }

  lemma {:induction false} UnlockedRowsPrefix(b: Board, n: nat, m: nat)
    requires n <= m
    ensures UnlockedRows(b, n) <= UnlockedRows(b, m)
    decreases m
  {
    if n < m {
      UnlockedRowsPrefix(b, n, m - 1);
    }
  }

  lemma ScanPrefix(b: Board, row: nat, column: nat)
    requires row < b.Rows() && column <= b.Columns()
    ensures UnlockedRows(b, row) + RowUnlocked(b, row, column) <= Unlocked(b)
  {
    RowUnlockedPrefix(b, row, column, b.Columns());
    UnlockedRowsPrefix(b, row + 1, b.Rows());
  }

  /**
   * One tile of recallTiles: tile t goes to the first empty slot k, and the search for
   * the next empty slot may start at k.
   */
  lemma RecallStep(rack0: seq<Letter>, tiles: seq<Letter>, t: Letter, k: nat)
    requires FirstEmpty(Fill(rack0, tiles), 0) == Some(k) && t != INVISIBLE_LETTER
    ensures Fill(rack0, tiles + [t]) == Fill(rack0, tiles)[k := t]
    ensures FirstEmpty(Fill(rack0, tiles)[k := t], k) == FirstEmpty(Fill(rack0, tiles)[k := t], 0)
    ensures EmptyCount(Fill(rack0, tiles)[k := t]) == EmptyCount(Fill(rack0, tiles)) - 1
  {
    var rack := Fill(rack0, tiles);
    FillSnoc(rack0, tiles, t);
    FirstEmptySpec(rack, 0);
    FirstEmptySkip(rack[k := t], 0, k);
    FillingOneSlot(rack, k, t);
  }

  /** The state of recallTiles's scan once the tiles of `done` have been recalled. */
  ghost predicate Recalling(b: Board, rack0: seq<Letter>, done: seq<PositionedValue>,
                            rack: seq<Letter>, letters: seq<seq<Letter>>, rackIndex: Option<nat>)
  {
    && rack == Fill(rack0, RecalledTiles(b, done))
    && letters == ClearCells(b.letters, done)
    && rackIndex == FirstEmpty(rack, 0)
    && EmptyCount(rack) + |done| == EmptyCount(rack0)
  }

  /**
   * The scan stops when the rack is full or every placed tile is back; either way it has
   * recalled the first RecallCount placed tiles.
   */
  lemma RecallFinished(b: Board, rack0: seq<Letter>, done: seq<PositionedValue>,
                       rack: seq<Letter>, letters: seq<seq<Letter>>, rackIndex: Option<nat>)
    requires Recalling(b, rack0, done, rack, letters, rackIndex) && done <= Unlocked(b)
    requires rackIndex.None? || done == Unlocked(b)
    ensures var u := Unlocked(b); var n := RecallCount(rack0, u);
      rack == Fill(rack0, RecalledTiles(b, u[..n])) && letters == ClearCells(b.letters, u[..n])
  {
    var u := Unlocked(b);
    NoEmptySlot(rack);
    assert u[..RecallCount(rack0, u)] == done;
  }

  /**
   * What recallTiles does, stated on the board before it: the first RecallCount placed
   * tiles in row-major order are the ones emptied from the board, no locked cell and no
   * cell outside them changes, all placed tiles come back when the rack has room for
   * them, and the rack gains exactly those tiles in place of as many empty slots.
   */
  lemma RecallSpec(b: Board, rack: seq<Letter>)
    requires IsGrid(b.letters, b.Rows(), b.Columns())
    ensures var u := Unlocked(b); var n := RecallCount(rack, u); var cleared := ClearCells(b.letters, u[..n]);
      && (n == |u| <==> |u| <= EmptyCount(rack))
      && (forall r, c :: 0 <= r < b.Rows() && 0 <= c < b.Columns() ==>
            (cleared[r][c] != b.letters[r][c] <==> (r, c) in Cells(u[..n])))
      && (forall r, c :: (r, c) in Cells(u[..n]) ==> b.Placed(r, c))
      && (forall r, c :: 0 <= r < b.Rows() && 0 <= c < b.Columns() && b.LockedAt(r, c) ==> cleared[r][c] == b.letters[r][c])
      && multiset(Fill(rack, RecalledTiles(b, u[..n]))) + Empties(n) == multiset(rack) + multiset(RecalledTiles(b, u[..n]))
  {
    var u := Unlocked(b);
    var n := RecallCount(rack, u);
    UnlockedSpec(b);
    forall r, c | (r, c) in Cells(u[..n]) ensures b.Placed(r, c) {
      var p :| p in u[..n] && (p.row, p.column) == (r, c);
      assert p in u;
    }
    forall r, c | 0 <= r < b.Rows() && 0 <= c < b.Columns()
      ensures ClearCells(b.letters, u[..n])[r][c] == if (r, c) in Cells(u[..n]) then INVISIBLE_LETTER else b.letters[r][c]
    {
      ClearCellsAt(b.letters, u[..n], r, c);
    }
    var tiles := RecalledTiles(b, u[..n]);
    forall i | 0 <= i < |tiles| ensures tiles[i] != INVISIBLE_LETTER {
      assert u[..n][i] in u;
    }
    FillKeepsTiles(rack, tiles);
  }

  /**
   * Part way through the scan at (row, column) with the tiles of `done` already recalled:
   * the cell is still as it was, and it is placed this turn exactly when the scan lists it.
   */
  lemma RecallScanAt(b: Board, done: seq<PositionedValue>, row: int, column: nat)
    requires IsGrid(b.letters, b.Rows(), b.Columns()) && 0 <= row < b.Rows() && column < b.Columns()
    requires done == UnlockedRows(b, row) + RowUnlocked(b, row, column)
    ensures ClearCells(b.letters, done)[row][column] == b.letters[row][column]
    ensures UnlockedRows(b, row) + RowUnlocked(b, row, column + 1) ==
      done + if b.Placed(row, column) then [Entry(b, row, column)] else []
  {
    UnlockedRowsSpec(b, row);
    RowUnlockedSpec(b, row, column);
    ClearCellsAt(b.letters, done, row, column);
  }

  /** Everything the play space's operations read or write, as one value. */
  datatype State = State(
    boardLetters: seq<seq<Letter>>, locked: seq<seq<bool>>,
    letterMultipliers: seq<seq<int>>, wordMultipliers: seq<seq<int>>,
    gameOver: bool, rackTilesOnBoardCount: int,
    rackLetters: seq<Letter>, rackShuffleState: seq<Letter>,
    showBlankPicker: bool, prevBlankRow: Option<int>, prevBlankColumn: Option<int>,
    showExchangePicker: bool, exchangeChosen: seq<bool>, emptyBagRefreshCount: int)

  // ---------------------------------------------------------------------------
  // Dropping a dragged tile

  /**
   * What tileDropped needs of a drag: rack indices in range, board cells on the board
   * where it reads or writes them, a start cell when a tile that did not come from the
   * rack lands on the board, and a free cell for a tile that lands on the board.
   */
  ghost predicate CanDrop(s: State, start: Position, end: Position) {
    && (start.rackIndex.Some? ==> 0 <= start.rackIndex.value < NUM_RACK_TILES)
    && (end.rackIndex.Some? ==> 0 <= end.rackIndex.value < NUM_RACK_TILES)
    && (OnBoard(end) ==> InGrid((end.boardRow.value, end.boardColumn.value), DEFAULT_ROWS, DEFAULT_COLUMNS))
    && (OnBoard(end) ==> !forall c :: InGrid(c, DEFAULT_ROWS, DEFAULT_COLUMNS) ==> Occupied(s.boardLetters, c))
    && (OnBoard(end) && start.rackIndex.None? ==> OnBoard(start))
    && (OnBoard(start) && (OnBoard(end) || end.rackIndex.Some?) ==>
          InGrid((start.boardRow.value, start.boardColumn.value), DEFAULT_ROWS, DEFAULT_COLUMNS))
  }

  /**
   * The moves of tileDropped, with `at` the free cell found for a tile that lands on
   * the board. A rack tile put on the board empties its slot, counts as a rack tile on
   * the board and, for a blank, toggles the blank picker for that cell; a board tile
   * moved on the board empties its old cell. A tile dropped on a rack slot empties the
   * slot or cell it came from, and a tile back from the board shows its blank face and
   * no longer counts as on the board. A rack tile dropped elsewhere, while the shuffle
   * state holds its slot, goes to the first empty rack slot.
   */
  function Drop(s: State, letter: Letter, start: Position, end: Position, at: Cell): (r: State)
    requires |s.rackLetters| == NUM_RACK_TILES && |s.rackShuffleState| == NUM_RACK_TILES
    requires start.rackIndex.Some? ==> 0 <= start.rackIndex.value < NUM_RACK_TILES
    requires end.rackIndex.Some? ==> 0 <= end.rackIndex.value < NUM_RACK_TILES
    requires OnBoard(end) && start.rackIndex.None? ==> OnBoard(start)
    ensures |r.rackLetters| == NUM_RACK_TILES && r.rackShuffleState == s.rackShuffleState
  {
    if OnBoard(end) then
      var s1 :=
        if start.rackIndex.Some? then
          s.(rackLetters := s.rackLetters[start.rackIndex.value := INVISIBLE_LETTER],
             showBlankPicker := if letter.isBlank then !s.showBlankPicker else s.showBlankPicker,
             prevBlankRow := if letter.isBlank then Some(at.0) else s.prevBlankRow,
             prevBlankColumn := if letter.isBlank then Some(at.1) else s.prevBlankColumn,
             rackTilesOnBoardCount := s.rackTilesOnBoardCount + 1)
        else s.(boardLetters := SetCell(s.boardLetters, start.boardRow.value, start.boardColumn.value, INVISIBLE_LETTER));
      s1.(boardLetters := SetCell(s1.boardLetters, at.0, at.1, letter))
    else if end.rackIndex.Some? then
      var s1 :=
        if start.rackIndex.Some? then
          s.(rackLetters := s.rackLetters[start.rackIndex.value := INVISIBLE_LETTER][end.rackIndex.value := letter])
        else s;
      if OnBoard(start) then
        s1.(boardLetters := SetCell(s1.boardLetters, start.boardRow.value, start.boardColumn.value, INVISIBLE_LETTER),
            rackLetters := s1.rackLetters[end.rackIndex.value := Recalled(letter)],
            rackTilesOnBoardCount := s1.rackTilesOnBoardCount - 1)
      else s1
    else if start.rackIndex.Some? && s.rackShuffleState[start.rackIndex.value] != INVISIBLE_LETTER then
      s.(rackLetters := Fill(s.rackLetters, [letter]))
    else s
  }

  /** The state after tileDropped: Drop, then the shuffle state folded back into the rack and emptied. */
  function Dropped(s: State, letter: Letter, start: Position, end: Position, at: Cell): State
    requires |s.rackLetters| == NUM_RACK_TILES && |s.rackShuffleState| == NUM_RACK_TILES
    requires start.rackIndex.Some? ==> 0 <= start.rackIndex.value < NUM_RACK_TILES
    requires end.rackIndex.Some? ==> 0 <= end.rackIndex.value < NUM_RACK_TILES
    requires OnBoard(end) && start.rackIndex.None? ==> OnBoard(start)
  {
    var s1 := Drop(s, letter, start, end, at);
    s1.(rackLetters := Restored(s1.rackLetters, s1.rackShuffleState), rackShuffleState := EmptyRack())
  }

  /**
   * A tile dropped on the board lands on the free cell `at` and nowhere else; a rack
   * tile adds itself to the board's tiles and counts as on the board, and a board tile
   * moved to `at` leaves the board's tiles as they were. The shuffle state ends empty.
   */
  lemma DropOnBoardSpec(s: State, letter: Letter, start: Position, end: Position, at: Cell)
    requires IsGrid(s.boardLetters, DEFAULT_ROWS, DEFAULT_COLUMNS)
    requires |s.rackLetters| == NUM_RACK_TILES && |s.rackShuffleState| == NUM_RACK_TILES
    requires CanDrop(s, start, end) && OnBoard(end) && letter != INVISIBLE_LETTER
    requires NearestEmpty(s.boardLetters, DEFAULT_ROWS, DEFAULT_COLUMNS, (end.boardRow.value, end.boardColumn.value), at)
    ensures var r := Dropped(s, letter, start, end, at);
      && r.boardLetters[at.0][at.1] == letter
      && r.rackShuffleState == EmptyRack()
      && (start.rackIndex.Some? ==>
            && (forall i, j :: 0 <= i < DEFAULT_ROWS && 0 <= j < DEFAULT_COLUMNS && (i, j) != at ==>
                  r.boardLetters[i][j] == s.boardLetters[i][j])
            && Tiles(r.boardLetters) + multiset{INVISIBLE_LETTER} == Tiles(s.boardLetters) + multiset{letter}
            && r.rackTilesOnBoardCount == s.rackTilesOnBoardCount + 1)
      && (start.rackIndex.None? && letter == s.boardLetters[start.boardRow.value][start.boardColumn.value] ==>
            && (forall i, j :: 0 <= i < DEFAULT_ROWS && 0 <= j < DEFAULT_COLUMNS && (i, j) != at ==>
                  r.boardLetters[i][j] == if (i, j) == (start.boardRow.value, start.boardColumn.value)
                    then INVISIBLE_LETTER else s.boardLetters[i][j])
            && Tiles(r.boardLetters) == Tiles(s.boardLetters)
            && r.rackTilesOnBoardCount == s.rackTilesOnBoardCount)
  {
    if start.rackIndex.Some? {
      DropFromRackOnBoard(s, letter, start, end, at);
    } else if letter == s.boardLetters[start.boardRow.value][start.boardColumn.value] {
      DropFromBoardOnBoard(s, letter, start, end, at);
    }
  }

  lemma DropFromRackOnBoard(s: State, letter: Letter, start: Position, end: Position, at: Cell)
    requires IsGrid(s.boardLetters, DEFAULT_ROWS, DEFAULT_COLUMNS)
    requires |s.rackLetters| == NUM_RACK_TILES && |s.rackShuffleState| == NUM_RACK_TILES
    requires CanDrop(s, start, end) && OnBoard(end) && start.rackIndex.Some?
    requires InGrid(at, DEFAULT_ROWS, DEFAULT_COLUMNS)
    ensures var b := Dropped(s, letter, start, end, at).boardLetters;
      && b == SetCell(s.boardLetters, at.0, at.1, letter)
      && Tiles(b) + multiset{s.boardLetters[at.0][at.1]} == Tiles(s.boardLetters) + multiset{letter}
      && Dropped(s, letter, start, end, at).rackTilesOnBoardCount == s.rackTilesOnBoardCount + 1
  {
    SetCellTiles(s.boardLetters, at.0, at.1, letter);
  }

  lemma DropFromBoardOnBoard(s: State, letter: Letter, start: Position, end: Position, at: Cell)
    requires IsGrid(s.boardLetters, DEFAULT_ROWS, DEFAULT_COLUMNS)
    requires |s.rackLetters| == NUM_RACK_TILES && |s.rackShuffleState| == NUM_RACK_TILES
    requires CanDrop(s, start, end) && OnBoard(end) && start.rackIndex.None? && letter != INVISIBLE_LETTER
    requires letter == s.boardLetters[start.boardRow.value][start.boardColumn.value]
    requires InGrid(at, DEFAULT_ROWS, DEFAULT_COLUMNS) && s.boardLetters[at.0][at.1] == INVISIBLE_LETTER
    ensures var b := Dropped(s, letter, start, end, at).boardLetters;
      && b == SetCell(SetCell(s.boardLetters, start.boardRow.value, start.boardColumn.value, INVISIBLE_LETTER), at.0, at.1, letter)
      && Tiles(b) == Tiles(s.boardLetters)
      && Dropped(s, letter, start, end, at).rackTilesOnBoardCount == s.rackTilesOnBoardCount
  {
    MoveKeepsTiles(s.boardLetters, (start.boardRow.value, start.boardColumn.value), at);
  }

  /**
   * A board tile dropped on a rack slot leaves its cell empty, drops out of the board's
   * tiles and no longer counts as on the board; the slot shows its blank face, unless
   * the shuffle state held that slot.
   */
  lemma DropOnRackSpec(s: State, letter: Letter, start: Position, end: Position, at: Cell)
    requires IsGrid(s.boardLetters, DEFAULT_ROWS, DEFAULT_COLUMNS)
    requires |s.rackLetters| == NUM_RACK_TILES && |s.rackShuffleState| == NUM_RACK_TILES
    requires CanDrop(s, start, end) && !OnBoard(end) && end.rackIndex.Some? && OnBoard(start) && start.rackIndex.None?
    requires letter == s.boardLetters[start.boardRow.value][start.boardColumn.value]
    ensures var r := Dropped(s, letter, start, end, at); var k := end.rackIndex.value;
      && r.boardLetters[start.boardRow.value][start.boardColumn.value] == INVISIBLE_LETTER
      && Tiles(r.boardLetters) + multiset{letter} == Tiles(s.boardLetters) + multiset{INVISIBLE_LETTER}
      && r.rackTilesOnBoardCount == s.rackTilesOnBoardCount - 1
      && r.rackLetters[k] == (if s.rackShuffleState[k] != INVISIBLE_LETTER then s.rackShuffleState[k] else Recalled(letter))
  {
    SetCellTiles(s.boardLetters, start.boardRow.value, start.boardColumn.value, INVISIBLE_LETTER);
  }

  /** A tile dropped off the board leaves the board, and the count of rack tiles on it, alone. */
  lemma DropOffBoardSpec(s: State, letter: Letter, start: Position, end: Position, at: Cell)
    requires |s.rackLetters| == NUM_RACK_TILES && |s.rackShuffleState| == NUM_RACK_TILES
    requires CanDrop(s, start, end) && !OnBoard(end) && !OnBoard(start)
    ensures var r := Dropped(s, letter, start, end, at);
      r.boardLetters == s.boardLetters && r.rackTilesOnBoardCount == s.rackTilesOnBoardCount
  {
  }

  /** A cleared board holds no tile placed this turn: there is nothing to recall or play, and it scores 0. */
  lemma ClearedBoardEmpty(rows: nat, columns: nat)
    ensures var b := Board(Grid(rows, columns, INVISIBLE_LETTER), Grid(rows, columns, false),
                           Grid(rows, columns, 1), Grid(rows, columns, 1));
      Unlocked(b) == [] && Score(b) == Some(0)
  {
    var b := Board(Grid(rows, columns, INVISIBLE_LETTER), Grid(rows, columns, false),
                   Grid(rows, columns, 1), Grid(rows, columns, 1));
    assert forall r, c :: !b.Placed(r, c);
    NothingPlacedRows(b, b.Rows());
  }

  /** A scan over rows in which no tile was placed collects nothing. */
  lemma {:induction false} NothingPlacedRows(b: Board, n: nat)
    requires forall r, c :: !b.Placed(r, c)
    ensures UnlockedRows(b, n) == []
  {
    if n > 0 {
      NothingPlacedRows(b, n - 1);
      NothingPlacedRow(b, n - 1, b.Columns());
    }
  }

  lemma {:induction false} NothingPlacedRow(b: Board, r: int, c: nat)
    requires forall k :: !b.Placed(r, k)
    ensures RowUnlocked(b, r, c) == []
  {
    if c > 0 {
      NothingPlacedRow(b, r, c - 1);
    }
  }

  /** A cleared rack has room for a full rack of tiles: the first free slot is slot 0. */
  lemma ClearedRackRoom()
    ensures EmptyCount(EmptyRack()) == NUM_RACK_TILES
    ensures FirstEmpty(EmptyRack(), 0) == Some(0)
  {
    FirstEmptySpec(EmptyRack(), 0);
    AllEmptyRank(EmptyRack(), NUM_RACK_TILES);
  }

  lemma {:induction false} AllEmptyRank(rack: seq<Letter>, k: nat)
    requires k <= |rack| && forall j :: 0 <= j < |rack| ==> rack[j] == INVISIBLE_LETTER
    ensures Rank(rack, k) == k
  {
    if k > 0 {
      AllEmptyRank(rack, k - 1);
    }
  }

  class PlaySpace {
    const numBoardRows: nat := DEFAULT_ROWS
    const numBoardColumns: nat := DEFAULT_COLUMNS

    var boardLetters: seq<seq<Letter>>
    var locked: seq<seq<bool>>
    var letterMultipliers: seq<seq<int>>
    var wordMultipliers: seq<seq<int>>
    var gameOver: bool

    /** How many rack tiles sit on the board this turn. */
    var rackTilesOnBoardCount: int
    var rackLetters: seq<Letter>
    /** The slot a dragged rack tile came from keeps the tile here while it is dragged. */
    var rackShuffleState: seq<Letter>

    var showBlankPicker: bool
    /** The cell of the blank whose letter the blank picker will set. */
    var prevBlankRow: Option<int>
    var prevBlankColumn: Option<int>

    var showExchangePicker: bool
    var exchangeChosen: seq<bool>

    var emptyBagRefreshCount: int

    /** The four grids have the board's dimensions and the three rack arrays have seven slots. */
    ghost predicate Valid()
      reads this
    {
      && IsGrid(boardLetters, numBoardRows, numBoardColumns)
      && IsGrid(locked, numBoardRows, numBoardColumns)
      && IsGrid(letterMultipliers, numBoardRows, numBoardColumns)
      && IsGrid(wordMultipliers, numBoardRows, numBoardColumns)
      && |rackLetters| == NUM_RACK_TILES
      && |rackShuffleState| == NUM_RACK_TILES
      && |exchangeChosen| == NUM_RACK_TILES
    }

    function Snapshot(): State
      reads this
    {
      State(boardLetters, locked, letterMultipliers, wordMultipliers, gameOver, rackTilesOnBoardCount,
            rackLetters, rackShuffleState, showBlankPicker, prevBlankRow, prevBlankColumn,
            showExchangePicker, exchangeChosen, emptyBagRefreshCount)
    }

    /** The board as the scoring engine sees it. */
    function BoardState(): Board
      reads this
    {
      Board(boardLetters, locked, letterMultipliers, wordMultipliers)
    }

    /** A new play space: an empty board without multipliers, an empty rack, no picker shown. */
    constructor ()
      ensures Valid()
      ensures Snapshot() == State(
        Grid(DEFAULT_ROWS, DEFAULT_COLUMNS, INVISIBLE_LETTER), Grid(DEFAULT_ROWS, DEFAULT_COLUMNS, false),
        Grid(DEFAULT_ROWS, DEFAULT_COLUMNS, 1), Grid(DEFAULT_ROWS, DEFAULT_COLUMNS, 1),
        false, 0, EmptyRack(), EmptyRack(), false, None, None, false, seq(NUM_RACK_TILES, _ => false), 0)
    {
      boardLetters := Grid(DEFAULT_ROWS, DEFAULT_COLUMNS, INVISIBLE_LETTER);
      locked := Grid(DEFAULT_ROWS, DEFAULT_COLUMNS, false);
      letterMultipliers := Grid(DEFAULT_ROWS, DEFAULT_COLUMNS, 1);
      wordMultipliers := Grid(DEFAULT_ROWS, DEFAULT_COLUMNS, 1);
      gameOver := false;
      rackTilesOnBoardCount := 0;
      rackLetters := EmptyRack();
      rackShuffleState := EmptyRack();
      showBlankPicker := false;
      prevBlankRow := None;
      prevBlankColumn := None;
      showExchangePicker := false;
      exchangeChosen := seq(NUM_RACK_TILES, _ => false);
      emptyBagRefreshCount := 0;
    }

    // -------------------------------------------------------------------------
    // Turns

    /** chooseTileForExchange: toggle whether the tile in a slot is to be exchanged. */
    method ChooseTileForExchange(index: int)
      requires Valid() && 0 <= index < NUM_RACK_TILES
      modifies this
      ensures Valid()
      ensures Snapshot() == old(Snapshot()).(exchangeChosen := old(exchangeChosen)[index := !old(exchangeChosen)[index]])
    {
      exchangeChosen := exchangeChosen[index := !exchangeChosen[index]];
    }

    /**
     * confirmExchangeRequest: the exchange turn lists the chosen rack tiles; afterwards
     * the exchange picker is closed and no tile is chosen any more.
     */
    method ExchangeTurn() returns (tiles: seq<PlayedTile>)
      requires Valid()
      modifies this
      ensures Valid()
      ensures tiles == ExchangeTiles(old(rackLetters), old(exchangeChosen))
      ensures Snapshot() == old(Snapshot()).(showExchangePicker := false, exchangeChosen := seq(NUM_RACK_TILES, _ => false))
    {
      tiles := [];
      for rackIndex := 0 to NUM_RACK_TILES
        invariant tiles == ExchangeTiles(rackLetters[..rackIndex], exchangeChosen[..rackIndex])
      {
        assert rackLetters[..rackIndex + 1][..rackIndex] == rackLetters[..rackIndex];
        assert exchangeChosen[..rackIndex + 1][..rackIndex] == exchangeChosen[..rackIndex];
        if exchangeChosen[rackIndex] {
          var currLetter := rackLetters[rackIndex];
          tiles := tiles + [ExchangeTile(currLetter)];
        }
      }
      assert rackLetters[..NUM_RACK_TILES] == rackLetters && exchangeChosen[..NUM_RACK_TILES] == exchangeChosen;
      showExchangePicker := false;
      var chosen := exchangeChosen;
      for rackIndex := 0 to NUM_RACK_TILES
        invariant |chosen| == NUM_RACK_TILES && forall k :: 0 <= k < rackIndex ==> !chosen[k]
      {
        chosen := chosen[rackIndex := false];
      }
      assert chosen == seq(NUM_RACK_TILES, _ => false);
      exchangeChosen := chosen;
    }

    /** confirmPlayRequest: the play turn lists the tiles placed this turn, scanning rows then columns. */
    method PlayTurn() returns (tiles: seq<PlayedTile>)
      requires Valid()
      ensures tiles == PlayTiles(BoardState(), Unlocked(BoardState()))
    {
      ghost var b := BoardState();
      assert b.Rows() == numBoardRows && b.Columns() == numBoardColumns;
      tiles := [];
      for row := 0 to numBoardRows
        invariant tiles == PlayTiles(b, UnlockedRows(b, row))
      {
        assert UnlockedRows(b, row) + RowUnlocked(b, row, 0) == UnlockedRows(b, row);
        for column := 0 to numBoardColumns
          invariant tiles == PlayTiles(b, UnlockedRows(b, row) + RowUnlocked(b, row, column))
        {
          ghost var done := UnlockedRows(b, row) + RowUnlocked(b, row, column);
          ghost var next := UnlockedRows(b, row) + RowUnlocked(b, row, column + 1);
          assert b.Placed(row, column) <==> !locked[row][column] && boardLetters[row][column] != INVISIBLE_LETTER;
          if !locked[row][column] && boardLetters[row][column] != INVISIBLE_LETTER {
            var currLetter := boardLetters[row][column];
            assert currLetter == b.LetterAt(row, column);
            tiles := tiles + [PlayTile(currLetter, row, column)];
            assert next == done + [Entry(b, row, column)];
            assert next[..|done|] == done;
          } else {
            assert next == done;
          }
        }
        assert UnlockedRows(b, row + 1) == UnlockedRows(b, row) + RowUnlocked(b, row, numBoardColumns);
      }
    }

    // -------------------------------------------------------------------------
    // The rack

    /**
     * shuffleTiles: the rack is rearranged by a permutation of its slots, drawn from
     * `draws` (the random choices, one per slot).
     */
    method ShuffleTiles(draws: seq<int>)
      requires Valid() && |draws| == NUM_RACK_TILES && ValidDraws(NUM_RACK_TILES, draws)
      modifies this
      ensures Valid()
      ensures Snapshot() == old(Snapshot()).(rackLetters := Shuffle(old(rackLetters), draws))
    {
      var order := Permutation(NUM_RACK_TILES, draws);
      var copy: seq<Letter> := [];
      for index := 0 to NUM_RACK_TILES
        invariant copy == rackLetters[..index]
      {
        copy := copy + [rackLetters[index]];
      }
      assert copy == rackLetters;
      ShuffleIsReindexing(copy, draws);
      var rack := rackLetters;
      for index := 0 to NUM_RACK_TILES
        invariant |rack| == NUM_RACK_TILES
        invariant forall k :: 0 <= k < index ==> rack[k] == copy[order[k]]
      {
        rack := rack[index := copy[order[index]]];
      }
      assert rack == Shuffle(copy, draws);
      rackLetters := rack;
    }

    /**
     * recallTiles: the tiles placed this turn go back, in row-major order, to the empty
     * rack slots in increasing order, a blank showing its blank face again, until the
     * rack is full; their cells are emptied and no rack tile is left on the board.
     */
    method RecallTiles()
      requires Valid()
      modifies this
      ensures Valid()
      ensures var b := old(BoardState()); var u := Unlocked(b); var n := RecallCount(old(rackLetters), u);
        Snapshot() == old(Snapshot()).(
          rackLetters := Fill(old(rackLetters), RecalledTiles(b, u[..n])),
          boardLetters := ClearCells(old(boardLetters), u[..n]),
          rackTilesOnBoardCount := 0)
    {
      var rack, letters := RecallScan(BoardState(), rackLetters);
      rackLetters, boardLetters := rack, letters;
      rackTilesOnBoardCount := 0;
    }

    /** The scan of recallTiles over a copy of the board and of the rack. */
    static method RecallScan(b: Board, rack0: seq<Letter>) returns (rack: seq<Letter>, letters: seq<seq<Letter>>)
      requires IsGrid(b.letters, DEFAULT_ROWS, DEFAULT_COLUMNS) && IsGrid(b.locked, DEFAULT_ROWS, DEFAULT_COLUMNS)
      requires |rack0| == NUM_RACK_TILES
      ensures var u := Unlocked(b); var n := RecallCount(rack0, u);
        rack == Fill(rack0, RecalledTiles(b, u[..n])) && letters == ClearCells(b.letters, u[..n])
    {
      rack, letters := rack0, b.letters;
      var rackIndex := EmptySlotFrom(rack, 0);
      ghost var done: seq<PositionedValue> := [];
      assert RecalledTiles(b, done) == [];
      if rackIndex == None {
        RecallFinished(b, rack0, done, rack, letters, rackIndex);
        return;
      }
      for row := 0 to DEFAULT_ROWS
        invariant done == UnlockedRows(b, row)
        invariant Recalling(b, rack0, done, rack, letters, rackIndex) && rackIndex.Some?
      {
        rack, letters, rackIndex, done := RecallRow(b, rack0, row, done, rack, letters, rackIndex);
        if rackIndex == None {
          RecallFinished(b, rack0, done, rack, letters, rackIndex);
          return;
        }
      }
      RecallFinished(b, rack0, done, rack, letters, rackIndex);
    }

    /**
     * One row of recallTiles's scan, left to right; it stops early, with no empty slot
     * left, once the rack is full.
     */
    static method RecallRow(b: Board, ghost rack0: seq<Letter>, row: nat, ghost doneIn: seq<PositionedValue>,
                            rackIn: seq<Letter>, lettersIn: seq<seq<Letter>>, indexIn: Option<nat>)
      returns (rack: seq<Letter>, letters: seq<seq<Letter>>, rackIndex: Option<nat>, ghost done: seq<PositionedValue>)
      requires IsGrid(b.letters, DEFAULT_ROWS, DEFAULT_COLUMNS) && IsGrid(b.locked, DEFAULT_ROWS, DEFAULT_COLUMNS)
      requires |rack0| == NUM_RACK_TILES && row < DEFAULT_ROWS
      requires doneIn == UnlockedRows(b, row)
      requires Recalling(b, rack0, doneIn, rackIn, lettersIn, indexIn) && indexIn.Some?
      ensures Recalling(b, rack0, done, rack, letters, rackIndex) && done <= Unlocked(b)
      ensures rackIndex.Some? ==> done == UnlockedRows(b, row + 1)
    {
      rack, letters, rackIndex, done := rackIn, lettersIn, indexIn, doneIn;
      assert done + RowUnlocked(b, row, 0) == done;
      for column := 0 to DEFAULT_COLUMNS
        invariant done == UnlockedRows(b, row) + RowUnlocked(b, row, column)
        invariant Recalling(b, rack0, done, rack, letters, rackIndex) && rackIndex.Some?
      {
        rack, letters, rackIndex, done := RecallCell(b, rack0, row, column, done, rack, letters, rackIndex);
        if rackIndex == None {
          ScanPrefix(b, row, column + 1);
          return;
        }
      }
      ScanPrefix(b, row, DEFAULT_COLUMNS);
      assert UnlockedRows(b, row + 1) == UnlockedRows(b, row) + RowUnlocked(b, row, DEFAULT_COLUMNS);
    }

    /**
     * One cell of recallTiles's scan: a tile placed this turn goes to the first empty
     * slot (a blank showing its blank face again) and its cell is emptied, after which
     * the next empty slot is looked for from that slot on.
     */
    static method RecallCell(b: Board, ghost rack0: seq<Letter>, row: nat, column: nat, ghost done: seq<PositionedValue>,
                             rack: seq<Letter>, letters: seq<seq<Letter>>, rackIndex: Option<nat>)
      returns (rack': seq<Letter>, letters': seq<seq<Letter>>, rackIndex': Option<nat>, ghost done': seq<PositionedValue>)
      requires IsGrid(b.letters, DEFAULT_ROWS, DEFAULT_COLUMNS) && IsGrid(b.locked, DEFAULT_ROWS, DEFAULT_COLUMNS)
      requires |rack0| == NUM_RACK_TILES && row < DEFAULT_ROWS && column < DEFAULT_COLUMNS
      requires done == UnlockedRows(b, row) + RowUnlocked(b, row, column)
      requires Recalling(b, rack0, done, rack, letters, rackIndex) && rackIndex.Some?
      ensures done' == UnlockedRows(b, row) + RowUnlocked(b, row, column + 1)
      ensures Recalling(b, rack0, done', rack', letters', rackIndex')
    {
      RecallScanAt(b, done, row, column);
      rack', letters', rackIndex', done' := rack, letters, rackIndex, done;
      if !b.locked[row][column] && letters[row][column] != INVISIBLE_LETTER {
        var modifiedLetter := letters[row][column];
        if modifiedLetter.isBlank {
          modifiedLetter := Letter(BLANK, true, modifiedLetter.value);
        }
        assert modifiedLetter == Recalled(b.LetterAt(row, column));
        var k := rackIndex.value;
        RecallStep(rack0, RecalledTiles(b, done), modifiedLetter, k);
        assert RecalledTiles(b, done + [Entry(b, row, column)]) == RecalledTiles(b, done) + [modifiedLetter];
        rack' := rack[k := modifiedLetter];
        letters' := letters[row := letters[row][column := INVISIBLE_LETTER]];
        assert (done + [Entry(b, row, column)])[..|done|] == done;
        done' := done + [Entry(b, row, column)];
        rackIndex' := EmptySlotFrom(rack', k);
      }
    }

    /** nextEmptyRackIndex: the first empty slot at or after start, if any. */
    method NextEmptyRackIndex(start: int) returns (r: Option<nat>)
      requires Valid() && start >= 0
      ensures r == FirstEmpty(rackLetters, start)
    {
      r := EmptySlotFrom(rackLetters, start);
    }

    /** The loop of nextEmptyRackIndex over a copy of the rack. */
    static method EmptySlotFrom(rack: seq<Letter>, start: int) returns (r: Option<nat>)
      requires |rack| == NUM_RACK_TILES && start >= 0
      ensures r == FirstEmpty(rack, start)
    {
      var rackIndex := start;
      while rackIndex < NUM_RACK_TILES && rack[rackIndex] != INVISIBLE_LETTER
        invariant start <= rackIndex
        invariant FirstEmpty(rack, rackIndex) == FirstEmpty(rack, start)
        decreases NUM_RACK_TILES - rackIndex
      {
        rackIndex := rackIndex + 1;
      }
      if rackIndex >= NUM_RACK_TILES {
        return None;
      }
      return Some(rackIndex);
    }

    /**
     * nearestRackEmpty: the empty slot nearest newIndex, trying newIndex + delta before
     * newIndex - delta for delta = 0, 1, ..., reading the slot a tile is dragged from in
     * the shuffle state; -1 when every slot is full.
     */
    method NearestRackEmpty(newIndex: int, originalIndex: Option<int>) returns (r: int)
      requires Valid() && 0 <= newIndex < NUM_RACK_TILES
      ensures r == Nearest(View(rackLetters, rackShuffleState, originalIndex), newIndex, 0)
    {
      ghost var v := View(rackLetters, rackShuffleState, originalIndex);
      for delta := 0 to NUM_RACK_TILES
        invariant Nearest(v, newIndex, delta) == Nearest(v, newIndex, 0)
      {
        if newIndex + delta < NUM_RACK_TILES {
          if Some(newIndex + delta) == originalIndex {
            if rackShuffleState[newIndex + delta] == INVISIBLE_LETTER {
              return newIndex + delta;
            }
          } else {
            if rackLetters[newIndex + delta] == INVISIBLE_LETTER {
              return newIndex + delta;
            }
          }
        }
        if newIndex - delta >= 0 {
          if Some(newIndex - delta) == originalIndex {
            if rackShuffleState[newIndex - delta] == INVISIBLE_LETTER {
              return newIndex - delta;
            }
          } else {
            if rackLetters[newIndex - delta] == INVISIBLE_LETTER {
              return newIndex - delta;
            }
          }
        }
      }
      return -1;
    }

    /**
     * nearestBoardEmpty: a breadth-first search from the target over the board, taking
     * neighbours in the order down, right, up, left, with a queue of rows and a queue of
     * columns. The result is an empty cell no further from the target than any other
     * empty cell (the target itself when it is empty), or (-1, -1) when every cell holds
     * a tile.
     */
    method NearestBoardEmpty(targetRow: int, targetColumn: int) returns (r: Cell)
      requires Valid() && InGrid((targetRow, targetColumn), numBoardRows, numBoardColumns)
      ensures r == (-1, -1) <==> forall c :: InGrid(c, numBoardRows, numBoardColumns) ==> Occupied(boardLetters, c)
      ensures r != (-1, -1) ==> NearestEmpty(boardLetters, numBoardRows, numBoardColumns, (targetRow, targetColumn), r)
      ensures !Occupied(boardLetters, (targetRow, targetColumn)) ==> r == (targetRow, targetColumn)
    {
      ghost var t := (targetRow, targetColumn);
      var vis := seq(numBoardRows, _ => seq(numBoardColumns, _ => false));
      var rowQueue := new IntQueue(numBoardRows * numBoardColumns);
      var columnQueue := new IntQueue(numBoardRows * numBoardColumns);
      rowQueue.Offer(targetRow);
      columnQueue.Offer(targetColumn);
      vis := vis[targetRow := vis[targetRow][targetColumn := true]];
      ghost var order := [t];
      ghost var p: nat := 0;
      SearchBegins(boardLetters, numBoardRows, numBoardColumns, t, vis);
      while rowQueue.GetSize() > 0
        invariant Searching(boardLetters, numBoardRows, numBoardColumns, t, order, p, vis)
        invariant |order| <= numBoardRows * numBoardColumns
        invariant rowQueue.maxSize == numBoardRows * numBoardColumns == columnQueue.maxSize
        invariant rowQueue.Valid() && columnQueue.Valid() && rowQueue.q != columnQueue.q
        invariant fresh(rowQueue) && fresh(rowQueue.q) && fresh(columnQueue) && fresh(columnQueue.q)
        invariant rowQueue.contents == RowsOf(order[p..]) && columnQueue.contents == ColumnsOf(order[p..])
        decreases numBoardRows * numBoardColumns - p
      {
        var found;
        found, vis, order := TakeCell(boardLetters, t, vis, rowQueue, columnQueue, order, p);
        if found.Some? {
          return found.value;
        }
        p := p + 1;
      }
      SearchExhausted(boardLetters, numBoardRows, numBoardColumns, t, order, vis);
      return (-1, -1);
    }

    /**
     * One pass of nearestBoardEmpty's search loop: take the next cell from the queues;
     * it is the answer when it is empty, and otherwise its neighbours are tried.
     */
    static method TakeCell(letters: seq<seq<Letter>>, ghost t: Cell, vis0: seq<seq<bool>>,
                           rowQueue: IntQueue, columnQueue: IntQueue, ghost order0: seq<Cell>, ghost p: nat)
      returns (found: Option<Cell>, vis: seq<seq<bool>>, ghost order: seq<Cell>)
      requires Searching(letters, DEFAULT_ROWS, DEFAULT_COLUMNS, t, order0, p, vis0) && p < |order0|
      requires |order0| <= DEFAULT_ROWS * DEFAULT_COLUMNS
      requires rowQueue.maxSize == DEFAULT_ROWS * DEFAULT_COLUMNS == columnQueue.maxSize
      requires rowQueue.Valid() && columnQueue.Valid() && rowQueue.q != columnQueue.q
      requires rowQueue.contents == RowsOf(order0[p..]) && columnQueue.contents == ColumnsOf(order0[p..])
      modifies rowQueue, rowQueue.q, columnQueue, columnQueue.q
      ensures found.Some? ==> found.value == order0[p] && InGrid(found.value, DEFAULT_ROWS, DEFAULT_COLUMNS)
      ensures found.Some? ==> !Occupied(letters, found.value) && forall c ::
        (InGrid(c, DEFAULT_ROWS, DEFAULT_COLUMNS) && Dist(c, t) < Dist(found.value, t)) ==> Occupied(letters, c)
      ensures found.None? ==> Searching(letters, DEFAULT_ROWS, DEFAULT_COLUMNS, t, order, p + 1, vis)
      ensures found.None? ==> |order| <= DEFAULT_ROWS * DEFAULT_COLUMNS
      ensures rowQueue.Valid() && columnQueue.Valid()
      ensures found.None? ==> rowQueue.contents == RowsOf(order[p + 1..]) && columnQueue.contents == ColumnsOf(order[p + 1..])
    {
      vis, order := vis0, order0;
      var polledRow := rowQueue.Poll();
      var polledColumn := columnQueue.Poll();
      var currRow, currColumn := polledRow.value, polledColumn.value;
      assert (currRow, currColumn) == order[p];
      if letters[currRow][currColumn] == INVISIBLE_LETTER {
        SearchFound(letters, DEFAULT_ROWS, DEFAULT_COLUMNS, t, order, p, vis);
        return Some((currRow, currColumn)), vis, order;
      }
      ExpandBegins(letters, DEFAULT_ROWS, DEFAULT_COLUMNS, t, order, p, vis);
      assert rowQueue.contents == RowsOf(order[p + 1..]) && columnQueue.contents == ColumnsOf(order[p + 1..]);
      vis, order := TryNeighbours(letters, t, currRow, currColumn, vis, rowQueue, columnQueue, order, p);
      ExpandEnds(letters, DEFAULT_ROWS, DEFAULT_COLUMNS, t, order, p, vis);
      found := None;
    }

    /**
     * The neighbour loop of nearestBoardEmpty: each neighbour of (currRow, currColumn)
     * that is on the board and not yet marked is marked and offered to both queues.
     */
    static method TryNeighbours(letters: seq<seq<Letter>>, ghost t: Cell, currRow: int, currColumn: int,
                                vis0: seq<seq<bool>>, rowQueue: IntQueue, columnQueue: IntQueue,
                                ghost order0: seq<Cell>, ghost p: nat)
      returns (vis: seq<seq<bool>>, ghost order: seq<Cell>)
      requires Expanding(letters, DEFAULT_ROWS, DEFAULT_COLUMNS, t, order0, p, vis0, 0)
      requires order0[p] == (currRow, currColumn) && |order0| <= DEFAULT_ROWS * DEFAULT_COLUMNS
      requires rowQueue.maxSize == DEFAULT_ROWS * DEFAULT_COLUMNS == columnQueue.maxSize
      requires rowQueue.Valid() && columnQueue.Valid() && rowQueue.q != columnQueue.q
      requires rowQueue.contents == RowsOf(order0[p + 1..]) && columnQueue.contents == ColumnsOf(order0[p + 1..])
      modifies rowQueue, rowQueue.q, columnQueue, columnQueue.q
      ensures Expanding(letters, DEFAULT_ROWS, DEFAULT_COLUMNS, t, order, p, vis, 4)
      ensures |order| <= DEFAULT_ROWS * DEFAULT_COLUMNS
      ensures rowQueue.Valid() && columnQueue.Valid()
      ensures rowQueue.contents == RowsOf(order[p + 1..]) && columnQueue.contents == ColumnsOf(order[p + 1..])
    {
      vis, order := vis0, order0;
      for index := 0 to 4
        invariant Expanding(letters, DEFAULT_ROWS, DEFAULT_COLUMNS, t, order, p, vis, index)
        invariant order[p] == (currRow, currColumn)
        invariant |order| <= DEFAULT_ROWS * DEFAULT_COLUMNS
        invariant rowQueue.Valid() && columnQueue.Valid()
        invariant rowQueue.contents == RowsOf(order[p + 1..]) && columnQueue.contents == ColumnsOf(order[p + 1..])
      {
        vis, order := TryNeighbour(letters, t, currRow, currColumn, index, vis, rowQueue, columnQueue, order, p);
      }
    }

    /** One pass of the neighbour loop, for neighbour `index` of (currRow, currColumn). */
    static method TryNeighbour(letters: seq<seq<Letter>>, ghost t: Cell, currRow: int, currColumn: int, index: int,
                               vis0: seq<seq<bool>>, rowQueue: IntQueue, columnQueue: IntQueue,
                               ghost order0: seq<Cell>, ghost p: nat)
      returns (vis: seq<seq<bool>>, ghost order: seq<Cell>)
      requires Expanding(letters, DEFAULT_ROWS, DEFAULT_COLUMNS, t, order0, p, vis0, index) && 0 <= index < 4
      requires order0[p] == (currRow, currColumn) && |order0| <= DEFAULT_ROWS * DEFAULT_COLUMNS
      requires rowQueue.maxSize == DEFAULT_ROWS * DEFAULT_COLUMNS == columnQueue.maxSize
      requires rowQueue.Valid() && columnQueue.Valid() && rowQueue.q != columnQueue.q
      requires rowQueue.contents == RowsOf(order0[p + 1..]) && columnQueue.contents == ColumnsOf(order0[p + 1..])
      modifies rowQueue, rowQueue.q, columnQueue, columnQueue.q
      ensures Expanding(letters, DEFAULT_ROWS, DEFAULT_COLUMNS, t, order, p, vis, index + 1)
      ensures order[p] == order0[p] && |order| <= DEFAULT_ROWS * DEFAULT_COLUMNS
      ensures rowQueue.Valid() && columnQueue.Valid()
      ensures rowQueue.contents == RowsOf(order[p + 1..]) && columnQueue.contents == ColumnsOf(order[p + 1..])
    {
      var dr := [1, 0, -1, 0];
      var dc := [0, 1, 0, -1];
      var nextRow := currRow + dr[index];
      var nextColumn := currColumn + dc[index];
      NeighbourOffsets(order0[p], index);
      ExpandStep(letters, DEFAULT_ROWS, DEFAULT_COLUMNS, t, order0, p, vis0, index);
      vis, order := vis0, order0;
      if nextRow < 0 || nextRow >= DEFAULT_ROWS || nextColumn < 0 || nextColumn >= DEFAULT_COLUMNS {
        return;
      }
      if !vis[nextRow][nextColumn] {
        vis := vis[nextRow := vis[nextRow][nextColumn := true]];
        rowQueue.Offer(nextRow);
        columnQueue.Offer(nextColumn);
        QueuedAppend(order, p, (nextRow, nextColumn));
        order := order + [(nextRow, nextColumn)];
      }
    }

    /**
     * setDragIndex: write a slot of the rack as the drag logic sees it (the shuffle state
     * for the slot the tile came from, the rack otherwise).
     */
    method SetDragIndex(index: int, originalIndex: Option<int>, letter: Letter)
      requires Valid() && 0 <= index < NUM_RACK_TILES
      modifies this
      ensures Valid()
      ensures var w := WriteDrag(old(rackLetters), old(rackShuffleState), index, originalIndex, letter);
        Snapshot() == old(Snapshot()).(rackLetters := w.0, rackShuffleState := w.1)
    {
      if originalIndex.Some? && index == originalIndex.value {
        rackShuffleState := rackShuffleState[index := letter];
      } else {
        rackLetters := rackLetters[index := letter];
      }
    }

    /**
     * shiftRack: make room at newIndex by moving the tiles between it and the nearest
     * empty slot one step towards that slot. The slots the view does not show (the
     * shuffle state away from the dragged tile's slot, the rack at that slot) keep their
     * contents. Without an empty slot the stride runs on to index -1 and the source
     * traps; then shifted is false and the state is unchanged.
     */
    method ShiftRack(newIndex: int, originalIndex: Option<int>) returns (shifted: bool)
      requires Valid() && 0 <= newIndex < NUM_RACK_TILES
      modifies this
      ensures Valid()
      ensures shifted <==> old(Nearest(View(rackLetters, rackShuffleState, originalIndex), newIndex, 0)) != -1
      ensures !shifted ==> Snapshot() == old(Snapshot())
      ensures shifted ==>
        View(rackLetters, rackShuffleState, originalIndex) ==
          Shifted(old(View(rackLetters, rackShuffleState, originalIndex)), newIndex,
                  old(Nearest(View(rackLetters, rackShuffleState, originalIndex), newIndex, 0)))
      ensures forall k :: 0 <= k < NUM_RACK_TILES && originalIndex != Some(k) ==> rackShuffleState[k] == old(rackShuffleState[k])
      ensures forall k :: 0 <= k < NUM_RACK_TILES && originalIndex == Some(k) ==> rackLetters[k] == old(rackLetters[k])
      ensures Snapshot() == old(Snapshot()).(rackLetters := rackLetters, rackShuffleState := rackShuffleState)
    {
      ghost var v0 := View(rackLetters, rackShuffleState, originalIndex);
      NearestSpec(v0, newIndex);
      var nearestEmptyIndex := NearestRackEmpty(newIndex, originalIndex);
      if nearestEmptyIndex == -1 {
        return false;
      }
      var start := newIndex + 1;
      var end := nearestEmptyIndex;
      var step := 1;
      if newIndex > nearestEmptyIndex {
        start := newIndex - 1;
        step := -1;
      }
      var rack, shuffle := rackLetters, rackShuffleState;
      var prevLetter := DragSlot(rack, shuffle, newIndex, originalIndex);
      var w := WriteDrag(rack, shuffle, newIndex, originalIndex, INVISIBLE_LETTER);
      ShiftBegins(v0, newIndex, step == 1);
      rack, shuffle := StrideShift(w.0, w.1, originalIndex, newIndex, start, end, step, prevLetter, v0);
      ShiftEnds(v0, newIndex, end);
      rackLetters, rackShuffleState := rack, shuffle;
      shifted := true;
    }

    /**
     * The stride loop of shiftRack: from `start` through `end` in steps of `step`, each
     * slot of the view takes the tile of the slot before it. v0 is the view before the
     * shift, whose slot newIndex has already been emptied.
     */
    static method StrideShift(rack0: seq<Letter>, shuffle0: seq<Letter>, originalIndex: Option<int>,
                              newIndex: int, start: int, end: int, step: int, prev0: Letter, ghost v0: seq<Letter>)
      returns (rack: seq<Letter>, shuffle: seq<Letter>)
      requires |rack0| == NUM_RACK_TILES && |shuffle0| == NUM_RACK_TILES && |v0| == NUM_RACK_TILES
      requires 0 <= newIndex < NUM_RACK_TILES && 0 <= end < NUM_RACK_TILES
      requires step == 1 <==> newIndex <= end
      requires start == newIndex + step && (step == 1 || step == -1) && prev0 == v0[newIndex]
      requires View(rack0, shuffle0, originalIndex) == PartialShift(v0, newIndex, start, step == 1)
      ensures |rack| == NUM_RACK_TILES && |shuffle| == NUM_RACK_TILES
      ensures View(rack, shuffle, originalIndex) == PartialShift(v0, newIndex, end + step, step == 1)
      ensures forall k :: 0 <= k < NUM_RACK_TILES && originalIndex != Some(k) ==> shuffle[k] == shuffle0[k]
      ensures forall k :: 0 <= k < NUM_RACK_TILES && originalIndex == Some(k) ==> rack[k] == rack0[k]
    {
      rack, shuffle := rack0, shuffle0;
      var prevLetter := prev0;
      var index := start;
      while if step == 1 then index <= end else index >= end
        invariant |rack| == NUM_RACK_TILES && |shuffle| == NUM_RACK_TILES
        invariant forall k :: 0 <= k < NUM_RACK_TILES && originalIndex != Some(k) ==> shuffle[k] == shuffle0[k]
        invariant forall k :: 0 <= k < NUM_RACK_TILES && originalIndex == Some(k) ==> rack[k] == rack0[k]
        invariant step == 1 ==> newIndex + 1 <= index <= end + 1 && prevLetter == v0[index - 1]
        invariant step == -1 ==> end - 1 <= index <= newIndex - 1 && prevLetter == v0[index + 1]
        invariant View(rack, shuffle, originalIndex) == PartialShift(v0, newIndex, index, step == 1)
        decreases if step == 1 then end + 1 - index else index - end + 1
      {
        var tmpLetter := DragSlot(rack, shuffle, index, originalIndex);
        assert tmpLetter == View(rack, shuffle, originalIndex)[index] == v0[index];
        var w := WriteDrag(rack, shuffle, index, originalIndex, prevLetter);
        rack, shuffle := w.0, w.1;
        ShiftAdvances(v0, newIndex, index, step == 1);
        prevLetter := tmpLetter;
        index := index + step;
      }
    }

    /** clearRack: every slot of the rack and of the shuffle state is emptied. */
    method ClearRack()
      requires Valid()
      modifies this
      ensures Valid()
      ensures Snapshot() == old(Snapshot()).(rackLetters := EmptyRack(), rackShuffleState := EmptyRack())
    {
      rackLetters := EmptyRack();
      rackShuffleState := EmptyRack();
    }

    /**
     * tileDropped: finish a drag from `start` to `end` as Drop describes, the tile
     * landing, when `end` is on the board, on the free cell `at` nearestBoardEmpty picks;
     * then fold the shuffle state back into the rack and empty it.
     */
    method TileDropped(letter: Letter, start: Position, end: Position) returns (ghost at: Cell)
      requires Valid() && CanDrop(Snapshot(), start, end)
      modifies this
      ensures Valid()
      ensures OnBoard(end) ==>
        NearestEmpty(old(boardLetters), numBoardRows, numBoardColumns, (end.boardRow.value, end.boardColumn.value), at)
      ensures Snapshot() == Dropped(old(Snapshot()), letter, start, end, at)
    {
      at := (-1, -1);
      if end.boardRow.Some? && end.boardColumn.Some? {
        var endPair := NearestBoardEmpty(end.boardRow.value, end.boardColumn.value);
        at := endPair;
        DropOnBoard(letter, start, end, endPair);
      } else if end.rackIndex.Some? {
        DropOnRack(letter, start, end);
      } else {
        if start.rackIndex.Some? && rackShuffleState[start.rackIndex.value] != INVISIBLE_LETTER {
          var kept := KeepDragged(rackLetters, letter);
          rackLetters := kept;
        }
      }
      var restored := RestoreRack(rackLetters, rackShuffleState);
      rackLetters := restored;
      rackShuffleState := EmptyRack();
    }

    /** The branch of tileDropped for a tile that lands on the board, at the free cell `at`. */
    method DropOnBoard(letter: Letter, start: Position, end: Position, at: Cell)
      requires Valid() && CanDrop(Snapshot(), start, end) && OnBoard(end)
      requires InGrid(at, numBoardRows, numBoardColumns)
      modifies this
      ensures Valid()
      ensures Snapshot() == Drop(old(Snapshot()), letter, start, end, at)
    {
      if start.rackIndex.Some? {
        PlaceFromRack(letter, start, end, at);
      } else {
        MoveOnBoard(letter, start, end, at);
      }
    }

    /** A rack tile put on the board: its slot empties and, for a blank, the picker opens for `at`. */
    method PlaceFromRack(letter: Letter, start: Position, end: Position, at: Cell)
      requires Valid() && OnBoard(end) && start.rackIndex.Some? && 0 <= start.rackIndex.value < NUM_RACK_TILES
      requires end.rackIndex.Some? ==> 0 <= end.rackIndex.value < NUM_RACK_TILES
      requires InGrid(at, numBoardRows, numBoardColumns)
      modifies this
      ensures Valid()
      ensures Snapshot() == Drop(old(Snapshot()), letter, start, end, at)
    {
      var endRow, endColumn := at.0, at.1;
      var picker, blankRow, blankColumn := showBlankPicker, prevBlankRow, prevBlankColumn;
      if letter.isBlank {
        picker, blankRow, blankColumn := !picker, Some(endRow), Some(endColumn);
      }
      rackLetters, showBlankPicker, prevBlankRow, prevBlankColumn, rackTilesOnBoardCount, boardLetters :=
        rackLetters[start.rackIndex.value := INVISIBLE_LETTER], picker, blankRow, blankColumn,
        rackTilesOnBoardCount + 1, SetCell(boardLetters, endRow, endColumn, letter);
    }

    /** A board tile moved on the board: its old cell empties. */
    method MoveOnBoard(letter: Letter, start: Position, end: Position, at: Cell)
      requires Valid() && CanDrop(Snapshot(), start, end) && OnBoard(end) && start.rackIndex.None?
      requires InGrid(at, numBoardRows, numBoardColumns)
      modifies this
      ensures Valid()
      ensures Snapshot() == Drop(old(Snapshot()), letter, start, end, at)
    {
      var startRow, startColumn := start.boardRow.value, start.boardColumn.value;
      boardLetters := SetCell(boardLetters, startRow, startColumn, INVISIBLE_LETTER);
      boardLetters := SetCell(boardLetters, at.0, at.1, letter);
    }

    /** The branch of tileDropped for a tile dropped on a rack slot. */
    method DropOnRack(letter: Letter, start: Position, end: Position)
      requires Valid() && CanDrop(Snapshot(), start, end) && !OnBoard(end) && end.rackIndex.Some?
      modifies this
      ensures Valid()
      ensures forall at :: Snapshot() == Drop(old(Snapshot()), letter, start, end, at)
    {
      if start.rackIndex.Some? {
        rackLetters := rackLetters[start.rackIndex.value := INVISIBLE_LETTER];
        rackLetters := rackLetters[end.rackIndex.value := letter];
      }
      if start.boardRow.Some? && start.boardColumn.Some? {
        var startRow, startColumn := start.boardRow.value, start.boardColumn.value;
        boardLetters := boardLetters[startRow := boardLetters[startRow][startColumn := INVISIBLE_LETTER]];
        var modifiedLetter := letter;
        if letter.isBlank {
          modifiedLetter := Letter(BLANK, true, letter.value);
        }
        rackLetters := rackLetters[end.rackIndex.value := modifiedLetter];
        rackTilesOnBoardCount := rackTilesOnBoardCount - 1;
      }
    }

    /** tileDropped's guard against losing a tile: it goes to the first empty rack slot, if any. */
    static method KeepDragged(rack: seq<Letter>, letter: Letter) returns (r: seq<Letter>)
      requires |rack| == NUM_RACK_TILES
      ensures r == Fill(rack, [letter])
    {
      r := rack;
      for index := 0 to NUM_RACK_TILES
        invariant FirstEmpty(rack, index) == FirstEmpty(rack, 0)
        invariant r == rack
      {
        if rack[index] == INVISIBLE_LETTER {
          r := rack[index := letter];
          return;
        }
      }
    }

    /** tileDropped's last loop: each slot the shuffle state holds takes its tile. */
    static method RestoreRack(rack: seq<Letter>, shuffle: seq<Letter>) returns (r: seq<Letter>)
      requires |rack| == NUM_RACK_TILES && |shuffle| == NUM_RACK_TILES
      ensures r == Restored(rack, shuffle)
    {
      r := rack;
      for index := 0 to NUM_RACK_TILES
        invariant |r| == NUM_RACK_TILES
        invariant forall k :: 0 <= k < index ==> r[k] == Restored(rack, shuffle)[k]
        invariant forall k :: index <= k < NUM_RACK_TILES ==> r[k] == rack[k]
      {
        if shuffle[index] != INVISIBLE_LETTER {
          r := r[index := shuffle[index]];
        }
      }
    }

    // -------------------------------------------------------------------------
    // The end of a game

    /**
     * The end-of-game part of a game-state refresh. When the bag is empty or the game is
     * completed, the game is over once it is completed or a player has no tiles left;
     * every interval-th such refresh notes the tiles the other players hold; once the
     * game is over the message announces the winner or a draw instead. Any other
     * refresh changes nothing and says nothing.
     */
    method RefreshGameEnd(players: seq<GamePlayer>, numTilesRemaining: int, completed: bool,
                          fetcherId: int, interval: int) returns (message: string)
      requires Valid() && interval > 0
      modifies this
      ensures Valid()
      ensures numTilesRemaining != 0 && !completed ==> Snapshot() == old(Snapshot()) && message == ""
      ensures numTilesRemaining == 0 || completed ==>
        && Snapshot() == old(Snapshot()).(gameOver := old(gameOver) || completed || SomeoneOut(players),
                                          emptyBagRefreshCount := old(emptyBagRefreshCount) + 1)
        && message == if gameOver then GameOverMessage(TopScorers(players))
                      else if old(emptyBagRefreshCount) % interval == 0 then TilesLeft(players, fetcherId)
                      else ""
    {
      message := "";
      if numTilesRemaining == 0 || completed {
        if completed {
          gameOver := true;
        }
        var highestScore, highestScorers;
        gameOver, message, highestScore, highestScorers :=
          ScanPlayers(players, fetcherId, emptyBagRefreshCount % interval == 0, gameOver);
        if gameOver {
          if |highestScorers| == 1 {
            message := "Game over. " + highestScorers[0] + " has won!";
          } else {
            message := "Game over. It was a draw!";
          }
        }
        emptyBagRefreshCount := emptyBagRefreshCount + 1;
      }
    }

    // -------------------------------------------------------------------------
    // The board

    /**
     * clearBoard: a rows-by-columns board with no tiles and no multipliers, and no rack
     * tile on it. The play space stays Valid when the layout has the board's dimensions.
     */
    method ClearBoard(rows: int, columns: int)
      requires rows >= 0 && columns >= 0
      modifies this
      ensures old(Valid()) && rows == numBoardRows && columns == numBoardColumns ==> Valid()
      ensures Snapshot() == old(Snapshot()).(
        boardLetters := Grid(rows, columns, INVISIBLE_LETTER), locked := Grid(rows, columns, false),
        wordMultipliers := Grid(rows, columns, 1), letterMultipliers := Grid(rows, columns, 1),
        rackTilesOnBoardCount := 0)
    {
      boardLetters := Grid(rows, columns, INVISIBLE_LETTER);
      locked := Grid(rows, columns, false);
      wordMultipliers := Grid(rows, columns, 1);
      letterMultipliers := Grid(rows, columns, 1);
      rackTilesOnBoardCount := 0;
    }

    /**
     * setBlank: the blank waiting for a letter (whose cell the drop recorded) shows the
     * chosen letter and keeps its value; the picker closes and the recorded cell is
     * forgotten.
     */
    method SetBlank(choice: char)
      requires Valid()
      requires prevBlankRow.Some? && 0 <= prevBlankRow.value < numBoardRows
      requires prevBlankColumn.Some? && 0 <= prevBlankColumn.value < numBoardColumns
      requires boardLetters[prevBlankRow.value][prevBlankColumn.value].isBlank
      requires boardLetters[prevBlankRow.value][prevBlankColumn.value].letter == BLANK
      modifies this
      ensures Valid()
      ensures var r, c := old(prevBlankRow.value), old(prevBlankColumn.value);
        Snapshot() == old(Snapshot()).(
          showBlankPicker := false,
          boardLetters := old(boardLetters)[r := old(boardLetters)[r][c := Letter(choice, true, old(boardLetters)[r][c].value)]],
          prevBlankRow := None, prevBlankColumn := None)
    {
      showBlankPicker := false;
      var r, c := prevBlankRow.value, prevBlankColumn.value;
      var prevLetter := boardLetters[r][c];
      boardLetters := boardLetters[r := boardLetters[r][c := Letter(choice, true, prevLetter.value)]];
      prevBlankRow := None;
      prevBlankColumn := None;
    }
  }
}
