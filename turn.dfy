/**
 * The tile lists a turn sends to the server: the tiles placed on the board this turn
 * for a play, or the rack tiles chosen for an exchange.
 */
module Turns {
  import opened Wrappers
  import opened Letters
  import opened Scoring

  /** One played tile of a turn (TurnPlayedTileSerializer). */
  datatype PlayedTile = PlayedTile(
    letter: Option<string>, isBlank: bool, value: int, row: Option<int>, column: Option<int>, isExchange: bool)

  /** The entry for a rack tile given up in an exchange: no position, and no letter for a blank. */
  function ExchangeTile(l: Letter): PlayedTile {
    PlayedTile(if l.isBlank then None else Some([l.letter]), l.isBlank, l.value.GetOr(0), None, None, true)
  }

  /** The entries, in slot order, for the rack tiles whose chosen flag is set. */
  function ExchangeTiles(rack: seq<Letter>, chosen: seq<bool>): seq<PlayedTile>
    requires |chosen| == |rack|
  {
    if rack == [] then []
    else
      var n := |rack| - 1;
      ExchangeTiles(rack[..n], chosen[..n]) + if chosen[n] then [ExchangeTile(rack[n])] else []
  }

  /** How many flags are set. */
  function CountChosen(chosen: seq<bool>): nat {
    if chosen == [] then 0 else CountChosen(chosen[..|chosen| - 1]) + if chosen[|chosen| - 1] then 1 else 0
  }

  /**
   * An exchange sends one entry per chosen tile and nothing for the others; every entry
   * is an exchange without a position, carries a letter exactly when the tile is not a
   * blank, and is the entry of a chosen rack tile.
   */
  lemma {:induction false} ExchangeTilesSpec(rack: seq<Letter>, chosen: seq<bool>)
    requires |chosen| == |rack|
    ensures |ExchangeTiles(rack, chosen)| == CountChosen(chosen)
    ensures forall t :: t in ExchangeTiles(rack, chosen) ==>
      t.row.None? && t.column.None? && t.isExchange && (t.letter.None? <==> t.isBlank)
    ensures forall t :: t in ExchangeTiles(rack, chosen) ==>
      exists i :: 0 <= i < |rack| && chosen[i] && t == ExchangeTile(rack[i])
  {
    if rack != [] {
      var n := |rack| - 1;
      ExchangeTilesSpec(rack[..n], chosen[..n]);
      assert chosen[..n] == chosen[..|chosen| - 1];
      forall t | t in ExchangeTiles(rack, chosen)
        ensures exists i :: 0 <= i < |rack| && chosen[i] && t == ExchangeTile(rack[i])
      {
        if t in ExchangeTiles(rack[..n], chosen[..n]) {
          var i :| 0 <= i < n && chosen[..n][i] && t == ExchangeTile(rack[..n][i]);
          assert chosen[i] && rack[i] == rack[..n][i];
        }
      }
    }
  }

  /** The entry confirmPlayRequest sends for the tile l placed at (row, column). */
  function PlayTile(l: Letter, row: int, column: int): PlayedTile {
    PlayedTile(Some([l.letter]), l.isBlank, l.value.GetOr(0), Some(row), Some(column), false)
  }

  /** The entries for the listed cells of b, in list order. */
  function PlayTiles(b: Board, cells: seq<PositionedValue>): (r: seq<PlayedTile>)
    ensures |r| == |cells|
  {
    if cells == [] then []
    else
      var p := cells[|cells| - 1];
      PlayTiles(b, cells[..|cells| - 1]) + [PlayTile(b.LetterAt(p.row, p.column), p.row, p.column)]
  }

  lemma {:induction false} PlayTilesAt(b: Board, cells: seq<PositionedValue>, i: int)
    requires 0 <= i < |cells|
    ensures PlayTiles(b, cells)[i] == PlayTile(b.LetterAt(cells[i].row, cells[i].column), cells[i].row, cells[i].column)
  {
    if i < |cells| - 1 {
      PlayTilesAt(b, cells[..|cells| - 1], i);
    }
  }

  /**
   * A play sends exactly the tiles placed this turn, one entry per cell in row-major
   * order, each with its row, column and letter, and none marked as an exchange.
   */
  lemma PlayTilesSpec(b: Board)
    ensures var tiles, u := PlayTiles(b, Unlocked(b)), Unlocked(b);
      && |tiles| == |u|
      && (forall i :: 0 <= i < |tiles| ==>
            tiles[i].row == Some(u[i].row) && tiles[i].column == Some(u[i].column) && !tiles[i].isExchange
            && b.Placed(u[i].row, u[i].column)
            && tiles[i].letter == Some([b.LetterAt(u[i].row, u[i].column).letter]))
      && (forall r, c :: b.Placed(r, c) ==> exists i :: 0 <= i < |u| && u[i].row == r && u[i].column == c)
      && (forall i, j :: 0 <= i < j < |u| ==> Before(u[i], u[j]))
  {
    var u := Unlocked(b);
    UnlockedSpec(b);
    var tiles := PlayTiles(b, u);
    forall i | 0 <= i < |tiles|
      ensures tiles[i].row == Some(u[i].row) && tiles[i].column == Some(u[i].column) && !tiles[i].isExchange
      ensures b.Placed(u[i].row, u[i].column)
      ensures tiles[i].letter == Some([b.LetterAt(u[i].row, u[i].column).letter])
    {
      PlayTilesAt(b, u, i);
      assert u[i] in u;
    }
    forall r, c | b.Placed(r, c) ensures exists i :: 0 <= i < |u| && u[i].row == r && u[i].column == c {
      assert Entry(b, r, c) in u;
    }
  }
}
