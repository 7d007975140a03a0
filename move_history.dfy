/**
 * The move history of a game: one column per player, one row per turn round. A row shows
 * each player's move in short ("word:score", "Exchange" or "Pass"); an expanded row also
 * shows the secondary words of a play or the tiles of an exchange.
 */
module MoveHistory {
  import opened Wrappers
  import opened Text

  datatype HistoryTile = HistoryTile(letter: Option<string>, isBlank: bool, value: int)
  datatype TileCount = TileCount(tile: HistoryTile, count: int)
  datatype Move = Move(primaryWord: Option<string>, secondaryWords: Option<string>,
                       exchangedTiles: seq<TileCount>, turnNumber: int, score: int)
  datatype PlayerMoves = PlayerMoves(playerId: int, displayName: string, moves: seq<Move>, turnOrder: int)

  /** s with x added when it was absent and removed when it was present. */
  function Toggled(s: set<int>, x: int): (t: set<int>)
    ensures x in t <==> x !in s
    ensures forall y :: y != x ==> (y in t <==> y in s)
  {
    if x in s then s - {x} else s + {x}
  }

  /** Toggling a row twice leaves the selection as it was. */
  lemma ToggleTwice(s: set<int>, x: int)
    ensures Toggled(Toggled(s, x), x) == s
  {
  }

  class MoveHistoryView {
    var playerMoves: seq<PlayerMoves>
    /** The rows shown expanded. */
    var selection: set<int>

    constructor ()
      ensures playerMoves == [] && selection == {}
    {
      playerMoves := [];
      selection := {};
    }

    /** One row per move of the first player; none without players. */
    function NumMoveRows(): (n: nat)
      reads this
      ensures playerMoves == [] ==> n == 0
      ensures playerMoves != [] ==> n == |playerMoves[0].moves|
    {
      if |playerMoves| == 0 then 0 else |playerMoves[0].moves|
    }

    /** The moves of one row: one entry per player, in order, None for a player with no move there. */
    method RowMoves(row: int) returns (moves: seq<Option<Move>>)
      requires row >= 0
      ensures |moves| == |playerMoves|
      ensures forall i :: 0 <= i < |playerMoves| ==>
        moves[i] == if row < |playerMoves[i].moves| then Some(playerMoves[i].moves[row]) else None
      ensures row < NumMoveRows() ==> moves[0].Some?
    {
      moves := [];
      for i := 0 to |playerMoves|
        invariant |moves| == i
        invariant forall k :: 0 <= k < i ==>
          moves[k] == if row < |playerMoves[k].moves| then Some(playerMoves[k].moves[row]) else None
      {
        if row < |playerMoves[i].moves| {
          moves := moves + [Some(playerMoves[i].moves[row])];
        } else {
          moves := moves + [None];
        }
      }
    }

    /** Tapping a row expands it when it was collapsed and collapses it otherwise. */
    method SelectDeselect(rowIndex: int)
      modifies this
      ensures playerMoves == old(playerMoves)
      ensures selection == Toggled(old(selection), rowIndex)
    {
      if rowIndex in selection {
        selection := selection - {rowIndex};
      } else {
        selection := selection + {rowIndex};
      }
    }

    /**
     * expandDisplayStrings: the secondary words of a play cut at commas; for an exchange one
     * string listing every exchanged tile, blank as "_", separated by commas; nothing otherwise.
     * None where the source traps on a tile: a missing letter or a negative count.
     */
    method ExpandDisplayStrings(move: Option<Move>) returns (r: Option<seq<string>>)
      ensures r == ExpandedStrings(move)
    {
      if move.None? {
        return Some([]);
      }
      var m := move.value;
      if m.primaryWord.Some? && m.secondaryWords.Some? {
        return Some(Components(m.secondaryWords.value, ','));
      } else if |m.exchangedTiles| > 0 {
        var exchanged: seq<string> := [];
        for k := 0 to |m.exchangedTiles|
          invariant Listable(m.exchangedTiles[..k])
          invariant exchanged == ExchangedLetters(m.exchangedTiles[..k])
        {
          var tileCount := m.exchangedTiles[k];
          var tileCharacter: string;
          if tileCount.tile.isBlank {
            tileCharacter := "_";
          } else if tileCount.tile.letter.None? {
            assert Unlistable(m.exchangedTiles[k]);
            return None;
          } else {
            tileCharacter := tileCount.tile.letter.value;
          }
          if tileCount.count < 0 {
            assert Unlistable(m.exchangedTiles[k]);
            return None;
          }
          ghost var before := exchanged;
          for j := 0 to tileCount.count
            invariant exchanged == before + Repeat(tileCharacter, j)
          {
            exchanged := exchanged + [tileCharacter];
          }
          assert m.exchangedTiles[..k + 1][..k] == m.exchangedTiles[..k];
          assert m.exchangedTiles[..k + 1][k] == tileCount;
        }
        assert m.exchangedTiles[..|m.exchangedTiles|] == m.exchangedTiles;
        return Some([Join(exchanged, ",")]);
      }
      return Some([]);
    }
  }

  /** The short form of a move: nothing, "Exchange", "word:score" or "Pass", in that priority. */
  function PrimaryDisplayString(move: Option<Move>): (text: string)
    ensures text == "" <==> move.None?
    ensures text == "Exchange" <==> move.Some? && |move.value.exchangedTiles| > 0
    ensures text == "Pass" <==> move.Some? && move.value.exchangedTiles == [] && move.value.primaryWord.None?
    ensures move.Some? && move.value.exchangedTiles == [] && move.value.primaryWord.Some? ==>
      var w := move.value.primaryWord.value;
      |text| > |w| + 1 && text[..|w|] == w && text[|w|] == ':' && ParseInt(text[|w| + 1..]) == Some(move.value.score)
  {
    if move.None? then ""
    else if |move.value.exchangedTiles| > 0 then "Exchange"
    else if move.value.primaryWord.Some? then
      ScoredWordText(move.value.primaryWord.value, move.value.score);
      move.value.primaryWord.value + ":" + IntToString(move.value.score)
    else "Pass"
  }

  /** "word:score" reads back as the word and the score, and is none of the fixed texts. */
  lemma ScoredWordText(w: string, score: int)
    ensures var text := w + ":" + IntToString(score);
      && |text| > |w| + 1 && text[..|w|] == w && text[|w|] == ':' && ParseInt(text[|w| + 1..]) == Some(score)
      && text != "" && text != "Exchange" && text != "Pass"
  {
    var digits := IntToString(score);
    var text := w + ":" + digits;
    assert text[..|w|] == w;
    assert text[|w|] == ':' && text[|w| + 1..] == digits;
    IntToStringRoundTrip(score);
    assert forall k :: 0 <= k < |"Exchange"| ==> "Exchange"[k] != ':';
    assert forall k :: 0 <= k < |"Pass"| ==> "Pass"[k] != ':';
  }

  /** How an exchanged tile is written: "_" for a blank, its letter otherwise. */
  function TileCharacter(t: HistoryTile): string
    requires t.isBlank || t.letter.Some?
  {
    if t.isBlank then "_" else t.letter.value
  }

  /** What listing an exchange needs: no negative counts, and a letter on every tile that is not blank. */
  predicate Listable(tiles: seq<TileCount>) {
    forall i :: 0 <= i < |tiles| ==> tiles[i].count >= 0 && (tiles[i].tile.isBlank || tiles[i].tile.letter.Some?)
  }

  function Repeat(x: string, n: nat): (r: seq<string>)
    ensures |r| == n && forall k :: 0 <= k < n ==> r[k] == x
  {
    seq(n, _ => x)
  }

  function TotalCount(tiles: seq<TileCount>): int {
    if tiles == [] then 0 else TotalCount(tiles[..|tiles| - 1]) + tiles[|tiles| - 1].count
  }

  /** The exchanged tiles, each written as many times as it was exchanged, in order. */
  function ExchangedLetters(tiles: seq<TileCount>): (r: seq<string>)
    requires Listable(tiles)
  {
    if tiles == [] then []
    else
      var t := tiles[|tiles| - 1];
      ExchangedLetters(tiles[..|tiles| - 1]) + Repeat(TileCharacter(t.tile), t.count)
  }

  /** There is one written tile per exchanged tile. */
  lemma {:induction false} ExchangedLettersCount(tiles: seq<TileCount>)
    requires Listable(tiles)
    ensures |ExchangedLetters(tiles)| == TotalCount(tiles)
  {
    if tiles != [] {
      ExchangedLettersCount(tiles[..|tiles| - 1]);
    }
  }

  /** Everything ExchangedLetters writes is the written form of one of the tiles. */
  lemma {:induction false} ExchangedLettersFrom(tiles: seq<TileCount>, k: int)
    requires Listable(tiles) && 0 <= k < |ExchangedLetters(tiles)|
    ensures exists i :: 0 <= i < |tiles| && ExchangedLetters(tiles)[k] == TileCharacter(tiles[i].tile)
  {
    var n := |tiles| - 1;
    var init := ExchangedLetters(tiles[..n]);
    if k < |init| {
      ExchangedLettersFrom(tiles[..n], k);
      var i :| 0 <= i < n && init[k] == TileCharacter(tiles[..n][i].tile);
      assert tiles[..n][i] == tiles[i];
    } else {
      assert ExchangedLetters(tiles)[k] == TileCharacter(tiles[n].tile);
    }
  }

  /** A tile whose listing traps: not blank with no letter, or a negative count. */
  predicate Unlistable(tc: TileCount) {
    tc.count < 0 || (!tc.tile.isBlank && tc.tile.letter.None?)
  }

  /**
   * The expanded part of a row cell for a move, None where the source traps: listing an
   * exchange fails exactly when one of its tiles cannot be listed. A play with secondary
   * words and a move that exchanged nothing never look at the tiles.
   */
  function ExpandedStrings(move: Option<Move>): (r: Option<seq<string>>)
    ensures r.None? <==>
      && move.Some?
      && !(move.value.primaryWord.Some? && move.value.secondaryWords.Some?)
      && exists i :: 0 <= i < |move.value.exchangedTiles| && Unlistable(move.value.exchangedTiles[i])
  {
    if move.None? then Some([])
    else if move.value.primaryWord.Some? && move.value.secondaryWords.Some? then
      Some(Components(move.value.secondaryWords.value, ','))
    else if |move.value.exchangedTiles| > 0 then
      if Listable(move.value.exchangedTiles) then Some([Join(ExchangedLetters(move.value.exchangedTiles), ",")])
      else None
    else Some([])
  }

  /** The secondary words of a play, stored joined by commas, are shown one by one. */
  lemma SecondaryWordsShown(m: Move, words: seq<string>)
    requires m.primaryWord.Some?
    requires |words| > 0 && forall k :: 0 <= k < |words| ==> ',' !in words[k]
    requires m.secondaryWords == Some(Join(words, ","))
    ensures ExpandedStrings(Some(m)) == Some(words)
  {
    ComponentsOfJoin(words, ',');
  }

  /**
   * An exchange whose tiles are written without commas is shown as one string that lists
   * one entry per exchanged tile, in order, with a comma between neighbours.
   */
  lemma ExchangeShown(m: Move)
    requires Listable(m.exchangedTiles) && |m.exchangedTiles| > 0
    requires m.primaryWord.None? || m.secondaryWords.None?
    requires forall i :: 0 <= i < |m.exchangedTiles| ==> ',' !in TileCharacter(m.exchangedTiles[i].tile)
    requires TotalCount(m.exchangedTiles) > 0
    ensures ExpandedStrings(Some(m)).Some? && |ExpandedStrings(Some(m)).value| == 1
    ensures Components(ExpandedStrings(Some(m)).value[0], ',') == ExchangedLetters(m.exchangedTiles)
    ensures Count(ExpandedStrings(Some(m)).value[0], ',') == TotalCount(m.exchangedTiles) - 1
  {
    var letters := ExchangedLetters(m.exchangedTiles);
    ExchangedLettersCount(m.exchangedTiles);
    forall k | 0 <= k < |letters| ensures ',' !in letters[k] {
      ExchangedLettersFrom(m.exchangedTiles, k);
    }
    ComponentsOfJoin(letters, ',');
    JoinCount(letters, ',');
  }
}
