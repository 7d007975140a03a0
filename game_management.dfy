/**
 * The summary of a game in the list of games: one "name: score" line per player, in the
 * game's player order, and a last line naming whose turn it is.
 */
module GameManagement {
  import opened Text

  datatype GameInfoPlayer = GameInfoPlayer(score: int, displayName: string)
  datatype GameInfo = GameInfo(id: int, gamePlayers: seq<GameInfoPlayer>, whoseTurnName: string)

  function ScoreLine(p: GameInfoPlayer): string {
    p.displayName + ": " + IntToString(p.score)
  }

  function TurnLine(info: GameInfo): string {
    info.whoseTurnName + " to play"
  }

  /** The lines of the summary, in order. */
  function DisplayEntries(info: GameInfo): (entries: seq<string>)
    ensures |entries| == |info.gamePlayers| + 1
    ensures forall i :: 0 <= i < |info.gamePlayers| ==> entries[i] == ScoreLine(info.gamePlayers[i])
    ensures entries[|info.gamePlayers|] == TurnLine(info)
  {
    seq(|info.gamePlayers|, i requires 0 <= i < |info.gamePlayers| => ScoreLine(info.gamePlayers[i])) + [TurnLine(info)]
  }

  /** display(): the entries collected in a loop and joined with newlines. */
  method Display(info: GameInfo) returns (text: string)
    ensures text == Join(DisplayEntries(info), "\n")
  {
    var entries: seq<string> := [];
    for k := 0 to |info.gamePlayers|
      invariant entries == DisplayEntries(info)[..k]
    {
      var p := info.gamePlayers[k];
      entries := entries + [p.displayName + ": " + IntToString(p.score)];
    }
    entries := entries + [info.whoseTurnName + " to play"];
    assert entries == DisplayEntries(info);
    text := Join(entries, "\n");
  }

  /** With no players the summary is only the turn line. */
  lemma NoPlayersDisplay(info: GameInfo)
    requires info.gamePlayers == []
    ensures Join(DisplayEntries(info), "\n") == info.whoseTurnName + " to play"
  {
    assert DisplayEntries(info) == [TurnLine(info)];
  }

  predicate NoNewlines(info: GameInfo) {
    && '\n' !in info.whoseTurnName
    && forall i :: 0 <= i < |info.gamePlayers| ==> '\n' !in info.gamePlayers[i].displayName
  }

  lemma EntriesHaveNoNewline(info: GameInfo)
    requires NoNewlines(info)
    ensures forall k :: 0 <= k < |DisplayEntries(info)| ==> '\n' !in DisplayEntries(info)[k]
  {
    var entries := DisplayEntries(info);
    forall k | 0 <= k < |entries| ensures '\n' !in entries[k] {
      if k < |info.gamePlayers| {
        var p := info.gamePlayers[k];
        var digits := IntToString(p.score);
        assert forall j :: 0 <= j < |digits| ==> digits[j] != '\n';
        assert entries[k] == p.displayName + ": " + digits;
      } else {
        assert entries[k] == info.whoseTurnName + " to play";
      }
    }
  }

  /**
   * When no name holds a newline, the summary has one line per player and the turn line,
   * and cutting it at its newlines gives back exactly those lines.
   */
  lemma DisplayLines(info: GameInfo)
    requires NoNewlines(info)
    ensures Count(Join(DisplayEntries(info), "\n"), '\n') == |info.gamePlayers|
    ensures Components(Join(DisplayEntries(info), "\n"), '\n') == DisplayEntries(info)
  {
    EntriesHaveNoNewline(info);
    JoinCount(DisplayEntries(info), '\n');
    ComponentsOfJoin(DisplayEntries(info), '\n');
  }
}
