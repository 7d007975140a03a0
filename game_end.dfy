/**
 * What the game-state refresh does once the bag is empty or the game is completed:
 * it scans the players for anyone without tiles, for the highest score and the players
 * on it, and for the "tiles left" notes, and announces the winner or a draw once the
 * game is over.
 */
module GameEnd {
  import opened Text

  /** The highest score the scan starts from, below any real score. */
  const LOWEST_SCORE: int := -987654321

  /** What the game state reports of one player. */
  datatype GamePlayer = GamePlayer(playerId: int, displayName: string, score: int, numTilesRemaining: int)

  /** highestScore after the scan: the best score, or LOWEST_SCORE when no score reaches it. */
  function Highest(ps: seq<GamePlayer>): int {
    if ps == [] then LOWEST_SCORE
    else
      var h, s := Highest(ps[..|ps| - 1]), ps[|ps| - 1].score;
      if s > h then s else h
  }

  /** The highest score is at least every score, and is one of them unless none reaches LOWEST_SCORE. */
  lemma {:induction false} HighestSpec(ps: seq<GamePlayer>)
    ensures Highest(ps) >= LOWEST_SCORE
    ensures forall i :: 0 <= i < |ps| ==> ps[i].score <= Highest(ps)
    ensures Highest(ps) == LOWEST_SCORE || exists i :: 0 <= i < |ps| && ps[i].score == Highest(ps)
  {
    if ps != [] {
      var n := |ps| - 1;
      HighestSpec(ps[..n]);
      forall i | 0 <= i < n ensures ps[i].score <= Highest(ps) {
        assert ps[..n][i] == ps[i];
      }
      if Highest(ps) != LOWEST_SCORE && Highest(ps) != ps[n].score {
        var i :| 0 <= i < n && ps[..n][i].score == Highest(ps[..n]);
        assert ps[i].score == Highest(ps);
      }
    }
  }

  /** The names, in player order, of the players whose score is s. */
  function NamesWithScore(ps: seq<GamePlayer>, s: int): seq<string> {
    if ps == [] then []
    else
      var p := ps[|ps| - 1];
      NamesWithScore(ps[..|ps| - 1], s) + if p.score == s then [p.displayName] else []
  }

  /** highestScorers after the scan: reset on a new highest score, extended on a tie with it. */
  function TopScorers(ps: seq<GamePlayer>): seq<string> {
    if ps == [] then []
    else
      var prev, h, p := TopScorers(ps[..|ps| - 1]), Highest(ps[..|ps| - 1]), ps[|ps| - 1];
      if p.score > h then [p.displayName]
      else if p.score == h then prev + [p.displayName]
      else prev
  }

  lemma {:induction false} NoneAbove(ps: seq<GamePlayer>, s: int)
    requires forall i :: 0 <= i < |ps| ==> ps[i].score < s
    ensures NamesWithScore(ps, s) == []
  {
    if ps != [] {
      var n := |ps| - 1;
      NoneAbove(ps[..n], s);
    }
  }

  /** The scan's highestScorers are exactly the players on the highest score, in player order. */
  lemma {:induction false} TopScorersSpec(ps: seq<GamePlayer>)
    ensures TopScorers(ps) == NamesWithScore(ps, Highest(ps))
  {
    if ps != [] {
      var n := |ps| - 1;
      var init, p := ps[..n], ps[n];
      TopScorersSpec(init);
      if p.score > Highest(init) {
        HighestSpec(init);
        NoneAbove(init, p.score);
      }
    }
  }

  /** A player whose score is s is named among those with score s. */
  lemma {:induction false} NamedWithScore(ps: seq<GamePlayer>, i: int)
    requires 0 <= i < |ps|
    ensures ps[i].displayName in NamesWithScore(ps, ps[i].score)
  {
    var n := |ps| - 1;
    if i < n {
      NamedWithScore(ps[..n], i);
      assert ps[..n][i] == ps[i];
    }
  }

  lemma {:induction false} NamesWithScoreSplit(ps: seq<GamePlayer>, k: int, s: int)
    requires 0 <= k <= |ps|
    ensures NamesWithScore(ps, s) == NamesWithScore(ps[..k], s) + NamesWithScore(ps[k..], s)
  {
    if k < |ps| {
      var n := |ps| - 1;
      NamesWithScoreSplit(ps[..n], k, s);
      assert ps[..n][..k] == ps[..k];
      assert ps[k..][..|ps[k..]| - 1] == ps[..n][k..];
    } else {
      assert ps[..k] == ps;
    }
  }

  lemma {:induction false} NoneWithScore(ps: seq<GamePlayer>, s: int)
    requires forall i :: 0 <= i < |ps| ==> ps[i].score != s
    ensures NamesWithScore(ps, s) == []
  {
    if ps != [] {
      NoneWithScore(ps[..|ps| - 1], s);
    }
  }

  lemma {:induction false} OnlyNamed(ps: seq<GamePlayer>, j: int)
    requires 0 <= j < |ps|
    requires forall i :: 0 <= i < |ps| && i != j ==> ps[i].score != ps[j].score
    ensures NamesWithScore(ps, ps[j].score) == [ps[j].displayName]
  {
    var n := |ps| - 1;
    if j == n {
      NoneWithScore(ps[..n], ps[j].score);
    } else {
      assert ps[..n][j] == ps[j];
      OnlyNamed(ps[..n], j);
    }
  }

  /** A player who alone has the best score is the only one of the scan's highest scorers. */
  lemma SoleWinner(ps: seq<GamePlayer>, j: int)
    requires 0 <= j < |ps| && ps[j].score >= LOWEST_SCORE
    requires forall i :: 0 <= i < |ps| && i != j ==> ps[i].score < ps[j].score
    ensures TopScorers(ps) == [ps[j].displayName]
    ensures GameOverMessage(TopScorers(ps)) == "Game over. " + ps[j].displayName + " has won!"
  {
    HighestAtMost(ps, ps[j].score);
    HighestAtLeast(ps, j);
    TopScorersSpec(ps);
    OnlyNamed(ps, j);
  }

  lemma {:induction false} HighestAtMost(ps: seq<GamePlayer>, x: int)
    requires LOWEST_SCORE <= x && forall i :: 0 <= i < |ps| ==> ps[i].score <= x
    ensures Highest(ps) <= x
  {
    if ps != [] {
      HighestAtMost(ps[..|ps| - 1], x);
    }
  }

  lemma {:induction false} HighestAtLeast(ps: seq<GamePlayer>, j: int)
    requires 0 <= j < |ps|
    ensures ps[j].score <= Highest(ps)
  {
    var n := |ps| - 1;
    if j < n {
      HighestAtLeast(ps[..n], j);
    }
  }

  /** Two players sharing the best score make the announcement a draw. */
  lemma SharedBestIsDraw(ps: seq<GamePlayer>, i: int, j: int)
    requires 0 <= i < j < |ps| && ps[i].score == ps[j].score == Highest(ps)
    ensures |TopScorers(ps)| >= 2
    ensures GameOverMessage(TopScorers(ps)) == "Game over. It was a draw!"
  {
    TopScorersSpec(ps);
    var s := Highest(ps);
    NamesWithScoreSplit(ps, j, s);
    NamedWithScore(ps[..j], i);
    assert ps[..j][i] == ps[i];
    NamedWithScore(ps[j..], 0);
    assert ps[j..][0] == ps[j];
  }

  /** The note about one player's tiles: "<name> has <n> tile(s) left. ". */
  function TilesLeftLine(p: GamePlayer): string {
    p.displayName + " has " + IntToString(p.numTilesRemaining) + " tile"
      + (if p.numTilesRemaining == 1 then "" else "s") + " left. "
  }

  /** The notes about every player other than the one fetching the game, in player order. */
  function TilesLeft(ps: seq<GamePlayer>, fetcherId: int): string {
    if ps == [] then ""
    else
      var p := ps[|ps| - 1];
      TilesLeft(ps[..|ps| - 1], fetcherId) + if p.playerId != fetcherId then TilesLeftLine(p) else ""
  }

  /** The announcement once the game is over: the one highest scorer has won, otherwise a draw. */
  function GameOverMessage(top: seq<string>): string {
    if |top| == 1 then "Game over. " + top[0] + " has won!" else "Game over. It was a draw!"
  }

  /** Some player has no tiles left. */
  predicate SomeoneOut(ps: seq<GamePlayer>) {
    exists i :: 0 <= i < |ps| && ps[i].numTilesRemaining == 0
  }

  /**
   * The player loop of the refresh: gameOver becomes set when a player has no tiles
   * left, the tiles-left notes are collected when they are due, and the highest score
   * and its scorers are tracked.
   */
  method ScanPlayers(ps: seq<GamePlayer>, fetcherId: int, showRemaining: bool, over0: bool)
    returns (over: bool, message: string, highestScore: int, highestScorers: seq<string>)
    ensures over == (over0 || SomeoneOut(ps))
    ensures message == if showRemaining then TilesLeft(ps, fetcherId) else ""
    ensures highestScore == Highest(ps) && highestScorers == TopScorers(ps)
  {
    over, message, highestScore, highestScorers := over0, "", LOWEST_SCORE, [];
    for k := 0 to |ps|
      invariant over == (over0 || SomeoneOut(ps[..k]))
      invariant message == if showRemaining then TilesLeft(ps[..k], fetcherId) else ""
      invariant highestScore == Highest(ps[..k]) && highestScorers == TopScorers(ps[..k])
    {
      var p := ps[k];
      assert ps[..k + 1][..k] == ps[..k] && ps[..k + 1][k] == p;
      if p.numTilesRemaining == 0 {
        over := true;
        assert ps[..k + 1][k].numTilesRemaining == 0;
      }
      if showRemaining {
        if p.playerId != fetcherId {
          message := message + (p.displayName + " has " + IntToString(p.numTilesRemaining) + " tile"
            + (if p.numTilesRemaining == 1 then "" else "s") + " left. ");
        }
      }
      if p.score > highestScore {
        highestScore := p.score;
        highestScorers := [p.displayName];
      } else if p.score == highestScore {
        highestScorers := highestScorers + [p.displayName];
      }
      SomeoneOutStep(ps, k);
    }
    assert ps[..|ps|] == ps;
  }

  /** Someone among the first k + 1 players is out iff someone among the first k is, or player k is. */
  lemma SomeoneOutStep(ps: seq<GamePlayer>, k: int)
    requires 0 <= k < |ps|
    ensures SomeoneOut(ps[..k + 1]) == (SomeoneOut(ps[..k]) || ps[k].numTilesRemaining == 0)
  {
    if SomeoneOut(ps[..k + 1]) && ps[k].numTilesRemaining != 0 {
      var i :| 0 <= i < k + 1 && ps[..k + 1][i].numTilesRemaining == 0;
      assert ps[..k][i] == ps[..k + 1][i];
    }
    if SomeoneOut(ps[..k]) {
      var i :| 0 <= i < k && ps[..k][i].numTilesRemaining == 0;
      assert ps[..k + 1][i] == ps[..k][i];
    }
  }
}
