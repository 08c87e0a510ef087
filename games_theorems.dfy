/**
 * What the generated games of a season of distinct teams satisfy: every pair of
 * teams plays exactly once, N (N - 1) / 2 games, rounds 1 .. M - 1 in non-decreasing
 * order, all pending, no team twice in a round, exactly one rest round per team when
 * the count is odd, and the team listed first always teamA.
 */
module GamesTheorems {
  import opened Wrappers
  import opened CircleMethod
  import opened CircleTheorems
  import opened TeamSchedules
  import opened Games

  /** Team x plays in game g. */
  ghost predicate InGame<S, T>(g: Game<S, T>, x: T) {
    g.teamA == x || g.teamB == x
  }

  /** Game g is between x and y, either one as teamA. */
  ghost predicate GameBetween<S, T>(g: Game<S, T>, x: T, y: T) {
    (g.teamA == x && g.teamB == y) || (g.teamA == y && g.teamB == x)
  }

  /** Exactly one game of gs is between x and y. */
  ghost predicate PlayedOnce<S, T>(gs: seq<Game<S, T>>, x: T, y: T) {
    exists k :: 0 <= k < |gs| && GameBetween(gs[k], x, y) && forall k2 :: 0 <= k2 < |gs| && GameBetween(gs[k2], x, y) ==> k2 == k
  }

  /** Team x has a game numbered round r. */
  ghost predicate PlaysInRound<S, T>(gs: seq<Game<S, T>>, r: int, x: T) {
    exists k :: 0 <= k < |gs| && gs[k].round == r && InGame(gs[k], x)
  }

  lemma {:induction false} AsGamesOnce<S, T>(seasonId: S, ms: seq<Meet<T>>, x: T, y: T)
    requires OnceIn(ms, x, y)
    ensures PlayedOnce(AsGames(seasonId, ms), x, y)
  {
    var k :| 0 <= k < |ms| && Involves(ms[k], x, y) && forall k2 :: 0 <= k2 < |ms| && Involves(ms[k2], x, y) ==> k2 == k;
    var gs := AsGames(seasonId, ms);
    assert GameBetween(gs[k], x, y);
    forall k2 | 0 <= k2 < |gs| && GameBetween(gs[k2], x, y) ensures k2 == k {
      assert Involves(ms[k2], x, y);
    }
  }

  /** For distinct teams: N (N - 1) / 2 games, every pair of teams exactly once, no
      team against itself, both teams of every game listed (never the bye). */
  lemma {:induction false} GamesComplete<S, T>(seasonId: S, teams: seq<T>)
    requires Distinct(teams)
    ensures |SeasonGames(seasonId, teams)| == |teams| * (|teams| - 1) / 2
    ensures forall i, j :: 0 <= i < j < |teams| ==> PlayedOnce(SeasonGames(seasonId, teams), teams[i], teams[j])
    ensures forall k :: 0 <= k < |SeasonGames(seasonId, teams)| ==>
              SeasonGames(seasonId, teams)[k].teamA != SeasonGames(seasonId, teams)[k].teamB &&
              SeasonGames(seasonId, teams)[k].teamA in teams && SeasonGames(seasonId, teams)[k].teamB in teams
  {
    var ms := TeamMeets(teams, |Pad(teams)| / 2);
    TeamMeetsLength(teams);
    TeamMeetsProper(teams, |Pad(teams)| / 2);
    forall i, j | 0 <= i < j < |teams| ensures PlayedOnce(SeasonGames(seasonId, teams), teams[i], teams[j]) {
      TeamMeetsComplete(teams, i, j);
      AsGamesOnce(seasonId, ms, teams[i], teams[j]);
    }
  }

  /** Every game belongs to the season, is pending and is numbered 1 .. M - 1; the
      numbers never decrease along the output. */
  lemma {:induction false} GamesRounds<S, T>(seasonId: S, teams: seq<T>)
    ensures forall k :: 0 <= k < |SeasonGames(seasonId, teams)| ==>
              SeasonGames(seasonId, teams)[k].season == seasonId && SeasonGames(seasonId, teams)[k].status == Pending &&
              1 <= SeasonGames(seasonId, teams)[k].round <= |Pad(teams)| - 1
    ensures forall k1, k2 :: 0 <= k1 < k2 < |SeasonGames(seasonId, teams)| ==>
              SeasonGames(seasonId, teams)[k1].round <= SeasonGames(seasonId, teams)[k2].round
  {
    if |teams| > 0 {
      var start := Pad(teams);
      MeetsRounds(start, |start| - 1, |start| / 2);
      MeetsOrdered(start, |start| - 1, |start| / 2);
    }
  }

  /** Two games share a team. */
  ghost predicate SharesTeam<S, T>(g: Game<S, T>, h: Game<S, T>) {
    g.teamA == h.teamA || g.teamA == h.teamB || g.teamB == h.teamA || g.teamB == h.teamB
  }

  /** For distinct teams no team has two games in one round. */
  lemma {:induction false} GamesRoundDisjoint<S, T>(seasonId: S, teams: seq<T>)
    requires Distinct(teams)
    ensures forall k1, k2 :: 0 <= k1 < k2 < |SeasonGames(seasonId, teams)| && SeasonGames(seasonId, teams)[k1].round == SeasonGames(seasonId, teams)[k2].round ==>
              !SharesTeam(SeasonGames(seasonId, teams)[k1], SeasonGames(seasonId, teams)[k2])
  {
    if |teams| > 0 {
      var start := Pad(teams);
      var ms := TeamMeets(teams, |start| / 2);
      var gs := SeasonGames(seasonId, teams);
      PadDistinct(teams);
      MeetsRoundDisjoint(start, |start| - 1, |start| / 2);
      forall k1, k2 | 0 <= k1 < k2 < |gs| && gs[k1].round == gs[k2].round ensures !SharesTeam(gs[k1], gs[k2]) {
        assert ms[k1].round == ms[k2].round;
        assert !Touches(ms[k1], ms[k2]);
      }
    }
  }

  /** Playing in game round r is playing in meet round r - 1. */
  lemma {:induction false} PlaysInRoundShift<S, T>(seasonId: S, ms: seq<Meet<T>>, r: int, x: T)
    requires r >= 1
    ensures PlaysIn(ms, r - 1, x) ==> PlaysInRound(AsGames(seasonId, ms), r, x)
    ensures !PlaysIn(ms, r - 1, x) ==> !PlaysInRound(AsGames(seasonId, ms), r, x)
  {
    var gs := AsGames(seasonId, ms);
    if PlaysIn(ms, r - 1, x) {
      var k :| 0 <= k < |ms| && ms[k].round == r - 1 && InMeet(ms[k], x);
      assert gs[k].round == r && InGame(gs[k], x);
    }
    if PlaysInRound(gs, r, x) {
      var k :| 0 <= k < |gs| && gs[k].round == r && InGame(gs[k], x);
      assert ms[k].round == r - 1 && InMeet(ms[k], x);
    }
  }

  /** For an odd count N of distinct teams team i plays in every round 1 .. N but one:
      round RestRound(teams, i) + 1 (itself in 1 .. N), the round it is paired with the
      bye. */
  lemma {:induction false} GamesRestOnce<S, T>(seasonId: S, teams: seq<T>, i: nat, r: int)
    requires Distinct(teams) && |teams| % 2 == 1 && i < |teams| && 1 <= r <= |teams|
    ensures r != RestRound(teams, i) + 1 ==> PlaysInRound(SeasonGames(seasonId, teams), r, teams[i])
    ensures r == RestRound(teams, i) + 1 ==> !PlaysInRound(SeasonGames(seasonId, teams), r, teams[i])
  {
    TeamMeetsRest(teams, i, r - 1);
    PlaysInRoundShift(seasonId, TeamMeets(teams, |Pad(teams)| / 2), r, teams[i]);
  }

  /** There is no home and away alternation: the team listed first, which stays in slot
      0, is teamA in every one of its games. */
  lemma {:induction false} FixedTeamIsTeamA<S, T>(seasonId: S, teams: seq<T>)
    requires Distinct(teams) && |teams| > 0
    ensures forall k :: 0 <= k < |SeasonGames(seasonId, teams)| && InGame(SeasonGames(seasonId, teams)[k], teams[0]) ==>
              SeasonGames(seasonId, teams)[k].teamA == teams[0]
  {
    var start := Pad(teams);
    var K := |start| - 1;
    var ms := TeamMeets(teams, |start| / 2);
    var gs := SeasonGames(seasonId, teams);
    PadDistinct(teams);
    MeetsPlaced(start, K, |start| / 2);
    forall k | 0 <= k < |gs| && InGame(gs[k], teams[0]) ensures gs[k].teamA == teams[0] {
      PlacedFixedFirst(start, ms[k], K, |start| / 2);
    }
  }
}
