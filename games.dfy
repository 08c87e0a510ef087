/**
 * The game generation of the game controller without its database reads and
 * writes: a season that has no games yet gets a complete circle-method schedule of
 * its teams, padded with a bye when their count is odd, M - 1 rounds of M / 2 slot
 * pairs, every game numbered with its round from 1 and left pending.
 */
module Games {
  import opened Wrappers
  import opened CircleMethod
  import opened CircleTheorems
  import opened TeamSchedules

  /** The status of a game record; generated games are pending. */
  datatype Status = Pending | Played | Canceled

  /** A generated game record: its season, its two teams and its round (from 1). */
  datatype Game<S, T> = Game(season: S, teamA: T, teamB: T, round: int, status: Status)

  /** What the generation handler answers: the season already has games, the season
      does not exist, or the games it created. */
  datatype Outcome<S, T> = GamesExist | SeasonNotFound | Created(games: seq<Game<S, T>>)

  /** The game of a meet: the slot i team is teamA, rounds numbered from 1. */
  function AsGame<S, T>(seasonId: S, mt: Meet<T>): (g: Game<S, T>)
    ensures g.season == seasonId && g.status == Pending && g.round >= 1
  {
    Game(seasonId, mt.first, mt.second, mt.round + 1, Pending)
  }

  function AsGames<S, T>(seasonId: S, ms: seq<Meet<T>>): seq<Game<S, T>> {
    seq(|ms|, k requires 0 <= k < |ms| => AsGame(seasonId, ms[k]))
  }

  lemma AsGamesAppend<S, T>(seasonId: S, a: seq<Meet<T>>, b: seq<Meet<T>>)
    ensures AsGames(seasonId, a + b) == AsGames(seasonId, a) + AsGames(seasonId, b)
  {
    assert forall k :: 0 <= k < |a + b| ==> AsGames(seasonId, a + b)[k] == (AsGames(seasonId, a) + AsGames(seasonId, b))[k];
  }

  /** The games of a season's teams: every slot pair of every round of the padded list. */
  function SeasonGames<S, T>(seasonId: S, teams: seq<T>): seq<Game<S, T>> {
    AsGames(seasonId, TeamMeets(teams, |Pad(teams)| / 2))
  }

  // ---------------------------------------------------------------------------
  // The generation loop
  // ---------------------------------------------------------------------------

  /** The games slot pair i of one round adds, if it holds no bye. */
  function SlotGame<S, T>(seasonId: S, slots: seq<Option<T>>, round: nat, i: nat): seq<Game<S, T>>
    requires 2 * i < |slots|
  {
    var teamA, teamB := slots[i], slots[|slots| - 1 - i];
    if teamA.Some? && teamB.Some? then [Game(seasonId, teamA.value, teamB.value, round + 1, Pending)] else []
  }

  lemma RoundGamesStep<S, T>(seasonId: S, slots: seq<Option<T>>, round: nat, i: nat)
    requires 2 * (i + 1) <= |slots|
    ensures AsGames(seasonId, RoundMeets(slots, round, i + 1)) == AsGames(seasonId, RoundMeets(slots, round, i)) + SlotGame(seasonId, slots, round, i)
  {
    var first, second := slots[i], slots[|slots| - 1 - i];
    AsGamesAppend(seasonId, RoundMeets(slots, round, i), if first.Some? && second.Some? then [Meet(round, i, first.value, second.value)] else []);
  }

  /** The games of one round: slot i against slot M - 1 - i for i < gamesPerRound, in
      ascending i, bye pairs skipped. */
  method RoundGames<S, T>(seasonId: S, teams: seq<Option<T>>, round: nat, gamesPerRound: nat) returns (roundGames: seq<Game<S, T>>)
    requires 2 * gamesPerRound <= |teams|
    ensures roundGames == AsGames(seasonId, RoundMeets(teams, round, gamesPerRound))
  {
    roundGames := [];
    var i := 0;
    while i < gamesPerRound
      invariant 0 <= i <= gamesPerRound
      invariant roundGames == AsGames(seasonId, RoundMeets(teams, round, i))
    {
      var teamA := teams[i];
      var teamB := teams[|teams| - 1 - i];
      RoundGamesStep(seasonId, teams, round, i);
      if teamA.Some? && teamB.Some? {
        roundGames := roundGames + [Game(seasonId, teamA.value, teamB.value, round + 1, Pending)];
      }
      i := i + 1;
    }
  }

  /** The rotation after each round: the first team stays, the last of the remaining
      teams moves to the front of them. */
  method RotateRemaining<T>(teams: seq<Option<T>>) returns (rotated: seq<Option<T>>)
    requires |teams| >= 2
    ensures rotated == Rotate(teams)
  {
    var firstTeam := teams[0];
    var remainingTeams := teams[1..];
    var lastTeam := remainingTeams[|remainingTeams| - 1];
    remainingTeams := [lastTeam] + remainingTeams[..|remainingTeams| - 1];
    rotated := [firstTeam] + remainingTeams;
  }

  /** The state after `round` rounds over the padded list `start`. */
  ghost predicate RoundsGenerated<S, T>(seasonId: S, start: seq<Option<T>>, round: nat, teams: seq<Option<T>>, games: seq<Game<S, T>>) {
    |start| >= 2 && |start| % 2 == 0 && round <= |start| - 1 &&
    teams == RotateN(start, round) && games == AsGames(seasonId, Meets(start, round, |start| / 2))
  }

  lemma RoundsGeneratedStep<S, T>(seasonId: S, start: seq<Option<T>>, round: nat, teams: seq<Option<T>>, games: seq<Game<S, T>>,
                                 nextTeams: seq<Option<T>>, nextGames: seq<Game<S, T>>)
    requires RoundsGenerated(seasonId, start, round, teams, games) && round < |start| - 1
    requires nextTeams == Rotate(teams) && nextGames == games + AsGames(seasonId, RoundMeets(teams, round, |start| / 2))
    ensures RoundsGenerated(seasonId, start, round + 1, nextTeams, nextGames)
  {
    MeetsUnfold(start, round + 1, |start| / 2);
    AsGamesAppend(seasonId, Meets(start, round, |start| / 2), RoundMeets(RotateN(start, round), round, |start| / 2));
  }

  lemma RoundsGeneratedStart<S, T>(seasonId: S, teams: seq<T>)
    ensures |teams| > 0 ==> RoundsGenerated(seasonId, Pad(teams), 0, Pad(teams), [])
  {
  }

  lemma RoundsGeneratedDone<S, T>(seasonId: S, teams: seq<T>, round: nat, slots: seq<Option<T>>, games: seq<Game<S, T>>)
    requires |teams| > 0 && RoundsGenerated(seasonId, Pad(teams), round, slots, games)
    requires round >= |Pad(teams)| - 1
    ensures games == SeasonGames(seasonId, teams)
  {
    assert round == |Pad(teams)| - 1;
  }

  /** The season's team list, with a bye pushed when the count is odd. */
  method PadSeason<T>(seasonTeams: seq<T>) returns (teams: seq<Option<T>>)
    ensures teams == Pad(seasonTeams)
  {
    teams := seq(|seasonTeams|, k requires 0 <= k < |seasonTeams| => Some(seasonTeams[k]));
    if |teams| % 2 != 0 {
      teams := teams + [None];
    }
  }

  /** The scheduling part of the handler: pad, then M - 1 rounds of M / 2 slot pairs,
      rotating all teams but the first after each round. */
  method ScheduleGames<S, T>(seasonId: S, seasonTeams: seq<T>) returns (generatedGames: seq<Game<S, T>>)
    ensures generatedGames == SeasonGames(seasonId, seasonTeams)
  {
    var teams := PadSeason(seasonTeams);
    RoundsGeneratedStart(seasonId, seasonTeams);
    var numTeams := |teams|;
    var numRounds := numTeams - 1;
    var gamesPerRound := numTeams / 2;
    generatedGames := [];
    var round: nat := 0;
    while round < numRounds
      invariant |seasonTeams| > 0 ==> numTeams == |Pad(seasonTeams)| && RoundsGenerated(seasonId, Pad(seasonTeams), round, teams, generatedGames)
      invariant |seasonTeams| == 0 ==> numRounds < 0 && generatedGames == []
    {
      var roundGames := RoundGames(seasonId, teams, round, gamesPerRound);
      ghost var generated, before := generatedGames, teams;
      generatedGames := generatedGames + roundGames;
      teams := RotateRemaining(teams);
      RoundsGeneratedStep(seasonId, Pad(seasonTeams), round, before, generated, teams, generatedGames);
      round := round + 1;
    }
    if |seasonTeams| > 0 {
      RoundsGeneratedDone(seasonId, seasonTeams, round, teams, generatedGames);
    }
  }

  /** The handler: nothing is generated when the season already has games, or when the
      season does not exist (the lookup is None); otherwise the season's schedule. */
  method GenerateGames<S, T>(seasonId: S, existingGames: nat, season: Option<seq<T>>) returns (out: Outcome<S, T>)
    ensures existingGames > 0 <==> out == GamesExist
    ensures out == SeasonNotFound <==> existingGames == 0 && season.None?
    ensures existingGames == 0 && season.Some? ==> out == Created(SeasonGames(seasonId, season.value))
  {
    if existingGames > 0 {
      return GamesExist;
    }
    if season.None? {
      return SeasonNotFound;
    }
    var games := ScheduleGames(seasonId, season.value);
    out := Created(games);
  }
}
