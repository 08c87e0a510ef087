/**
 * The fixture generators of the roleplay controller: the circle-method round robin
 * with home and away alternating by round, the date stamping, the double round
 * robin, the single-elimination pairing, the format switch and the two generation
 * handlers (without their database reads and writes).
 *
 * Dates are whole day numbers; a missing date is None.
 */
module Roleplay {
  import opened Wrappers
  import opened CircleMethod
  import opened CircleTheorems
  import opened TeamSchedules

  /** A fixture: the home team and the away team. */
  datatype Fixture<T> = Fixture(home: T, away: T)

  /** A fixture with its day number, or with no date. */
  datatype Dated<T> = Dated(home: T, away: T, date: Option<int>)

  /** Why a handler generates nothing. */
  datatype Error = TooFewTeams

  datatype Result<R> = Ok(value: R) | Err(error: Error)

  // ---------------------------------------------------------------------------
  // Round robin
  // ---------------------------------------------------------------------------

  /** Home and away of a meet: slot i is at home in even rounds, slot M-1-i in odd rounds. */
  function Orient<T>(mt: Meet<T>): (f: Fixture<T>)
    ensures mt.round % 2 == 0 ==> f.home == mt.first && f.away == mt.second
    ensures mt.round % 2 == 1 ==> f.home == mt.second && f.away == mt.first
  {
    if mt.round % 2 == 0 then Fixture(mt.first, mt.second) else Fixture(mt.second, mt.first)
  }

  function Oriented<T>(ms: seq<Meet<T>>): seq<Fixture<T>> {
    seq(|ms|, k requires 0 <= k < |ms| => Orient(ms[k]))
  }

  lemma OrientedAppend<T>(a: seq<Meet<T>>, b: seq<Meet<T>>)
    ensures Oriented(a + b) == Oriented(a) + Oriented(b)
  {
    assert forall k :: 0 <= k < |a + b| ==> Oriented(a + b)[k] == (Oriented(a) + Oriented(b))[k];
  }

  /** The examined slot pairs of the round robin: M - 1 rounds over the padded list (M
      slots), with floor(N / 2) slot pairs per round, N being the unpadded count. */
  function RoundRobinMeets<T>(teams: seq<T>): seq<Meet<T>> {
    TeamMeets(teams, |teams| / 2)
  }

  /** The fixtures of the round robin, oriented by round parity. */
  function RoundRobin<T>(teams: seq<T>): seq<Fixture<T>> {
    Oriented(RoundRobinMeets(teams))
  }

  /** The round robin with every slot pair of every round examined (M / 2 pairs per
      round instead of floor(N / 2)): the all-against-all schedule the league handler
      announces, which the controller produces only for an even count. */
  function CompleteRoundRobin<T>(teams: seq<T>): seq<Fixture<T>> {
    Oriented(TeamMeets(teams, |Pad(teams)| / 2))
  }

  /** The fixture slot pair i of one round adds, if it holds no bye. */
  function SlotFixture<T>(slots: seq<Option<T>>, round: nat, i: nat): seq<Fixture<T>>
    requires 2 * i < |slots|
  {
    var home, away := slots[i], slots[|slots| - 1 - i];
    if home.Some? && away.Some? then
      (if round % 2 == 0 then [Fixture(home.value, away.value)] else [Fixture(away.value, home.value)])
    else []
  }

  /** One more slot pair of a round. */
  lemma RoundFixturesStep<T>(slots: seq<Option<T>>, round: nat, i: nat)
    requires 2 * (i + 1) <= |slots|
    ensures Oriented(RoundMeets(slots, round, i + 1)) == Oriented(RoundMeets(slots, round, i)) + SlotFixture(slots, round, i)
  {
    var first, second := slots[i], slots[|slots| - 1 - i];
    OrientedAppend(RoundMeets(slots, round, i), if first.Some? && second.Some? then [Meet(round, i, first.value, second.value)] else []);
  }

  /** One more round of the schedule. */
  lemma FixturesStep<T>(start: seq<Option<T>>, round: nat, m: nat)
    requires |start| >= 2 && 2 * m <= |start|
    ensures Oriented(Meets(start, round + 1, m)) == Oriented(Meets(start, round, m)) + Oriented(RoundMeets(RotateN(start, round), round, m))
  {
    MeetsUnfold(start, round + 1, m);
    OrientedAppend(Meets(start, round, m), RoundMeets(RotateN(start, round), round, m));
  }

  /** The fixtures of one round: slot pairs (i, M-1-i) for i < matchesPerRound in
      ascending order, bye pairs skipped, slot i at home in even rounds. */
  method RoundFixtures<T>(teamArray: seq<Option<T>>, round: nat, matchesPerRound: nat) returns (roundFixtures: seq<Fixture<T>>)
    requires 2 * matchesPerRound <= |teamArray|
    ensures roundFixtures == Oriented(RoundMeets(teamArray, round, matchesPerRound))
  {
    roundFixtures := [];
    var i := 0;
    while i < matchesPerRound
      invariant 0 <= i <= matchesPerRound
      invariant roundFixtures == Oriented(RoundMeets(teamArray, round, i))
    {
      var homeIndex := i;
      var awayIndex := |teamArray| - 1 - i;
      RoundFixturesStep(teamArray, round, i);
      if teamArray[homeIndex].Some? && teamArray[awayIndex].Some? {
        if round % 2 == 0 {
          roundFixtures := roundFixtures + [Fixture(teamArray[homeIndex].value, teamArray[awayIndex].value)];
        } else {
          roundFixtures := roundFixtures + [Fixture(teamArray[awayIndex].value, teamArray[homeIndex].value)];
        }
      }
      i := i + 1;
    }
  }

  /** The rotation after each round: slot 0 stays, the last slot is popped and put in
      front of the other slots. */
  method RotateTeams<T>(teamArray: seq<Option<T>>) returns (rotated: seq<Option<T>>)
    requires |teamArray| >= 2
    ensures rotated == Rotate(teamArray)
  {
    var fixedTeam := teamArray[0];
    var rotatingTeams := teamArray[1..];
    var lastTeam := rotatingTeams[|rotatingTeams| - 1];
    rotatingTeams := [lastTeam] + rotatingTeams[..|rotatingTeams| - 1];
    rotated := [fixedTeam] + rotatingTeams;
  }

  /** The working copy of the team list, with a bye appended when the count is odd. */
  method PadTeams<T>(teams: seq<T>) returns (teamArray: seq<Option<T>>)
    ensures teamArray == Pad(teams)
  {
    teamArray := seq(|teams|, k requires 0 <= k < |teams| => Some(teams[k]));
    if |teams| % 2 != 0 {
      teamArray := teamArray + [None];
    }
  }

  /** The state after `round` rounds of the controller's loop over the padded list
      `start`: the working copy rotated `round` times and the fixtures of those rounds. */
  ghost predicate RoundsPlayed<T>(start: seq<Option<T>>, m: nat, round: nat, teamArray: seq<Option<T>>, fixtures: seq<Fixture<T>>) {
    |start| >= 2 && 2 * m <= |start| && round <= |start| - 1 &&
    teamArray == RotateN(start, round) && fixtures == Oriented(Meets(start, round, m))
  }

  /** One round of the loop: the round's fixtures appended, the working copy rotated. */
  lemma RoundsPlayedStep<T>(start: seq<Option<T>>, m: nat, round: nat, teamArray: seq<Option<T>>, fixtures: seq<Fixture<T>>,
                            nextArray: seq<Option<T>>, nextFixtures: seq<Fixture<T>>)
    requires RoundsPlayed(start, m, round, teamArray, fixtures) && round < |start| - 1
    requires nextArray == Rotate(teamArray) && nextFixtures == fixtures + Oriented(RoundMeets(teamArray, round, m))
    ensures RoundsPlayed(start, m, round + 1, nextArray, nextFixtures)
  {
    FixturesStep(start, round, m);
  }

  /** Before the first round: nothing played, the working copy as padded. */
  lemma RoundsPlayedStart<T>(start: seq<Option<T>>, m: nat)
    ensures |start| >= 2 && 2 * m <= |start| ==> RoundsPlayed(start, m, 0, start, [])
  {
  }

  /** After the last round the fixtures are the round robin of the teams. */
  lemma RoundsPlayedDone<T>(teams: seq<T>, round: nat, teamArray: seq<Option<T>>, fixtures: seq<Fixture<T>>)
    requires |teams| > 0 && RoundsPlayed(Pad(teams), |teams| / 2, round, teamArray, fixtures)
    requires round >= |Pad(teams)| - 1
    ensures fixtures == RoundRobin(teams)
  {
    assert round == |Pad(teams)| - 1;
  }

  /** The circle method as the controller runs it: a working copy of the team list
      padded with a bye, M - 1 rounds of floor(N / 2) slot pairs each, bye pairs
      skipped, then a rotation of every slot but the first. */
  method GenerateRoundRobinFixtures<T>(teams: seq<T>) returns (fixtures: seq<Fixture<T>>)
    ensures fixtures == RoundRobin(teams)
  {
    fixtures := [];
    var teamCount := |teams|;
    var hasBye := teamCount % 2 != 0;
    var totalRounds: int := if hasBye then teamCount else teamCount - 1;
    var matchesPerRound := teamCount / 2;
    var teamArray := PadTeams(teams);
    ghost var start := teamArray;
    RoundsPlayedStart(start, matchesPerRound);
    var round: nat := 0;
    while round < totalRounds
      invariant teamCount > 0 ==> totalRounds == |start| - 1 && RoundsPlayed(start, matchesPerRound, round, teamArray, fixtures)
      invariant teamCount == 0 ==> fixtures == []
    {
      var roundFixtures := RoundFixtures(teamArray, round, matchesPerRound);
      ghost var played, before := fixtures, teamArray;
      fixtures := fixtures + roundFixtures;
      teamArray := RotateTeams(teamArray);
      RoundsPlayedStep(start, matchesPerRound, round, before, played, teamArray, fixtures);
      round := round + 1;
    }
    if teamCount > 0 {
      RoundsPlayedDone(teams, round, teamArray, fixtures);
    }
  }

  /** After the last round with every slot pair examined the fixtures are the
      complete round robin of the teams. */
  lemma CompleteRoundsPlayedDone<T>(teams: seq<T>, round: nat, teamArray: seq<Option<T>>, fixtures: seq<Fixture<T>>)
    requires |teams| > 0 && RoundsPlayed(Pad(teams), |Pad(teams)| / 2, round, teamArray, fixtures)
    requires round >= |Pad(teams)| - 1
    ensures fixtures == CompleteRoundRobin(teams)
  {
    assert round == |Pad(teams)| - 1;
  }

  /** The generator with matchesPerRound taken from the padded length, as the game
      generator takes it: the same loop, every slot pair of every round examined. */
  method GenerateCompleteRoundRobinFixtures<T>(teams: seq<T>) returns (fixtures: seq<Fixture<T>>)
    ensures fixtures == CompleteRoundRobin(teams)
  {
    fixtures := [];
    var teamArray := PadTeams(teams);
    var totalRounds := |teamArray| - 1;
    var matchesPerRound := |teamArray| / 2;
    ghost var start := teamArray;
    RoundsPlayedStart(start, matchesPerRound);
    var round: nat := 0;
    while round < totalRounds
      invariant |teams| > 0 ==> totalRounds == |start| - 1 && RoundsPlayed(start, matchesPerRound, round, teamArray, fixtures)
      invariant |teams| == 0 ==> fixtures == []
    {
      var roundFixtures := RoundFixtures(teamArray, round, matchesPerRound);
      ghost var played, before := fixtures, teamArray;
      fixtures := fixtures + roundFixtures;
      teamArray := RotateTeams(teamArray);
      RoundsPlayedStep(start, matchesPerRound, round, before, played, teamArray, fixtures);
      round := round + 1;
    }
    if |teams| > 0 {
      CompleteRoundsPlayedDone(teams, round, teamArray, fixtures);
    }
  }

  // ---------------------------------------------------------------------------
  // Dates
  // ---------------------------------------------------------------------------

  /** Fixture k dated start + k * intervalDays. */
  function Schedule<T>(fixtures: seq<Fixture<T>>, start: int, intervalDays: int): (ds: seq<Dated<T>>)
    ensures |ds| == |fixtures|
  {
    seq(|fixtures|, k requires 0 <= k < |fixtures| => Dated(fixtures[k].home, fixtures[k].away, Some(start + k * intervalDays)))
  }

  /** Every fixture with no date. */
  function WithoutDates<T>(fixtures: seq<Fixture<T>>): (ds: seq<Dated<T>>)
    ensures |ds| == |fixtures|
  {
    seq(|fixtures|, k requires 0 <= k < |fixtures| => Dated(fixtures[k].home, fixtures[k].away, None))
  }

  /** The fixtures, with their dates dropped. */
  function Undated<T>(ds: seq<Dated<T>>): seq<Fixture<T>> {
    seq(|ds|, k requires 0 <= k < |ds| => Fixture(ds[k].home, ds[k].away))
  }

  /** One fixture per date: a running date advanced by intervalDays after each fixture. */
  method ScheduleFixtures<T>(fixtures: seq<Fixture<T>>, startDate: int, intervalDays: int) returns (scheduled: seq<Dated<T>>)
    ensures scheduled == Schedule(fixtures, startDate, intervalDays)
  {
    scheduled := [];
    var currentDate := startDate;
    var k := 0;
    while k < |fixtures|
      invariant 0 <= k <= |fixtures| && |scheduled| == k
      invariant currentDate == startDate + k * intervalDays
      invariant forall j :: 0 <= j < k ==> scheduled[j] == Schedule(fixtures, startDate, intervalDays)[j]
    {
      var fixture := fixtures[k];
      scheduled := scheduled + [Dated(fixture.home, fixture.away, Some(currentDate))];
      currentDate := currentDate + intervalDays;
      assert (k + 1) * intervalDays == k * intervalDays + intervalDays;
      k := k + 1;
    }
  }

  /** Dating keeps the fixtures, their order and their home and away teams; fixture k
      gets day start + k * intervalDays, each one intervalDays after the one before. */
  lemma ScheduleDates<T>(fixtures: seq<Fixture<T>>, start: int, intervalDays: int)
    ensures Undated(Schedule(fixtures, start, intervalDays)) == fixtures
    ensures forall k :: 0 <= k < |fixtures| ==> Schedule(fixtures, start, intervalDays)[k].date == Some(start + k * intervalDays)
    ensures forall k :: 0 < k < |fixtures| ==>
              Schedule(fixtures, start, intervalDays)[k].date.value == Schedule(fixtures, start, intervalDays)[k - 1].date.value + intervalDays
  {
    var ds := Schedule(fixtures, start, intervalDays);
    assert Undated(ds) == fixtures;
    forall k | 0 < k < |fixtures| ensures ds[k].date.value == ds[k - 1].date.value + intervalDays {
      assert k * intervalDays == (k - 1) * intervalDays + intervalDays;
    }
  }

  /** Without a start date the fixtures are kept and every date is null. */
  lemma WithoutDatesKeeps<T>(fixtures: seq<Fixture<T>>)
    ensures Undated(WithoutDates(fixtures)) == fixtures
    ensures forall k :: 0 <= k < |fixtures| ==> WithoutDates(fixtures)[k].date == None
  {
    assert Undated(WithoutDates(fixtures)) == fixtures;
  }

  /** The dates the handlers stamp: a schedule from the start date when there is one,
      no dates otherwise. */
  function Stamp<T>(fixtures: seq<Fixture<T>>, startDate: Option<int>, intervalDays: int): (ds: seq<Dated<T>>)
    ensures |ds| == |fixtures|
    ensures forall k :: 0 <= k < |ds| ==>
              ds[k].home == fixtures[k].home && ds[k].away == fixtures[k].away && (ds[k].date.Some? <==> startDate.Some?)
  {
    if startDate.Some? then Schedule(fixtures, startDate.value, intervalDays) else WithoutDates(fixtures)
  }

  // ---------------------------------------------------------------------------
  // Double round robin and single elimination
  // ---------------------------------------------------------------------------

  /** Every fixture with home and away swapped. */
  function SecondLeg<T>(firstLeg: seq<Fixture<T>>): (r: seq<Fixture<T>>)
    ensures |r| == |firstLeg|
  {
    seq(|firstLeg|, k requires 0 <= k < |firstLeg| => Fixture(firstLeg[k].away, firstLeg[k].home))
  }

  /** The round robin followed by its venue-swapped copy. */
  function DoubleRoundRobin<T>(teams: seq<T>): seq<Fixture<T>> {
    RoundRobin(teams) + SecondLeg(RoundRobin(teams))
  }

  /** The double round robin is twice as long as the first leg, starts with it, and
      its entry |firstLeg| + k is the first leg's entry k with home and away swapped. */
  lemma DoubleRoundRobinShape<T>(teams: seq<T>)
    ensures |DoubleRoundRobin(teams)| == 2 * |RoundRobin(teams)|
    ensures DoubleRoundRobin(teams)[..|RoundRobin(teams)|] == RoundRobin(teams)
    ensures forall k :: 0 <= k < |RoundRobin(teams)| ==>
              DoubleRoundRobin(teams)[|RoundRobin(teams)| + k] == Fixture(RoundRobin(teams)[k].away, RoundRobin(teams)[k].home)
  {
    var first := RoundRobin(teams);
    assert DoubleRoundRobin(teams)[..|first|] == first;
  }

  /** Swapping venues twice gives back the first leg. */
  lemma SecondLegInvolutive<T>(firstLeg: seq<Fixture<T>>)
    ensures SecondLeg(SecondLeg(firstLeg)) == firstLeg
  {
    assert forall k :: 0 <= k < |firstLeg| ==> SecondLeg(SecondLeg(firstLeg))[k] == firstLeg[k];
  }

  /** Consecutive teams of the shuffled order, paired once: (s[0], s[1]), (s[2], s[3]), ... */
  function FirstRoundPairs<T>(shuffled: seq<T>): (r: seq<Fixture<T>>)
    ensures |r| == |shuffled| / 2
    ensures forall k :: 0 <= k < |r| ==> r[k].home in shuffled && r[k].away in shuffled
  {
    seq(|shuffled| / 2, k requires 0 <= k < |shuffled| / 2 => Fixture(shuffled[2 * k], shuffled[2 * k + 1]))
  }

  /** Single elimination over a caller-supplied shuffle of the teams. The outer loop
      runs at most once, since the list of the next round's teams is never filled. */
  method GenerateSingleEliminationFixtures<T>(teams: seq<T>, shuffled: seq<T>) returns (fixtures: seq<Fixture<T>>)
    requires multiset(shuffled) == multiset(teams)
    ensures fixtures == FirstRoundPairs(shuffled)
  {
    fixtures := [];
    var currentRoundTeams := shuffled;
    while |currentRoundTeams| > 1
      invariant (currentRoundTeams == shuffled && fixtures == []) || (currentRoundTeams == [] && fixtures == FirstRoundPairs(shuffled))
      decreases |currentRoundTeams|
    {
      var nextRoundTeams: seq<T> := [];
      var i := 0;
      while i < |currentRoundTeams|
        invariant 0 <= i <= |currentRoundTeams| + 1 && i % 2 == 0
        invariant fixtures == FirstRoundPairs(currentRoundTeams[..(if i <= |currentRoundTeams| then i else i - 1)])
        decreases |currentRoundTeams| - i
      {
        if i + 1 < |currentRoundTeams| {
          fixtures := fixtures + [Fixture(currentRoundTeams[i], currentRoundTeams[i + 1])];
        }
        i := i + 2;
      }
      currentRoundTeams := nextRoundTeams;
    }
  }

  // ---------------------------------------------------------------------------
  // Format switch and handlers
  // ---------------------------------------------------------------------------

  /** The fixtures of each format; an unrecognised format falls back to the round robin. */
  function FormatFixtures<T>(format: string, teams: seq<T>, shuffled: seq<T>): (r: seq<Fixture<T>>)
    ensures format != "single-elimination" ==> |RoundRobin(teams)| <= |r| && r[..|RoundRobin(teams)|] == RoundRobin(teams)
    ensures format == "single-elimination" ==> r == FirstRoundPairs(shuffled)
  {
    if format == "round-robin" then RoundRobin(teams)
    else if format == "double-round-robin" then DoubleRoundRobin(teams)
    else if format == "single-elimination" then FirstRoundPairs(shuffled)
    else RoundRobin(teams)
  }

  /** The switch on the requested format. */
  method GenerateFormatFixtures<T>(format: string, teams: seq<T>, shuffled: seq<T>) returns (fixtures: seq<Fixture<T>>)
    requires multiset(shuffled) == multiset(teams)
    ensures fixtures == FormatFixtures(format, teams, shuffled)
  {
    if format == "round-robin" {
      fixtures := GenerateRoundRobinFixtures(teams);
    } else if format == "double-round-robin" {
      var firstLeg := GenerateRoundRobinFixtures(teams);
      var secondLeg := seq(|firstLeg|, k requires 0 <= k < |firstLeg| => Fixture(firstLeg[k].away, firstLeg[k].home));
      fixtures := firstLeg + secondLeg;
    } else if format == "single-elimination" {
      fixtures := GenerateSingleEliminationFixtures(teams, shuffled);
    } else {
      fixtures := GenerateRoundRobinFixtures(teams);
    }
  }

  /** Any format other than the three named ones yields the single round robin. */
  lemma FormatFallback<T>(format: string, teams: seq<T>, shuffled: seq<T>)
    requires format != "round-robin" && format != "double-round-robin" && format != "single-elimination"
    ensures FormatFixtures(format, teams, shuffled) == RoundRobin(teams)
  {
  }

  /** The interval between dates when the request gives none: 7 days. */
  function IntervalOrDefault(matchIntervalDays: Option<int>): (d: int)
    ensures matchIntervalDays.None? ==> d == 7
    ensures matchIntervalDays.Some? ==> d == matchIntervalDays.value
  {
    if matchIntervalDays.Some? then matchIntervalDays.value else 7
  }

  /** The format when the request gives none: the round robin. */
  function FormatOrDefault(format: Option<string>): (f: string)
    ensures format.None? ==> f == "round-robin"
    ensures format.Some? ==> f == format.value
  {
    if format.Some? then format.value else "round-robin"
  }

  /** The league generation handler without its lookups and writes: fewer than two
      teams is an error; otherwise the round robin, dated from startDate if given. */
  method GenerateLeagueRoleplays<T>(teams: seq<T>, startDate: Option<int>, matchIntervalDays: Option<int>) returns (r: Result<seq<Dated<T>>>)
    ensures |teams| < 2 <==> r == Err(TooFewTeams)
    ensures |teams| >= 2 ==> r == Ok(Stamp(RoundRobin(teams), startDate, IntervalOrDefault(matchIntervalDays)))
  {
    var intervalDays := IntervalOrDefault(matchIntervalDays);
    if |teams| < 2 {
      return Err(TooFewTeams);
    }
    var fixtures := GenerateRoundRobinFixtures(teams);
    var scheduled;
    if startDate.Some? {
      scheduled := ScheduleFixtures(fixtures, startDate.value, intervalDays);
    } else {
      scheduled := WithoutDates(fixtures);
    }
    r := Ok(scheduled);
  }

  /** The custom generation handler without its lookups and writes: fewer than two
      teams is an error; otherwise the fixtures of the requested format (round robin
      by default), dated from startDate if given. */
  method GenerateCustomRoleplays<T>(format: Option<string>, teams: seq<T>, shuffled: seq<T>,
                                    startDate: Option<int>, matchIntervalDays: Option<int>) returns (r: Result<seq<Dated<T>>>)
    requires multiset(shuffled) == multiset(teams)
    ensures |teams| < 2 <==> r == Err(TooFewTeams)
    ensures |teams| >= 2 ==> r == Ok(Stamp(FormatFixtures(FormatOrDefault(format), teams, shuffled), startDate, IntervalOrDefault(matchIntervalDays)))
  {
    var fmt := FormatOrDefault(format);
    var intervalDays := IntervalOrDefault(matchIntervalDays);
    if |teams| < 2 {
      return Err(TooFewTeams);
    }
    var fixtures := GenerateFormatFixtures(fmt, teams, shuffled);
    var scheduled;
    if startDate.Some? {
      scheduled := ScheduleFixtures(fixtures, startDate.value, intervalDays);
    } else {
      scheduled := WithoutDates(fixtures);
    }
    r := Ok(scheduled);
  }
}
