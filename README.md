# League scheduling core, modelled in Dafny

This is a model of the scheduling core of a sports-league back end (an Express and
Mongoose server), with proofs of what that core guarantees. It covers three parts.

- **Roleplay fixture generation** (`controllers/roleplayController.js`):
  - the circle-method round robin. The team list is copied and padded with a bye when
    its length is odd. In each round, slot `i` is paired with slot `M-1-i`. Home and away
    swap on odd rounds. After each round, every slot but slot 0 rotates by one place;
  - the date stamping of fixtures, `intervalDays` apart, or no dates when there is no
    start date;
  - the double round robin: the first leg followed by its venue-swapped copy;
  - the single-elimination pairing of a shuffled list;
  - the format switch, with its fallback to the round robin;
  - the two generation handlers, whose guard rejects fewer than two teams.
- **Season game generation** (`controllers/gameController.js`). This is a second
  circle-method implementation. It takes the number of slot pairs per round from the
  *padded* length, numbers rounds from 1, marks every game pending and never swaps
  home and away. The handler creates nothing when the season already has games or
  does not exist.
- **Login IP blocking** (`middleware/checkBlockIp.js`). The middleware keeps a map
  from IP to the time until which that IP is blocked:
  - a request from a blocked IP gets 429;
  - an expired entry is dropped;
  - otherwise the failed logins of the last 3 minutes are counted, and 3 or more block
    the IP for 3 minutes and answer 429.

## Files

| file | module | contents |
|---|---|---|
| `wrappers.dfy` | `Wrappers` | `Option` |
| `circle.dfy` | `CircleMethod` | The circle method shared by both generators:<br>• padding and the rotation step;<br>• the closed form of `r` rotations (`Origin`, `Position`);<br>• the round and slot pair where two teams meet (`MeetRound`, `MeetSlot`);<br>• the schedule as a sequence of `Meet(round, slot, first, second)`. |
| `circle_theorems.dfy` | `CircleTheorems` | What the schedule satisfies for distinct teams:<br>• proper meets;<br>• no repeats;<br>• each pair once when its slot pair is examined, never when it is not;<br>• rounds disjoint;<br>• exactly one rest round per team when there is a bye;<br>• counts. |
| `team_schedules.dfy` | `TeamSchedules` | The same facts restated over the caller's list of teams. |
| `roleplay.dfy` | `Roleplay` | The fixture generators as loops, proved equal to specification functions, plus the handlers. |
| `roleplay_theorems.dfy` | `RoleplayTheorems` | The properties of the fixtures. |
| `games.dfy` | `Games` | The game generator as loops, proved equal to `SeasonGames`, plus the handler. |
| `games_theorems.dfy` | `GamesTheorems` | The properties of the games. |
| `ipblock.dfy` | `IpBlock` | The blocking map as a class, specified by the function `Check`. |

Shared facts:
- Both generators are methods whose loops keep an invariant. After `round` rounds,
  the working array is `RotateN(Pad(teams), round)` and the output is the image of
  `Meets(Pad(teams), round, m)`:
  - the round robin uses `m = floor(N / 2)` and orients each meet by round parity;
  - the game generator uses `m = M / 2` and maps each meet to a `Game` with `round + 1` and `Pending`.
- Team identifiers are an arbitrary type `T`, and the bye is `None`.
- Dates are whole day numbers.

## Model

| member | source | states |
|---|---|---|
| CircleMethod.Pad | controllers/roleplayController.js:426-434 | Every team keeps its index. One `None` (the bye) is appended exactly when the count is odd. The length is even. |
| CircleMethod.PadDistinct | controllers/gameController.js:39-44 | Padding a list of distinct teams gives a list without repeats; the bye differs from every team. |
| CircleMethod.Rotate | controllers/roleplayController.js:464-468 | One rotation keeps the length and slot 0, and moves the last slot to slot 1. |
| CircleMethod.RotateShifts | controllers/gameController.js:70-74 | After a rotation, slots 2 .. M-1 hold what slots 1 .. M-2 held. |
| CircleMethod.RotatePermutes | controllers/roleplayController.js:464-468 | A rotation is a permutation of the working array (same multiset). |
| CircleMethod.RotateN | controllers/roleplayController.js:437-469 | After any number of rounds the working array has its length and its slot-0 team. |
| CircleMethod.OriginClosed | controllers/roleplayController.js:464-468 | Closed form of the index that slot `j` came from after `r <= K` rotations. |
| CircleMethod.OriginIs | controllers/gameController.js:70-74 | Slot `j` holds start index `p` after `r` rotations exactly when `j = Position(K, r, p)`. Together with PositionOrigin this makes round `r` a permutation of the padded list. |
| CircleMethod.PositionOrigin | controllers/gameController.js:70-74 | The slot named by Position holds the team that started at `p`. |
| CircleMethod.RotateNAt | controllers/roleplayController.js:464-468 | Slot `j` of the working array after `r` rounds is `start[Origin(K, r, j)]`. |
| CircleMethod.SlotSum | controllers/roleplayController.js:440-442 | Two teams stand in a slot pair `(j, K-j)` of round `r < K` exactly when `r` is their MeetRound. |
| CircleMethod.MeetUnique | controllers/roleplayController.js:437-469 | A slot pair of a round holds the teams that started at `p` and `q` if and only if it is the slot pair MeetSlot of round MeetRound. |
| CircleMethod.PairAtUnique | controllers/gameController.js:51-74 | Two slot pairs holding the same two teams are the same slot pair of the same round. |
| CircleMethod.MeetPairAt | controllers/gameController.js:51-74 | The slot pair named by MeetRound and MeetSlot holds `p` and `q`, within the `K` rounds. |
| CircleMethod.RoundMeetsShape | controllers/roleplayController.js:440-458 | Every meet of a round is at an examined slot `i`, with the teams of slots `i` and `M-1-i`. Meets come in ascending `i`. |
| CircleMethod.MeetsPlaced | controllers/roleplayController.js:437-469 | Every meet of the schedule has a played round and an examined slot, and holds the teams that the closed form of the rotation puts there. |
| CircleMethod.RoundMeets | controllers/roleplayController.js:440-458 | One round's meets: slot `i` against slot `M-1-i` for the first `n` slot pairs, bye pairs skipped; at most `n` of them. |
| CircleMethod.Meets | controllers/gameController.js:51-75 | Definition without a contract: the meets of rounds `0 .. rounds-1`, one rotation after each round. MeetsPlaced, MeetsRounds, MeetsOrdered and MeetsHas state what it holds. |
| CircleMethod.MeetsRounds | controllers/gameController.js:51-75 | Every meet of the first `rounds` rounds has a round number below `rounds`. |
| CircleMethod.MeetsOrdered | controllers/roleplayController.js:437-461 | Meets are emitted round by round, by ascending slot within a round. |
| CircleMethod.RoundMeetsHas | controllers/roleplayController.js:440-458 | An examined slot pair without the bye is emitted in its round. |
| CircleMethod.RoundHas | controllers/gameController.js:52-66 | The examined, bye-free slot pair `i` of round `r` is in that round's meets. |
| CircleMethod.MeetsHas | controllers/roleplayController.js:437-461 | The examined, bye-free slot pair `i` of a played round `r` is in the schedule. |
| CircleTheorems.OriginInjective | controllers/roleplayController.js:464-468 | Distinct slots of a round hold teams that started at distinct indices. |
| CircleTheorems.PlacedFixedFirst | controllers/gameController.js:53-54 | The team of the fixed slot 0 is never the second team of a meet. |
| CircleTheorems.PlacedProper | controllers/roleplayController.js:440-445 | For distinct teams, no meet is of a team against itself. |
| CircleTheorems.MeetsProper | controllers/roleplayController.js:437-461 | For distinct teams, no meet of the schedule is of a team against itself. |
| CircleTheorems.PlacedPair | controllers/roleplayController.js:440-445 | A meet of the teams that started at `p` and `q` is held by a slot pair whose two slots started at `p` and `q`. |
| CircleTheorems.PlacedAt | controllers/gameController.js:51-66 | A meet of those two teams is the one of the slot pair `(i, K-i)` of round `r` that holds them. |
| CircleTheorems.PlacedSameTeams | controllers/roleplayController.js:437-461 | Two meets of the same two teams share their round and slot. |
| CircleTheorems.MeetsNoRepeat | controllers/roleplayController.js:437-461 | No two meets of the schedule are between the same two teams, whatever `m` is. |
| CircleTheorems.MeetsCover | controllers/gameController.js:51-66 | The slot pair holding two teams in a played round, if examined, emits their meet. |
| CircleTheorems.MeetsRoundDisjoint | controllers/roleplayController.js:440-458 | Within one round no team is in two meets. |
| CircleTheorems.PartnerNotBye | controllers/gameController.js:56-57 | Outside its rest round, a team faces a slot that does not hold the bye. |
| CircleTheorems.PartnerIsBye | controllers/gameController.js:56-57 | In its rest round, a team faces the bye from either slot of its pair. |
| CircleTheorems.SlotPlays | controllers/gameController.js:52-66 | A team whose slot pair holds two teams plays in that round when all pairs are examined. |
| CircleTheorems.PlaysUnlessResting | controllers/gameController.js:52-66 | With the bye at index `K`, a team plays in every round other than MeetRound(K, p, K). |
| CircleTheorems.NotInMeetWhenResting | controllers/gameController.js:56-57 | In its rest round a team is in no meet. |
| CircleTheorems.MeetsRestAt | controllers/gameController.js:52-66 | A team plays in round `r` exactly when `r` is not its rest round (both directions). |
| CircleTheorems.MeetsRestPair | controllers/gameController.js:52-66 | The same, with the rest round given as the round whose slot pair holds the team and the bye. |
| CircleTheorems.RoundMeetsFull | controllers/gameController.js:52-66 | A round without a bye emits one meet per examined slot pair. |
| CircleTheorems.RoundMeetsOneBye | controllers/roleplayController.js:440-458 | A round whose only bye is in slot `b` emits one meet fewer exactly when `b`'s pair is examined. |
| CircleTheorems.MeetsLengthFull | controllers/gameController.js:46-66 | Without a bye, `rounds` rounds of `m` slot pairs give `rounds * m` meets. |
| CircleTheorems.RoundLengthFull | controllers/gameController.js:52-66 | Without a bye, each round gives `m` meets. |
| CircleTheorems.ByeSlotAt | controllers/roleplayController.js:431-434 | The bye stands in slot Position(K, r, K); every other slot holds a team. |
| CircleTheorems.RoundLengthBye | controllers/roleplayController.js:440-458 | With the bye, a round gives `m` meets, less one when the bye's pair is examined. |
| CircleTheorems.MeetsLengthBye | controllers/roleplayController.js:437-461 | With the bye, the schedule has `rounds * m` meets less the number of rounds that examine the bye's pair. |
| CircleTheorems.ByeRoundsHalf | controllers/gameController.js:46-48 | When `M / 2` pairs are examined, every round examines the bye's pair. |
| CircleTheorems.ByeRoundsShort | controllers/roleplayController.js:428 | When `M / 2 - 1` pairs are examined, the bye's pair goes unexamined in exactly two rounds. |
| CircleTheorems.MeetsIndexOf | controllers/roleplayController.js:437-461 | The emitted meet of an examined slot pair of a played round has an index in the schedule. |
| CircleTheorems.MeetsIndexUnique | controllers/roleplayController.js:437-461 | No two meets share a round and a slot. |
| CircleTheorems.MeetsOnlyAt | controllers/gameController.js:51-66 | Any meet of two given teams is at the round and slot that hold them. |
| CircleTheorems.MeetsOnce | controllers/gameController.js:51-66 | Two teams whose slot pair is examined meet exactly once. |
| CircleTheorems.MeetsNever | controllers/roleplayController.js:428-442 | Two teams whose slot pair is not examined never meet. |
| CircleTheorems.PadMeetsTeams | controllers/gameController.js:41-44 | Both teams of every meet over the padded list are listed teams (never the bye). |
| CircleTheorems.PadSome | controllers/roleplayController.js:430-434 | A team in the padded list is the listed team at that index. |
| TeamSchedules.TeamMeetsProper | controllers/gameController.js:51-66 | For distinct teams, every meet is between two different listed teams. |
| TeamSchedules.TeamMeets | controllers/roleplayController.js:426-469 | Definition without a contract, a plain composition: no meets for an empty list, otherwise `Meets` over the padded list for `M - 1` rounds with `m` slot pairs each. The TeamSchedules lemmas state its properties. |
| TeamSchedules.TeamMeetsOnce | controllers/roleplayController.js:437-461 | Teams `i` and `j` meet exactly once when their MeetSlot is below `m`. |
| TeamSchedules.PaddedOnce | controllers/roleplayController.js:437-461 | The same, for a given round and slot pair. |
| TeamSchedules.TeamMeetsNever | controllers/roleplayController.js:428-442 | Teams `i` and `j` never meet when their MeetSlot is at least `m`. |
| TeamSchedules.PaddedNever | controllers/roleplayController.js:428-442 | The same, for a given round and slot pair. |
| TeamSchedules.TeamMeetsComplete | controllers/gameController.js:46-75 | With `M / 2` slot pairs per round, every pair of distinct teams meets exactly once. |
| TeamSchedules.MiddlePair | controllers/roleplayController.js:428 | For an odd count the two middle teams face each other in round 0 in the middle slot pair `N / 2`. |
| TeamSchedules.RestRound | controllers/gameController.js:56-57 | The rest round of team `i` of an odd count is one of the rounds `0 .. N-1`. |
| TeamSchedules.TeamMeetsRest | controllers/gameController.js:52-66 | For an odd count, team `i` plays in every round but RestRound(teams, i), and not in that one. |
| TeamSchedules.PaddedRest | controllers/gameController.js:52-66 | The same, for a given round and slot pair of the team with the bye. |
| TeamSchedules.TeamMeetsLength | controllers/gameController.js:46-75 | With `M / 2` slot pairs per round the schedule has N (N - 1) / 2 meets. |
| TeamSchedules.EvenLength | controllers/gameController.js:46-75 | The even case of TeamMeetsLength. |
| TeamSchedules.OddLength | controllers/gameController.js:41-75 | The odd case of TeamMeetsLength. |
| TeamSchedules.ShortByeRounds | controllers/roleplayController.js:428 | With floor(N / 2) slot pairs per round, the bye's pair is examined in `N - 2` of the `N` rounds. |
| TeamSchedules.TeamMeetsShortLength | controllers/roleplayController.js:426-472 | For an odd count N >= 3 with floor(N / 2) slot pairs, there are `N - 2` meets fewer than N (N - 1) / 2. |
| Roleplay.RoundFixtures | controllers/roleplayController.js:438-459 | The inner loop emits the oriented meets of the round's first `matchesPerRound` slot pairs. |
| Roleplay.Orient | controllers/roleplayController.js:445-457 | Slot `i` is at home in even rounds and slot `M-1-i` in odd rounds. |
| Roleplay.RoundRobin | controllers/roleplayController.js:421-472 | Definition without a contract: the oriented meets of floor(N / 2) slot pairs over M - 1 rounds. GenerateRoundRobinFixtures returns it; RoleplayTheorems states its properties. |
| Roleplay.Oriented | controllers/roleplayController.js:445-457 | Definition without a contract, a plain composition: `Orient` applied to every meet, in order. OrientedAppend, OrientedOnce, OrientedNever and OrientedProper state its properties. |
| Roleplay.RoundRobinMeets | controllers/roleplayController.js:426-469 | Definition without a contract, a plain composition: `TeamMeets` with floor(N / 2) slot pairs per round, N being the unpadded count. |
| Roleplay.CompleteRoundRobin | controllers/roleplayController.js:421-472 | Definition without a contract: the same with all M / 2 slot pairs per round. CompleteRoundRobinComplete states that it is complete. |
| Roleplay.RotateTeams | controllers/roleplayController.js:464-468 | The in-place rotation of the working copy is `Rotate`. |
| Roleplay.PadTeams | controllers/roleplayController.js:430-434 | The working copy is the padded list. |
| Roleplay.RoundsPlayedStep | controllers/roleplayController.js:437-469 | One loop iteration keeps the invariant "working copy rotated `round` times, fixtures of `round` rounds". |
| Roleplay.RoundsPlayedStart | controllers/roleplayController.js:422-434 | The invariant holds before the first round. |
| Roleplay.RoundsPlayedDone | controllers/roleplayController.js:437-471 | After `totalRounds` rounds the fixtures are `RoundRobin(teams)`. |
| Roleplay.GenerateRoundRobinFixtures | controllers/roleplayController.js:421-472 | The generator returns `RoundRobin(teams)`: floor(N / 2) slot pairs over M - 1 rounds, oriented by round parity, bye pairs skipped. |
| Roleplay.CompleteRoundsPlayedDone | controllers/gameController.js:46-48 | After M - 1 rounds of M / 2 slot pairs the fixtures are `CompleteRoundRobin(teams)`. |
| Roleplay.GenerateCompleteRoundRobinFixtures | controllers/roleplayController.js:428 | The generator with the slot-pair count taken from the padded length returns `CompleteRoundRobin(teams)`. |
| Roleplay.ScheduleFixtures | controllers/roleplayController.js:475-490 | The date loop returns `Schedule(fixtures, start, intervalDays)`. |
| Roleplay.Schedule | controllers/roleplayController.js:475-490 | One dated fixture per fixture. ScheduleDates states the dates and the kept fixtures. |
| Roleplay.Stamp | controllers/roleplayController.js:367-376 | Dating keeps every fixture's home and away team, and every fixture is dated exactly when a start date is given. |
| Roleplay.ScheduleDates | controllers/roleplayController.js:475-490 | Dating keeps the fixtures, their order and their teams. Fixture `k` is dated `start + k * intervalDays`, each date `intervalDays` after the previous one. |
| Roleplay.WithoutDatesKeeps | controllers/roleplayController.js:372-375 | Without a start date the fixtures are kept and every date is null. |
| Roleplay.WithoutDates | controllers/roleplayController.js:372-375 | One undated fixture per fixture. WithoutDatesKeeps states that the teams are kept and every date is null; the custom handler's undated branch is the same. |
| Roleplay.DoubleRoundRobinShape | controllers/roleplayController.js:521-528 | The double round robin is twice the first leg's length and starts with it. Entry `|firstLeg| + k` is entry `k` with home and away swapped. |
| Roleplay.DoubleRoundRobin | controllers/roleplayController.js:523-528 | Definition without a contract, a plain composition: the first leg followed by SecondLeg of it. DoubleRoundRobinShape and RoleplayTheorems.DoubleRoundRobinEvenComplete state its properties. |
| Roleplay.SecondLeg | controllers/roleplayController.js:521-528 | The second leg has as many fixtures as the first. SecondLegInvolutive is its inverse law. |
| Roleplay.SecondLegInvolutive | controllers/roleplayController.js:524-527 | Swapping venues twice gives back the first leg. |
| Roleplay.GenerateSingleEliminationFixtures | controllers/roleplayController.js:592-615 | Over a shuffle of the teams, the outer loop runs at most once. The result is `(s[2k], s[2k+1])` for `k < floor(n / 2)`. |
| Roleplay.FirstRoundPairs | controllers/roleplayController.js:592-615 | floor(n / 2) fixtures, each between two teams of the shuffle. |
| Roleplay.GenerateFormatFixtures | controllers/roleplayController.js:517-536 | The switch returns the fixtures of the named format. The double round robin is built of the two legs. |
| Roleplay.FormatFixtures | controllers/roleplayController.js:517-536 | Every format other than single elimination starts with the whole round robin. Single elimination gives the first-round pairs of the shuffle. |
| Roleplay.FormatFallback | controllers/roleplayController.js:534-535 | Any other format gives the single round robin. |
| Roleplay.IntervalOrDefault | controllers/roleplayController.js:334 | The interval is the requested one, or 7 days when none is given; the custom handler has the same default at roleplayController.js:495. |
| Roleplay.FormatOrDefault | controllers/roleplayController.js:495 | The format is the requested one, or `round-robin` when none is given. |
| Roleplay.GenerateLeagueRoleplays | controllers/roleplayController.js:332-376 | Fewer than two teams is an error and nothing else is. Otherwise the result is the round robin, dated from the start date when given, 7 days apart by default, and undated otherwise. |
| Roleplay.GenerateCustomRoleplays | controllers/roleplayController.js:493-547 | Fewer than two teams is an error and nothing else is. Otherwise the result is the fixtures of the requested format (round robin by default), dated in the same way. |
| RoleplayTheorems.OrientedOnce | controllers/roleplayController.js:445-457 | Orienting keeps a pair that meets once paired exactly once. |
| RoleplayTheorems.OrientedNever | controllers/roleplayController.js:445-457 | Orienting keeps a pair that never meets unpaired. |
| RoleplayTheorems.OrientedProper | controllers/roleplayController.js:440-458 | Oriented meets of distinct teams are between two different listed teams. |
| RoleplayTheorems.RoundRobinProper | controllers/roleplayController.js:440-458 | The round robin of distinct teams never has a team against itself and never the bye. |
| RoleplayTheorems.CompleteRoundRobinComplete | controllers/roleplayController.js:364-365 | The all-against-all schedule has N (N - 1) / 2 fixtures, every pair exactly once, and no team against itself. |
| RoleplayTheorems.RoundRobinEvenIsComplete | controllers/roleplayController.js:426-428 | For an even count, the generator's round robin is the complete one. |
| RoleplayTheorems.RoundRobinEvenComplete | controllers/roleplayController.js:421-472 | For an even count of distinct teams there are N (N - 1) / 2 fixtures, each pair exactly once, and no team against itself. |
| RoleplayTheorems.RoundRobinOddIncomplete | controllers/roleplayController.js:426-472 | For an odd count N >= 3 there are `N - 2` fixtures fewer than N (N - 1) / 2. No pair is repeated, and the two middle teams are never paired. |
| RoleplayTheorems.RoundRobinThreeTeams | controllers/roleplayController.js:426-472 | `[A, B, C]` gives exactly `[C v A, A v B]`. |
| RoleplayTheorems.RoundRobinLayout | controllers/roleplayController.js:437-461 | Fixture `k` comes from the `k`-th examined slot pair: its teams stood in slots `i` and `M-1-i` of that round's working copy, with slot `i` at home in even rounds. Fixtures come round by round, by ascending slot. |
| RoleplayTheorems.RoundRobinRoundDisjoint | controllers/roleplayController.js:440-458 | Within one round no team plays twice. |
| RoleplayTheorems.BothLegsHostOnce | controllers/roleplayController.js:523-528 | A leg pairing `x` and `y` once, followed by its swapped copy, hosts `x v y` exactly once. |
| RoleplayTheorems.LegsHostOnce | controllers/roleplayController.js:523-528 | The same when the leg pairs them in either order. |
| RoleplayTheorems.PairedOnceSwap | controllers/roleplayController.js:445-457 | Pairing once does not depend on the order of the two teams. |
| RoleplayTheorems.DoubleRoundRobinEvenComplete | controllers/roleplayController.js:521-528 | For an even count of distinct teams there are N (N - 1) fixtures, and every ordered pair of distinct teams is hosted exactly once. |
| RoleplayTheorems.DoubleHostsPair | controllers/roleplayController.js:521-528 | The same for one ordered pair `i`, `j`. |
| RoleplayTheorems.ShuffleDistinct | controllers/roleplayController.js:594 | A shuffle of distinct teams has no repeats. |
| RoleplayTheorems.SingleEliminationProper | controllers/roleplayController.js:592-615 | Given a shuffle of distinct teams there are floor(n / 2) fixtures between listed teams, none of a team against itself. |
| RoleplayTheorems.SingleEliminationOnce | controllers/roleplayController.js:598-612 | Every team but an odd last one is in exactly one fixture; an odd last team is in none. |
| Games.RoundGames | controllers/gameController.js:52-66 | The inner loop emits a game for each of the round's bye-free slot pairs, with `round + 1` and status pending. |
| Games.AsGames | controllers/gameController.js:58-64 | Definition without a contract, a plain composition: `AsGame` applied to every meet, in order. AsGamesAppend and the GamesTheorems lemmas state its properties. |
| Games.AsGame | controllers/gameController.js:58-64 | A generated game belongs to the season, is pending and has a round number of at least 1. |
| Games.SeasonGames | controllers/gameController.js:39-75 | Definition without a contract: the games of every slot pair of every round of the padded list. ScheduleGames returns it; GamesTheorems states its properties. |
| Games.RotateRemaining | controllers/gameController.js:70-74 | The rebuilt team list is `Rotate`. |
| Games.PadSeason | controllers/gameController.js:39-44 | The season's team list padded with one bye when odd. |
| Games.RoundsGeneratedStep | controllers/gameController.js:51-75 | One iteration keeps the invariant "teams rotated `round` times, games of `round` rounds". |
| Games.RoundsGeneratedStart | controllers/gameController.js:39-49 | The invariant holds before the first round. |
| Games.RoundsGeneratedDone | controllers/gameController.js:46-47 | After `numRounds` rounds the games are `SeasonGames`. |
| Games.ScheduleGames | controllers/gameController.js:39-75 | The scheduling part returns `SeasonGames(seasonId, teams)`. |
| Games.GenerateGames | controllers/gameController.js:22-75 | Existing games give "games exist"; a missing season gives "not found"; otherwise the result is the season's schedule. Each answer comes exactly under its condition. |
| GamesTheorems.AsGamesOnce | controllers/gameController.js:58-64 | A pair meeting once becomes a pair playing exactly one game. |
| GamesTheorems.GamesComplete | controllers/gameController.js:51-75 | For any count N of distinct teams there are N (N - 1) / 2 games, every pair exactly once, never the bye, and no team against itself. |
| GamesTheorems.GamesRounds | controllers/gameController.js:58-64 | Every game is of the season, pending and numbered 1 .. M - 1, in non-decreasing order. |
| GamesTheorems.GamesRoundDisjoint | controllers/gameController.js:52-66 | Within one round no team is in two games. |
| GamesTheorems.PlaysInRoundShift | controllers/gameController.js:62 | Playing in game round `r` is playing in schedule round `r - 1`. |
| GamesTheorems.GamesRestOnce | controllers/gameController.js:41-66 | For an odd count, each team has a game in every round 1 .. N but exactly one, RestRound + 1. |
| GamesTheorems.FixedTeamIsTeamA | controllers/gameController.js:53-74 | The first listed team is teamA in every one of its games. |
| IpBlock.IpBlocker.constructor | middleware/checkBlockIp.js:9 | The map starts empty. |
| IpBlock.Check | middleware/checkBlockIp.js:15-43 | The failures are counted exactly when the IP is not blocked at `now1`, and then from `now2 - 180000`. |
| IpBlock.IpBlocker.CheckBlockedIp | middleware/checkBlockIp.js:11-44 | The middleware's verdict, its new map and the window start it counted from are those of `Check`. |
| IpBlock.CheckWhileBlocked | middleware/checkBlockIp.js:15-19 | A still-blocked IP is rejected with 429. The map is unchanged and the failures are not counted. |
| IpBlock.CheckCounted | middleware/checkBlockIp.js:20-43 | Otherwise failures are counted from `now2 - 180000`. 3 or more block the IP until `now3 + 180000` (rejected); fewer leave no entry for it (passed). |
| IpBlock.CheckExpired | middleware/checkBlockIp.js:20-22 | An expired entry is dropped first; a request that passes leaves no entry. |
| IpBlock.CheckRejectsIffBlocked | middleware/checkBlockIp.js:15-43 | The request is rejected exactly when the IP has an entry afterwards. |
| IpBlock.CheckOthersUntouched | middleware/checkBlockIp.js:15-41 | Entries of other IPs are never added, removed or changed. |
| IpBlock.BlockHoldsUntilExpiry | middleware/checkBlockIp.js:15-41 | A new block rejects every request before `now3 + 180000`, whatever the count; from then on the failures are counted again. |

## Left out

- Databases and HTTP:
  - all Mongoose reads and writes are left out, as are the request and response objects;
  - the count of a season's existing games is a parameter of `Games.GenerateGames`, and the season lookup is an `Option`;
  - the count of failed logins is the function parameter `countFailures`, applied to the window start;
  - the league and season lookups of the roleplay handlers and the `leagueId` check (400/404) are left out;
  - the roleplay records that the handlers create (scores, officials, the fixed status `'scheduled'`, `populate`) are left out.
- The shuffle: the `Math.random` sort of roleplayController.js:594 is an input permutation `shuffled` with the same multiset as the teams.
- Dates: JavaScript `Date` and `setDate` work in local calendar days, with daylight-saving effects. The model uses whole day numbers. Any truthy `startDate` becomes `Some`. The interval is an integer; the string concatenation that a string `matchIntervalDays` causes in `getDate() + intervalDays` (roleplayController.js:486) is not modelled. `None` stands only for an absent field: a JSON `null` interval escapes the destructuring default, and `getDate() + null` adds 0, so a null interval behaves as `Some(0)`.
- The clock: `Date.now()` is read three times in checkBlockIp.js. These reads are the parameters `now1`, `now2`, `now3`.
- Concurrency: the interleaving of requests at the middleware's `await` is left out, as is the concurrent use of the module-level map. Each call is atomic.
- Identifiers: team identifiers are values of an arbitrary type. The truthiness test of `teamA && teamB` becomes `Some?`. A falsy identifier (which an ObjectId never is) is not modelled.
- In-place mutation:
  - the working copy `teamArray` and the game list are sequences that the loops reassign;
  - the caller's team list is a value and so cannot be changed, which is what the source's copy at roleplayController.js:431 achieves;
  - `pop`, `unshift`, `length = 0` and `push` are modelled by their effect.
- Fixture type: the bye cannot appear in a `Fixture` or a `Game`. Only a team value fits there, so "no fixture holds the bye" is enforced by the types. It is also stated as "both teams are listed teams" in the Proper lemmas.
- CircleMethod.RotateN: the permutation over `r` rounds is stated through RotateNAt with OriginIs and PositionOrigin (slot `j` holds the team that started at the bijective index `Origin`), not as a multiset equation. One step is RotatePermutes.
- The other controllers, the routes, the models, the validators and the other middleware are not part of this model. That includes `updatePlayerPoints`, the user, team and season CRUD, and the authentication and upload middleware.

## Findings

| source | as written | input that shows it | evidently intended | confidence | as-written member | corrected member |
|---|---|---|---|---|---|---|
| controllers/roleplayController.js:428 | `matchesPerRound` is floor(N / 2) of the unpadded count, so for an odd N the middle slot pair `(M/2 - 1, M/2)` of the padded list is never examined. There are N - 2 fixtures fewer than N (N - 1) / 2, and some pairs never meet. | teams `[A, B, C]` give `[C v A, A v B]`; B and C never meet | all against all (the comment at line 364): every pair once, M / 2 slot pairs per round, as controllers/gameController.js:48 computes it | not executed | RoleplayTheorems.RoundRobinThreeTeams | Roleplay.GenerateCompleteRoundRobinFixtures |

`RoleplayTheorems.RoundRobinOddIncomplete` states the as-written behaviour for every odd N >= 3.

`Roleplay.GenerateCompleteRoundRobinFixtures` is the same loop with the slot-pair count taken from the padded length. It returns `Roleplay.CompleteRoundRobin`. For that function, `RoleplayTheorems.CompleteRoundRobinComplete` proves the intended property: N (N - 1) / 2 fixtures, every pair exactly once.

The handlers keep the controller's behaviour as written. For an even count both definitions agree (`RoleplayTheorems.RoundRobinEvenIsComplete`).
