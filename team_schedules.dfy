/**
 * The circle method over a list of teams: the list padded with a bye when its
 * length is odd, all M - 1 rounds played, m slot pairs examined per round. What it
 * gives for distinct teams: proper meets between listed teams, each pair of teams
 * at most once (exactly once when its slot pair is examined), and the number of meets
 * when every slot pair is examined and when the middle one is not.
 */
module TeamSchedules {
  import opened Wrappers
  import opened CircleMethod
  import opened CircleTheorems

  /** All M - 1 rounds over the padded list, m slot pairs per round. */
  function TeamMeets<T>(teams: seq<T>, m: nat): seq<Meet<T>>
    requires 2 * m <= |Pad(teams)|
  {
    if |teams| == 0 then [] else Meets(Pad(teams), |Pad(teams)| - 1, m)
  }

  /** For distinct teams no meet is of a team against itself, and both of its teams
      are listed teams (never the bye). */
  lemma {:induction false} TeamMeetsProper<T>(teams: seq<T>, m: nat)
    requires Distinct(teams) && 2 * m <= |Pad(teams)|
    ensures forall k :: 0 <= k < |TeamMeets(teams, m)| ==>
              TeamMeets(teams, m)[k].first != TeamMeets(teams, m)[k].second &&
              TeamMeets(teams, m)[k].first in teams && TeamMeets(teams, m)[k].second in teams
  {
    if |teams| > 0 {
      var start := Pad(teams);
      PadDistinct(teams);
      MeetsProper(start, |start| - 1, m);
      PadMeetsTeams(teams, |start| - 1, m);
    }
  }

  /** Where the padded list holds the teams i and j. */
  lemma PadAt<T>(teams: seq<T>, i: nat, j: nat)
    requires i < j < |teams|
    ensures |Pad(teams)| >= 2 && |Pad(teams)| % 2 == 0 && (|Pad(teams)| - 1) % 2 == 1 && j < |Pad(teams)|
    ensures Pad(teams)[i] == Some(teams[i]) && Pad(teams)[j] == Some(teams[j])
  {
  }

  /** The teams i and j meet exactly once when the slot pair they share in the round
      they face each other is examined. */
  lemma {:induction false} TeamMeetsOnce<T>(teams: seq<T>, m: nat, i: nat, j: nat)
    requires Distinct(teams) && 2 * m <= |Pad(teams)| && i < j < |teams|
    requires MeetSlot(|Pad(teams)| - 1, i, j) < m
    ensures OnceIn(TeamMeets(teams, m), teams[i], teams[j])
  {
    PadAt(teams, i, j);
    MeetPairAt(|Pad(teams)| - 1, i, j);
    PaddedOnce(teams, m, i, j, MeetRound(|Pad(teams)| - 1, i, j), MeetSlot(|Pad(teams)| - 1, i, j));
  }

  /** TeamMeetsOnce for the slot pair s of round r. */
  lemma {:induction false} PaddedOnce<T>(teams: seq<T>, m: nat, i: nat, j: nat, r: nat, s: nat)
    requires Distinct(teams) && 2 * m <= |Pad(teams)| && i < j < |teams|
    requires r < |Pad(teams)| - 1 && s < m && PairAt(|Pad(teams)| - 1, r, s, i, j)
    ensures OnceIn(Meets(Pad(teams), |Pad(teams)| - 1, m), Pad(teams)[i].value, Pad(teams)[j].value)
  {
    PadDistinct(teams);
    MeetsOnce(Pad(teams), |Pad(teams)| - 1, m, i, j, r, s);
  }

  /** The teams i and j never meet when that slot pair is not examined. */
  lemma {:induction false} TeamMeetsNever<T>(teams: seq<T>, m: nat, i: nat, j: nat)
    requires Distinct(teams) && 2 * m <= |Pad(teams)| && i < j < |teams|
    requires MeetSlot(|Pad(teams)| - 1, i, j) >= m
    ensures NeverIn(TeamMeets(teams, m), teams[i], teams[j])
  {
    PadAt(teams, i, j);
    MeetPairAt(|Pad(teams)| - 1, i, j);
    PaddedNever(teams, m, i, j, MeetRound(|Pad(teams)| - 1, i, j), MeetSlot(|Pad(teams)| - 1, i, j));
  }

  /** TeamMeetsNever for the slot pair s of round r. */
  lemma {:induction false} PaddedNever<T>(teams: seq<T>, m: nat, i: nat, j: nat, r: nat, s: nat)
    requires Distinct(teams) && 2 * m <= |Pad(teams)| && i < j < |teams|
    requires r < |Pad(teams)| - 1 && 2 * s < |Pad(teams)| - 1 && s >= m && PairAt(|Pad(teams)| - 1, r, s, i, j)
    ensures NeverIn(Meets(Pad(teams), |Pad(teams)| - 1, m), Pad(teams)[i].value, Pad(teams)[j].value)
  {
    PadDistinct(teams);
    MeetsNever(Pad(teams), |Pad(teams)| - 1, m, i, j, r, s);
  }

  /** Examining every slot pair (m = M / 2), every pair of distinct teams meets exactly once. */
  lemma {:induction false} TeamMeetsComplete<T>(teams: seq<T>, i: nat, j: nat)
    requires Distinct(teams) && i < j < |teams|
    ensures OnceIn(TeamMeets(teams, |Pad(teams)| / 2), teams[i], teams[j])
  {
    PadAt(teams, i, j);
    TeamMeetsOnce(teams, |Pad(teams)| / 2, i, j);
  }

  /** For an odd count N the two middle teams, N / 2 and N / 2 + 1, face each other in
      round 0 in the middle slot pair N / 2. */
  lemma MiddlePair(K: nat)
    requires K % 2 == 1 && K >= 3
    ensures MeetRound(K, K / 2, K / 2 + 1) == 0 && MeetSlot(K, K / 2, K / 2 + 1) == K / 2
  {
    assert Origin(K, 0, K / 2) == K / 2 && Origin(K, 0, K - K / 2) == K / 2 + 1;
    MeetUnique(K, 0, K / 2, K / 2, K / 2 + 1);
  }

  /** (n - 1) * (n / 2) is n (n - 1) / 2 for even n. */
  lemma HalfProductEven(n: nat)
    requires n % 2 == 0
    ensures (n - 1) * (n / 2) == n * (n - 1) / 2
  {
    var h := n / 2;
    assert n == 2 * h;
    assert n * (n - 1) == 2 * (h * (n - 1));
  }

  /** n ((n + 1) / 2) - n and n ((n - 1) / 2) are n (n - 1) / 2 for odd n. */
  lemma HalfProductOdd(n: nat)
    requires n % 2 == 1
    ensures n * ((n + 1) / 2) - n == n * (n - 1) / 2
    ensures n * ((n - 1) / 2) == n * (n - 1) / 2
  {
    var h := n / 2;
    assert n == 2 * h + 1;
    assert (n + 1) / 2 == h + 1 && (n - 1) / 2 == h;
    assert n * (h + 1) == n * h + n;
    assert n * (n - 1) == 2 * (n * h);
  }

  lemma PadOdd<T>(teams: seq<T>, i: nat)
    requires |teams| % 2 == 1 && i < |teams|
    ensures |Pad(teams)| - 1 == |teams| && |Pad(teams)| >= 2 && |Pad(teams)| % 2 == 0
    ensures Pad(teams)[i] == Some(teams[i]) && Pad(teams)[|teams|] == None
  {
  }

  /** The round in which team i of an odd count rests: the one in which its slot pair
      holds the bye, which stands at index N of the padded list. */
  function RestRound<T>(teams: seq<T>, i: nat): (r: nat)
    requires |teams| % 2 == 1 && i < |teams|
    ensures r < |teams|
  {
    MeetRound(|Pad(teams)| - 1, i, |Pad(teams)| - 1)
  }

  /** For an odd count N of distinct teams, team i is in a meet of every round
      0 .. N - 1 but its rest round. */
  lemma {:induction false} TeamMeetsRest<T>(teams: seq<T>, i: nat, r: nat)
    requires Distinct(teams) && |teams| % 2 == 1 && i < |teams| && r < |teams|
    ensures r != RestRound(teams, i) ==> PlaysIn(TeamMeets(teams, |Pad(teams)| / 2), r, teams[i])
    ensures r == RestRound(teams, i) ==> !PlaysIn(TeamMeets(teams, |Pad(teams)| / 2), r, teams[i])
  {
    var K := |Pad(teams)| - 1;
    PadOdd(teams, i);
    MeetPairAt(K, i, K);
    PaddedRest(teams, i, r, MeetRound(K, i, K), MeetSlot(K, i, K));
  }

  lemma {:induction false} PaddedRest<T>(teams: seq<T>, i: nat, r: nat, q: nat, s: nat)
    requires Distinct(teams) && |teams| % 2 == 1 && i < |teams|
    requires r < |Pad(teams)| - 1 && q < |Pad(teams)| - 1 && 2 * s < |Pad(teams)| - 1
    requires PairAt(|Pad(teams)| - 1, q, s, i, |Pad(teams)| - 1)
    ensures Pad(teams)[i].Some?
    ensures r != q ==> PlaysIn(Meets(Pad(teams), |Pad(teams)| - 1, |Pad(teams)| / 2), r, Pad(teams)[i].value)
    ensures r == q ==> !PlaysIn(Meets(Pad(teams), |Pad(teams)| - 1, |Pad(teams)| / 2), r, Pad(teams)[i].value)
  {
    PadOdd(teams, i);
    PadDistinct(teams);
    MeetsRestPair(Pad(teams), i, r, q, s);
  }

  /** Examining every slot pair gives N (N - 1) / 2 meets for N teams. */
  lemma {:induction false} TeamMeetsLength<T>(teams: seq<T>)
    ensures |TeamMeets(teams, |Pad(teams)| / 2)| == |teams| * (|teams| - 1) / 2
  {
    if |teams| > 0 {
      if |teams| % 2 == 0 {
        EvenLength(teams);
      } else {
        OddLength(teams);
      }
    }
  }

  lemma {:induction false} EvenLength<T>(teams: seq<T>)
    requires |teams| > 0 && |teams| % 2 == 0
    ensures |Meets(Pad(teams), |Pad(teams)| - 1, |Pad(teams)| / 2)| == |teams| * (|teams| - 1) / 2
  {
    var n := |teams|;
    var start := Pad(teams);
    assert |start| == n;
    assert None !in start by {
      forall k | 0 <= k < |start| ensures start[k] != None {
        assert start[k] == Some(teams[k]);
      }
    }
    MeetsLengthFull(start, n - 1, n / 2);
    HalfProductEven(n);
  }

  lemma {:induction false} OddLength<T>(teams: seq<T>)
    requires |teams| % 2 == 1
    ensures |Meets(Pad(teams), |Pad(teams)| - 1, |Pad(teams)| / 2)| == |teams| * (|teams| - 1) / 2
  {
    var n := |teams|;
    var start := Pad(teams);
    assert |start| == n + 1 && |start| / 2 == (n + 1) / 2;
    MeetsLengthBye(start, n, (n + 1) / 2);
    ByeRoundsHalf(n, n);
    HalfProductOdd(n);
  }

  /** With floor(K / 2) slot pairs examined, the bye's pair is examined in K - 2 of the K rounds. */
  lemma ShortByeRounds(K: nat)
    requires K % 2 == 1 && K >= 3
    ensures ByeRounds(K, K, K / 2) == K - 2
  {
    assert K / 2 == (K - 1) / 2;
    ByeRoundsShort(K, K);
  }

  /** For an odd count N >= 3, examining floor(N / 2) slot pairs per round gives
      N - 2 meets fewer than N (N - 1) / 2. */
  lemma {:induction false} TeamMeetsShortLength<T>(teams: seq<T>)
    requires |teams| % 2 == 1 && |teams| >= 3
    ensures |TeamMeets(teams, |teams| / 2)| == |teams| * (|teams| - 1) / 2 - (|teams| - 2)
  {
    var n := |teams|;
    var start := Pad(teams);
    MeetsLengthBye(start, n, n / 2);
    ShortByeRounds(n);
    ShortArith(n, |Meets(start, n, n / 2)|, ByeRounds(n, n, n / 2));
  }

  lemma ShortArith(n: nat, len: int, byes: int)
    requires n % 2 == 1 && len == n * (n / 2) - byes && byes == n - 2
    ensures len == n * (n - 1) / 2 - (n - 2)
  {
    HalfProductOdd(n);
  }
}
