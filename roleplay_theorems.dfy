/**
 * What the roleplay generators give for a list of distinct teams: the round robin
 * is complete for an even count and misses N - 2 pairs for an odd one, never
 * repeats a pair, keeps each round's fixtures disjoint and emits them round by round
 * in ascending slot order; the double round robin hosts every ordered pair once for
 * an even count; the single-elimination pairing puts each paired team in one fixture.
 */
module RoleplayTheorems {
  import opened Wrappers
  import opened CircleMethod
  import opened CircleTheorems
  import opened TeamSchedules
  import opened Roleplay

  /** f is a fixture between x and y, whoever is at home. */
  ghost predicate Between<T>(f: Fixture<T>, x: T, y: T) {
    (f.home == x && f.away == y) || (f.home == y && f.away == x)
  }

  /** Exactly one fixture of fs is between x and y. */
  ghost predicate PairedOnce<T>(fs: seq<Fixture<T>>, x: T, y: T) {
    exists k :: 0 <= k < |fs| && Between(fs[k], x, y) && forall k2 :: 0 <= k2 < |fs| && Between(fs[k2], x, y) ==> k2 == k
  }

  /** No fixture of fs is between x and y. */
  ghost predicate NeverPaired<T>(fs: seq<Fixture<T>>, x: T, y: T) {
    forall k :: 0 <= k < |fs| ==> !Between(fs[k], x, y)
  }

  /** Exactly one fixture of fs has h at home and a away. */
  ghost predicate HostsOnce<T>(fs: seq<Fixture<T>>, h: T, a: T) {
    exists k :: 0 <= k < |fs| && fs[k] == Fixture(h, a) && forall k2 :: 0 <= k2 < |fs| && fs[k2] == Fixture(h, a) ==> k2 == k
  }

  /** Both teams of every fixture are listed, and none plays itself. */
  ghost predicate ProperFixtures<T>(fs: seq<Fixture<T>>, teams: seq<T>) {
    forall k :: 0 <= k < |fs| ==> fs[k].home != fs[k].away && fs[k].home in teams && fs[k].away in teams
  }

  lemma {:induction false} OrientedOnce<T>(ms: seq<Meet<T>>, x: T, y: T)
    requires OnceIn(ms, x, y)
    ensures PairedOnce(Oriented(ms), x, y)
  {
    var k :| 0 <= k < |ms| && Involves(ms[k], x, y) && forall k2 :: 0 <= k2 < |ms| && Involves(ms[k2], x, y) ==> k2 == k;
    var fs := Oriented(ms);
    assert Between(fs[k], x, y);
    forall k2 | 0 <= k2 < |fs| && Between(fs[k2], x, y) ensures k2 == k {
      assert Involves(ms[k2], x, y);
    }
  }

  lemma {:induction false} OrientedNever<T>(ms: seq<Meet<T>>, x: T, y: T)
    requires NeverIn(ms, x, y)
    ensures NeverPaired(Oriented(ms), x, y)
  {
    forall k | 0 <= k < |ms| ensures !Between(Oriented(ms)[k], x, y) {
      assert !Involves(ms[k], x, y);
    }
  }

  lemma {:induction false} OrientedProper<T>(teams: seq<T>, m: nat)
    requires Distinct(teams) && 2 * m <= |Pad(teams)|
    ensures ProperFixtures(Oriented(TeamMeets(teams, m)), teams)
  {
    TeamMeetsProper(teams, m);
  }

  // ---------------------------------------------------------------------------
  // Round robin
  // ---------------------------------------------------------------------------

  /** Between distinct teams no fixture of the round robin is a team against itself
      and every fixture is between two listed teams (never the bye). */
  lemma {:induction false} RoundRobinProper<T>(teams: seq<T>)
    requires Distinct(teams)
    ensures ProperFixtures(RoundRobin(teams), teams)
  {
    OrientedProper(teams, |teams| / 2);
  }

  /** The all-against-all schedule: N (N - 1) / 2 fixtures, each pair of distinct teams
      exactly once, no team against itself. */
  lemma {:induction false} CompleteRoundRobinComplete<T>(teams: seq<T>)
    requires Distinct(teams)
    ensures |CompleteRoundRobin(teams)| == |teams| * (|teams| - 1) / 2
    ensures forall i, j :: 0 <= i < j < |teams| ==> PairedOnce(CompleteRoundRobin(teams), teams[i], teams[j])
    ensures ProperFixtures(CompleteRoundRobin(teams), teams)
  {
    TeamMeetsLength(teams);
    forall i, j | 0 <= i < j < |teams| ensures PairedOnce(CompleteRoundRobin(teams), teams[i], teams[j]) {
      TeamMeetsComplete(teams, i, j);
      OrientedOnce(TeamMeets(teams, |Pad(teams)| / 2), teams[i], teams[j]);
    }
    OrientedProper(teams, |Pad(teams)| / 2);
  }

  /** For an even count the controller's round robin is the complete one. */
  lemma RoundRobinEvenIsComplete<T>(teams: seq<T>)
    requires |teams| % 2 == 0
    ensures RoundRobin(teams) == CompleteRoundRobin(teams)
  {
    assert |Pad(teams)| == |teams|;
  }

  /** For an even count of distinct teams: N (N - 1) / 2 fixtures, every pair exactly
      once, no team against itself. */
  lemma {:induction false} RoundRobinEvenComplete<T>(teams: seq<T>)
    requires Distinct(teams) && |teams| % 2 == 0
    ensures |RoundRobin(teams)| == |teams| * (|teams| - 1) / 2
    ensures forall i, j :: 0 <= i < j < |teams| ==> PairedOnce(RoundRobin(teams), teams[i], teams[j])
    ensures ProperFixtures(RoundRobin(teams), teams)
  {
    RoundRobinEvenIsComplete(teams);
    CompleteRoundRobinComplete(teams);
  }

  /** For an odd count N >= 3 of distinct teams the middle slot pair is never examined:
      N - 2 fixtures fewer than N (N - 1) / 2, no pair twice, and the two middle teams
      of the list never paired. */
  lemma {:induction false} RoundRobinOddIncomplete<T>(teams: seq<T>)
    requires Distinct(teams) && |teams| % 2 == 1 && |teams| >= 3
    ensures |RoundRobin(teams)| == |teams| * (|teams| - 1) / 2 - (|teams| - 2) < |teams| * (|teams| - 1) / 2
    ensures forall i, j :: 0 <= i < j < |teams| ==>
              PairedOnce(RoundRobin(teams), teams[i], teams[j]) || NeverPaired(RoundRobin(teams), teams[i], teams[j])
    ensures NeverPaired(RoundRobin(teams), teams[|teams| / 2], teams[|teams| / 2 + 1])
  {
    var n := |teams|;
    var ms := TeamMeets(teams, n / 2);
    TeamMeetsShortLength(teams);
    forall i, j | 0 <= i < j < n
      ensures PairedOnce(RoundRobin(teams), teams[i], teams[j]) || NeverPaired(RoundRobin(teams), teams[i], teams[j])
    {
      PadAt(teams, i, j);
      if MeetSlot(|Pad(teams)| - 1, i, j) < n / 2 {
        TeamMeetsOnce(teams, n / 2, i, j);
        OrientedOnce(ms, teams[i], teams[j]);
      } else {
        TeamMeetsNever(teams, n / 2, i, j);
        OrientedNever(ms, teams[i], teams[j]);
      }
    }
    PadAt(teams, n / 2, n / 2 + 1);
    MiddlePair(n);
    TeamMeetsNever(teams, n / 2, n / 2, n / 2 + 1);
    OrientedNever(ms, teams[n / 2], teams[n / 2 + 1]);
  }

  /** Three teams A, B, C give exactly C v A and A v B: B and C never meet. */
  lemma RoundRobinThreeTeams<T>(a: T, b: T, c: T)
    ensures RoundRobin([a, b, c]) == [Fixture(c, a), Fixture(a, b)]
  {
    var start := Pad([a, b, c]);
    assert start == [Some(a), Some(b), Some(c), None];
    var s1 := RotateN(start, 1);
    var s2 := RotateN(start, 2);
    assert start[1..3] == [Some(b), Some(c)];
    assert RotateN(start, 0) == start;
    assert s1 == Rotate(start) == [Some(a), None, Some(b), Some(c)];
    assert s1[1..3] == [None, Some(b)];
    assert s2 == Rotate(s1) == [Some(a), Some(c), None, Some(b)];
    assert RoundMeets(start, 0, 1) == [];
    assert RoundMeets(s1, 1, 1) == [Meet(1, 0, a, c)];
    assert RoundMeets(s2, 2, 1) == [Meet(2, 0, a, b)];
    assert Meets(start, 1, 1) == [];
    assert Meets(start, 2, 1) == [Meet(1, 0, a, c)];
    assert Meets(start, 3, 1) == [Meet(1, 0, a, c), Meet(2, 0, a, b)];
  }

  /** The layout of one fixture: in its round, its two teams stood in slot `slot` and in
      slot M - 1 - slot of the working copy; slot is home in even rounds, away in odd ones. */
  ghost predicate LaidOut<T>(teams: seq<T>, mt: Meet<T>, f: Fixture<T>)
    requires |teams| > 0
  {
    && mt.round < |Pad(teams)| - 1 && mt.slot < |teams| / 2
    && RotateN(Pad(teams), mt.round)[mt.slot] == Some(mt.first)
    && RotateN(Pad(teams), mt.round)[|Pad(teams)| - 1 - mt.slot] == Some(mt.second)
    && f == (if mt.round % 2 == 0 then Fixture(mt.first, mt.second) else Fixture(mt.second, mt.first))
  }

  /** Fixture k comes from the k-th examined slot pair: its round, its slot, the teams
      in that slot pair after round rotations, home and away by the round's parity; and
      the fixtures are emitted round by round, by ascending slot within a round. */
  lemma {:induction false} RoundRobinLayout<T>(teams: seq<T>)
    requires |teams| > 0
    ensures |RoundRobin(teams)| == |RoundRobinMeets(teams)|
    ensures forall k :: 0 <= k < |RoundRobin(teams)| ==> LaidOut(teams, RoundRobinMeets(teams)[k], RoundRobin(teams)[k])
    ensures forall k1, k2 :: 0 <= k1 < k2 < |RoundRobinMeets(teams)| ==> Before(RoundRobinMeets(teams)[k1], RoundRobinMeets(teams)[k2])
  {
    var start := Pad(teams);
    var ms := RoundRobinMeets(teams);
    MeetsPlaced(start, |start| - 1, |teams| / 2);
    MeetsOrdered(start, |start| - 1, |teams| / 2);
    forall k | 0 <= k < |ms| ensures LaidOut(teams, ms[k], RoundRobin(teams)[k]) {
      assert Placed(start, ms[k], |start| - 1, |teams| / 2);
      RotateNAt(start, ms[k].round, ms[k].slot);
      RotateNAt(start, ms[k].round, |start| - 1 - ms[k].slot);
    }
  }

  /** Two fixtures share a team. */
  ghost predicate SharesTeam<T>(f: Fixture<T>, g: Fixture<T>) {
    f.home == g.home || f.home == g.away || f.away == g.home || f.away == g.away
  }

  /** For distinct teams no team plays twice in one round. */
  lemma {:induction false} RoundRobinRoundDisjoint<T>(teams: seq<T>)
    requires Distinct(teams)
    ensures |RoundRobin(teams)| == |RoundRobinMeets(teams)|
    ensures forall k1, k2 :: 0 <= k1 < k2 < |RoundRobinMeets(teams)| && RoundRobinMeets(teams)[k1].round == RoundRobinMeets(teams)[k2].round ==>
              !SharesTeam(RoundRobin(teams)[k1], RoundRobin(teams)[k2])
  {
    if |teams| > 0 {
      var start := Pad(teams);
      var ms := RoundRobinMeets(teams);
      PadDistinct(teams);
      MeetsRoundDisjoint(start, |start| - 1, |teams| / 2);
      forall k1, k2 | 0 <= k1 < k2 < |ms| && ms[k1].round == ms[k2].round
        ensures !SharesTeam(RoundRobin(teams)[k1], RoundRobin(teams)[k2])
      {
        assert !Touches(ms[k1], ms[k2]);
      }
    }
  }

  // ---------------------------------------------------------------------------
  // Double round robin
  // ---------------------------------------------------------------------------

  /** A leg that pairs x and y once, followed by its venue-swapped copy, hosts each of
      x v y and y v x exactly once. */
  lemma {:induction false} BothLegsHostOnce<T>(firstLeg: seq<Fixture<T>>, x: T, y: T)
    requires x != y && PairedOnce(firstLeg, x, y)
    ensures HostsOnce(firstLeg + SecondLeg(firstLeg), x, y)
  {
    var n := |firstLeg|;
    var fs := firstLeg + SecondLeg(firstLeg);
    var k :| 0 <= k < n && Between(firstLeg[k], x, y) && forall k2 :: 0 <= k2 < n && Between(firstLeg[k2], x, y) ==> k2 == k;
    var at := if firstLeg[k] == Fixture(x, y) then k else n + k;
    assert fs[at] == Fixture(x, y);
    forall k2 | 0 <= k2 < |fs| && fs[k2] == Fixture(x, y) ensures k2 == at {
      if k2 < n {
        assert firstLeg[k2] == Fixture(x, y);
        assert Between(firstLeg[k2], x, y);
      } else {
        assert firstLeg[k2 - n] == Fixture(y, x);
        assert Between(firstLeg[k2 - n], x, y);
      }
    }
  }

  /** The same for a leg that pairs them in either order. */
  lemma {:induction false} LegsHostOnce<T>(firstLeg: seq<Fixture<T>>, x: T, y: T)
    requires x != y && (PairedOnce(firstLeg, x, y) || PairedOnce(firstLeg, y, x))
    ensures HostsOnce(firstLeg + SecondLeg(firstLeg), x, y)
  {
    if !PairedOnce(firstLeg, x, y) {
      PairedOnceSwap(firstLeg, y, x);
    }
    BothLegsHostOnce(firstLeg, x, y);
  }

  /** The pair i, j of the first leg, taken in the order j, i. */
  lemma {:induction false} PairedOnceSwap<T>(fs: seq<Fixture<T>>, x: T, y: T)
    requires PairedOnce(fs, x, y)
    ensures PairedOnce(fs, y, x)
  {
    var k :| 0 <= k < |fs| && Between(fs[k], x, y) && forall k2 :: 0 <= k2 < |fs| && Between(fs[k2], x, y) ==> k2 == k;
    assert Between(fs[k], y, x);
    forall k2 | 0 <= k2 < |fs| && Between(fs[k2], y, x) ensures k2 == k {
      assert Between(fs[k2], x, y);
    }
  }

  /** N (N - 1) / 2 doubled is N (N - 1) for an even N. */
  lemma DoubleHalfProduct(n: nat)
    requires n % 2 == 0
    ensures 2 * (n * (n - 1) / 2) == n * (n - 1)
  {
    var h := n / 2;
    assert n == 2 * h;
    assert n * (n - 1) == 2 * (h * (n - 1));
  }

  /** For an even count of distinct teams the double round robin has N (N - 1) fixtures
      and hosts every ordered pair of distinct teams exactly once. */
  lemma {:induction false} DoubleRoundRobinEvenComplete<T>(teams: seq<T>)
    requires Distinct(teams) && |teams| % 2 == 0
    ensures |DoubleRoundRobin(teams)| == |teams| * (|teams| - 1)
    ensures forall i, j :: 0 <= i < |teams| && 0 <= j < |teams| && i != j ==> HostsOnce(DoubleRoundRobin(teams), teams[i], teams[j])
  {
    assert |DoubleRoundRobin(teams)| == |teams| * (|teams| - 1) by {
      RoundRobinEvenComplete(teams);
      DoubleRoundRobinShape(teams);
      DoubleHalfProduct(|teams|);
    }
    forall i, j | 0 <= i < |teams| && 0 <= j < |teams| && i != j ensures HostsOnce(DoubleRoundRobin(teams), teams[i], teams[j]) {
      DoubleHostsPair(teams, i, j);
    }
  }

  lemma {:induction false} DoubleHostsPair<T>(teams: seq<T>, i: nat, j: nat)
    requires Distinct(teams) && |teams| % 2 == 0 && i < |teams| && j < |teams| && i != j
    ensures HostsOnce(DoubleRoundRobin(teams), teams[i], teams[j])
  {
    RoundRobinEvenComplete(teams);
    assert teams[i] != teams[j];
    LegsHostOnce(RoundRobin(teams), teams[i], teams[j]);
  }

  // ---------------------------------------------------------------------------
  // Single elimination
  // ---------------------------------------------------------------------------

  /** Team x plays in fixture f. */
  ghost predicate InFixture<T>(f: Fixture<T>, x: T) {
    f.home == x || f.away == x
  }

  /** Distinct elements occur at most once. */
  lemma {:induction false} DistinctCount<T>(s: seq<T>, x: T)
    requires Distinct(s)
    ensures multiset(s)[x] <= 1
  {
    if |s| > 0 {
      var prefix := s[..|s| - 1];
      assert s == prefix + [s[|s| - 1]];
      assert Distinct(prefix);
      DistinctCount(prefix, x);
      if s[|s| - 1] == x {
        assert x !in prefix;
      }
    }
  }

  /** A shuffle of distinct teams has no team twice. */
  lemma {:induction false} ShuffleDistinct<T>(teams: seq<T>, shuffled: seq<T>)
    requires Distinct(teams) && multiset(shuffled) == multiset(teams)
    ensures Distinct(shuffled)
  {
    forall i, j | 0 <= i < j < |shuffled| ensures shuffled[i] != shuffled[j] {
      if shuffled[i] == shuffled[j] {
        var x := shuffled[i];
        assert shuffled == shuffled[..j] + [shuffled[j]] + shuffled[j + 1..];
        assert x in shuffled[..j];
        assert multiset(shuffled)[x] >= 2;
        DistinctCount(teams, x);
        assert false;
      }
    }
  }

  /** Given a shuffle of distinct teams: floor(n / 2) fixtures between listed teams,
      no team against itself. */
  lemma {:induction false} SingleEliminationProper<T>(teams: seq<T>, shuffled: seq<T>)
    requires Distinct(teams) && multiset(shuffled) == multiset(teams)
    ensures |FirstRoundPairs(shuffled)| == |teams| / 2
    ensures ProperFixtures(FirstRoundPairs(shuffled), teams)
  {
    var fs := FirstRoundPairs(shuffled);
    assert |shuffled| == |teams| by {
      assert |multiset(shuffled)| == |multiset(teams)|;
    }
    ShuffleDistinct(teams, shuffled);
    forall k | 0 <= k < |fs| ensures fs[k].home != fs[k].away && fs[k].home in teams && fs[k].away in teams {
      assert shuffled[2 * k] in multiset(shuffled) && shuffled[2 * k + 1] in multiset(shuffled);
    }
  }

  /** Exactly one fixture of fs has team x. */
  ghost predicate InOneFixture<T>(fs: seq<Fixture<T>>, x: T) {
    exists k :: 0 <= k < |fs| && InFixture(fs[k], x) && forall k2 :: 0 <= k2 < |fs| && InFixture(fs[k2], x) ==> k2 == k
  }

  /** In a shuffle without repeats every team but an odd last one is in exactly one
      fixture, and an odd last team is in none. */
  lemma {:induction false} SingleEliminationOnce<T>(shuffled: seq<T>)
    requires Distinct(shuffled)
    ensures forall j :: 0 <= j < 2 * (|shuffled| / 2) ==> InOneFixture(FirstRoundPairs(shuffled), shuffled[j])
    ensures |shuffled| % 2 == 1 ==>
              forall k :: 0 <= k < |FirstRoundPairs(shuffled)| ==> !InFixture(FirstRoundPairs(shuffled)[k], shuffled[|shuffled| - 1])
  {
    var fs := FirstRoundPairs(shuffled);
    forall j | 0 <= j < 2 * (|shuffled| / 2) ensures InOneFixture(fs, shuffled[j]) {
      var k := j / 2;
      assert InFixture(fs[k], shuffled[j]);
      forall k2 | 0 <= k2 < |fs| && InFixture(fs[k2], shuffled[j]) ensures k2 == k {
        if shuffled[2 * k2] == shuffled[j] {
          DistinctIndex(shuffled, 2 * k2, j);
        } else {
          DistinctIndex(shuffled, 2 * k2 + 1, j);
        }
      }
    }
  }
}
