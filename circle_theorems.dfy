/**
 * What the circle method guarantees, stated on the meet sequence that both
 * generators map into their output: no pair of teams twice, every pair whose
 * slot pair is examined at least once, no team twice in one round, one rest
 * round per team when there is a bye, and the number of meets.
 */
module CircleTheorems {
  import opened Wrappers
  import opened CircleMethod

  /** Team x is one of the two teams of mt. */
  ghost predicate InMeet<T>(mt: Meet<T>, x: T) {
    mt.first == x || mt.second == x
  }

  /** mt is a meet of the two teams x and y, in either order. */
  ghost predicate Involves<T>(mt: Meet<T>, x: T, y: T) {
    (mt.first == x && mt.second == y) || (mt.first == y && mt.second == x)
  }

  /** a and b share a team. */
  ghost predicate Touches<T>(a: Meet<T>, b: Meet<T>) {
    InMeet(a, b.first) || InMeet(a, b.second)
  }

  /** Some meet of round r includes team x. */
  ghost predicate PlaysIn<T>(ms: seq<Meet<T>>, r: nat, x: T) {
    exists k :: 0 <= k < |ms| && ms[k].round == r && InMeet(ms[k], x)
  }

  /** In one round, distinct slots hold elements that started at distinct indices. */
  lemma {:induction false} OriginInjective(K: nat, r: nat, j1: nat, j2: nat)
    requires 1 <= K && r <= K && j1 <= K && j2 <= K && Origin(K, r, j1) == Origin(K, r, j2)
    ensures j1 == j2
  {
    OriginIs(K, r, j1, Origin(K, r, j2));
    OriginIs(K, r, j2, Origin(K, r, j2));
  }

  /** Slot 0 never moves and is the first slot of its pair, so the element that started
      there is never the second team of a meet. */
  lemma {:induction false} PlacedFixedFirst<T>(start: seq<Option<T>>, mt: Meet<T>, rounds: nat, m: nat)
    requires Distinct(start) && Placed(start, mt, rounds, m) && start[0].Some?
    ensures mt.second != start[0].value
  {
    var K := |start| - 1;
    OriginClosed(K, mt.round, K - mt.slot);
    assert start[0] != start[Origin(K, mt.round, K - mt.slot)];
  }

  /** The two teams of a meet differ. */
  lemma {:induction false} PlacedProper<T>(start: seq<Option<T>>, mt: Meet<T>, rounds: nat, m: nat)
    requires Distinct(start) && Placed(start, mt, rounds, m)
    ensures mt.first != mt.second
  {
    var K := |start| - 1;
    var p, q := Origin(K, mt.round, mt.slot), Origin(K, mt.round, K - mt.slot);
    if mt.first == mt.second {
      DistinctIndex(start, p, q);
      OriginInjective(K, mt.round, mt.slot, K - mt.slot);
    }
  }

  /** No team meets itself in the schedule. */
  lemma {:induction false} MeetsProper<T>(start: seq<Option<T>>, rounds: nat, m: nat)
    requires |start| >= 2 && rounds <= |start| - 1 && 2 * m <= |start| && Distinct(start)
    ensures forall k :: 0 <= k < |Meets(start, rounds, m)| ==> Meets(start, rounds, m)[k].first != Meets(start, rounds, m)[k].second
  {
    MeetsPlaced(start, rounds, m);
    forall k | 0 <= k < |Meets(start, rounds, m)| ensures Meets(start, rounds, m)[k].first != Meets(start, rounds, m)[k].second {
      PlacedProper(start, Meets(start, rounds, m)[k], rounds, m);
    }
  }

  /** Equal values at two index pairs of a list without repeats mean equal index pairs. */
  lemma {:induction false} DistinctPairs<T>(s: seq<T>, pa: nat, qa: nat, pb: nat, qb: nat)
    requires Distinct(s) && pa < |s| && qa < |s| && pb < |s| && qb < |s|
    requires (s[pa] == s[pb] && s[qa] == s[qb]) || (s[pa] == s[qb] && s[qa] == s[pb])
    ensures (pa == pb && qa == qb) || (pa == qb && qa == pb)
  {
    if s[pa] == s[pb] && s[qa] == s[qb] {
      DistinctIndex(s, pa, pb);
      DistinctIndex(s, qa, qb);
    } else {
      DistinctIndex(s, pa, qb);
      DistinctIndex(s, qa, pb);
    }
  }

  /** A meet between the teams that started at p and q is held by a slot pair whose
      two slots started at p and q. */
  lemma {:induction false} PlacedPair<T>(start: seq<Option<T>>, mt: Meet<T>, rounds: nat, m: nat, p: nat, q: nat)
    requires Distinct(start) && Placed(start, mt, rounds, m)
    requires p < |start| && q < |start| && start[p].Some? && start[q].Some?
    requires Involves(mt, start[p].value, start[q].value)
    ensures 2 * mt.slot < |start| - 1 && PairAt(|start| - 1, mt.round, mt.slot, p, q)
  {
    var K := |start| - 1;
    DistinctPairs(start, Origin(K, mt.round, mt.slot), Origin(K, mt.round, K - mt.slot), p, q);
  }

  /** A meet between the teams that started at p and q is the one of the slot pair
      (i, K - i) of round r that holds them. */
  lemma {:induction false} PlacedAt<T>(start: seq<Option<T>>, mt: Meet<T>, rounds: nat, m: nat, p: nat, q: nat, r: nat, i: nat)
    requires |start| % 2 == 0 && Distinct(start) && Placed(start, mt, rounds, m)
    requires p < |start| && q < |start| && p != q && start[p].Some? && start[q].Some?
    requires Involves(mt, start[p].value, start[q].value)
    requires r < |start| - 1 && 2 * i < |start| - 1 && PairAt(|start| - 1, r, i, p, q)
    ensures mt.round == r && mt.slot == i
  {
    var K := |start| - 1;
    assert K % 2 == 1;
    PlacedPair(start, mt, rounds, m, p, q);
    PairAtUnique(K, mt.round, mt.slot, r, i, p, q);
  }

  /** Two meets of the same two teams come from the same slot pair of the same round. */
  lemma {:induction false} PlacedSameTeams<T>(start: seq<Option<T>>, a: Meet<T>, b: Meet<T>, rounds: nat, m: nat)
    requires |start| % 2 == 0 && Distinct(start)
    requires Placed(start, a, rounds, m) && Placed(start, b, rounds, m) && Involves(b, a.first, a.second)
    ensures a.round == b.round && a.slot == b.slot
  {
    var K := |start| - 1;
    var pa, qa := Origin(K, a.round, a.slot), Origin(K, a.round, K - a.slot);
    PlacedProper(start, a, rounds, m);
    PlacedPair(start, a, rounds, m, pa, qa);
    PlacedPair(start, b, rounds, m, pa, qa);
    assert K % 2 == 1;
    PairAtUnique(K, a.round, a.slot, b.round, b.slot, pa, qa);
  }

  /** No two meets of the schedule are between the same two teams. */
  lemma {:induction false} MeetsNoRepeat<T>(start: seq<Option<T>>, rounds: nat, m: nat)
    requires |start| >= 2 && |start| % 2 == 0 && rounds <= |start| - 1 && 2 * m <= |start| && Distinct(start)
    ensures forall k1, k2 :: 0 <= k1 < k2 < |Meets(start, rounds, m)| ==>
              !Involves(Meets(start, rounds, m)[k2], Meets(start, rounds, m)[k1].first, Meets(start, rounds, m)[k1].second)
  {
    var ms := Meets(start, rounds, m);
    MeetsPlaced(start, rounds, m);
    MeetsOrdered(start, rounds, m);
    forall k1, k2 | 0 <= k1 < k2 < |ms| ensures !Involves(ms[k2], ms[k1].first, ms[k1].second) {
      if Involves(ms[k2], ms[k1].first, ms[k1].second) {
        PlacedSameTeams(start, ms[k1], ms[k2], rounds, m);
      }
    }
  }

  /** The teams that started at indices p and q, held by slot pair (i, K - i) in round
      r, meet there when round r is played and that slot pair is examined. */
  lemma {:induction false} MeetsCover<T>(start: seq<Option<T>>, rounds: nat, m: nat, p: nat, q: nat, r: nat, i: nat)
    requires |start| >= 2 && |start| % 2 == 0 && rounds <= |start| - 1 && 2 * m <= |start|
    requires p < |start| && q < |start| && start[p].Some? && start[q].Some?
    requires r < rounds && i < m && PairAt(|start| - 1, r, i, p, q)
    ensures ByeFree(start, r, i)
    ensures MeetOf(start, r, i) in Meets(start, rounds, m)
    ensures Involves(MeetOf(start, r, i), start[p].value, start[q].value)
  {
    MeetsHas(start, rounds, m, r, i);
  }

  /** Within one round no team is in two meets. */
  lemma {:induction false} MeetsRoundDisjoint<T>(start: seq<Option<T>>, rounds: nat, m: nat)
    requires |start| >= 2 && rounds <= |start| - 1 && 2 * m <= |start| && Distinct(start)
    ensures forall k1, k2 :: 0 <= k1 < k2 < |Meets(start, rounds, m)| && Meets(start, rounds, m)[k1].round == Meets(start, rounds, m)[k2].round ==>
              !Touches(Meets(start, rounds, m)[k1], Meets(start, rounds, m)[k2])
  {
    var ms := Meets(start, rounds, m);
    var K := |start| - 1;
    MeetsPlaced(start, rounds, m);
    MeetsOrdered(start, rounds, m);
    forall k1, k2 | 0 <= k1 < k2 < |ms| && ms[k1].round == ms[k2].round ensures !Touches(ms[k1], ms[k2]) {
      var a, b := ms[k1], ms[k2];
      assert Placed(start, a, rounds, m) && Placed(start, b, rounds, m) && Before(a, b);
      var r := a.round;
      var ja, ja', jb, jb' := a.slot, K - a.slot, b.slot, K - b.slot;
      forall j1, j2 | j1 in {ja, ja'} && j2 in {jb, jb'} ensures start[Origin(K, r, j1)] != start[Origin(K, r, j2)] {
        if start[Origin(K, r, j1)] == start[Origin(K, r, j2)] {
          DistinctIndex(start, Origin(K, r, j1), Origin(K, r, j2));
          OriginInjective(K, r, j1, j2);
        }
      }
    }
  }

  /** Outside its MeetRound with the bye index K, the element that started at p < K
      faces a slot whose element did not start at K. */
  lemma {:induction false} PartnerNotBye(K: nat, r: nat, p: nat)
    requires K % 2 == 1 && r < K && p < K && r != MeetRound(K, p, K)
    ensures Origin(K, r, K - Position(K, r, p)) != K
  {
    OriginIs(K, r, K - Position(K, r, p), K);
    SlotSum(K, r, p, K);
  }

  /** In its MeetRound with the bye index K, the element that started at p < K faces
      the bye, whichever of the two slots it is in. */
  lemma {:induction false} PartnerIsBye(K: nat, r: nat, p: nat, s: nat)
    requires K % 2 == 1 && r < K && p < K && s <= K && r == MeetRound(K, p, K)
    ensures Origin(K, r, s) == p ==> Origin(K, r, K - s) == K
    ensures Origin(K, r, K - s) == p ==> Origin(K, r, s) == K
  {
    SlotSum(K, r, p, K);
    OriginIs(K, r, s, p);
    OriginIs(K, r, K - s, p);
    OriginIs(K, r, s, K);
    OriginIs(K, r, K - s, K);
  }

  /** Outside its rest round, the team that started at p < K is in an examined slot pair. */
  lemma {:induction false} PlaysUnlessResting<T>(start: seq<Option<T>>, p: nat, r: nat)
    requires |start| >= 2 && |start| % 2 == 0 && Distinct(start) && start[|start| - 1] == None
    requires p < |start| - 1 && r < |start| - 1 && r != MeetRound(|start| - 1, p, |start| - 1)
    ensures start[p].Some? && PlaysIn(Meets(start, |start| - 1, |start| / 2), r, start[p].value)
  {
    var K := |start| - 1;
    var j := Position(K, r, p);
    PositionOrigin(K, r, p);
    PartnerNotBye(K, r, p);
    var o := Origin(K, r, K - j);
    assert start[p] != start[K] && start[o] != start[K];
    SlotPlays(start, r, j);
  }

  /** In a round r < K, the team in slot j plays when both slots of its slot pair hold a team. */
  lemma {:induction false} SlotPlays<T>(start: seq<Option<T>>, r: nat, j: nat)
    requires |start| >= 2 && |start| % 2 == 0 && r < |start| - 1 && j < |start|
    requires start[Origin(|start| - 1, r, j)].Some? && start[Origin(|start| - 1, r, |start| - 1 - j)].Some?
    ensures PlaysIn(Meets(start, |start| - 1, |start| / 2), r, start[Origin(|start| - 1, r, j)].value)
  {
    var K := |start| - 1;
    assert K % 2 == 1;
    var i := if 2 * j < K then j else K - j;
    assert ByeFree(start, r, i);
    var mt := MeetOf(start, r, i);
    assert mt.round == r && InMeet(mt, start[Origin(K, r, j)].value);
    var ms := Meets(start, K, |start| / 2);
    assert mt in ms by {
      MeetsHas(start, K, |start| / 2, r, i);
    }
    var k :| 0 <= k < |ms| && ms[k] == mt;
  }

  /** In its rest round, the team that started at p < K is in no meet. */
  lemma {:induction false} NotInMeetWhenResting<T>(start: seq<Option<T>>, mt: Meet<T>, p: nat)
    requires |start| >= 2 && |start| % 2 == 0 && Distinct(start) && start[|start| - 1] == None
    requires Placed(start, mt, |start| - 1, |start| / 2)
    requires p < |start| - 1 && start[p].Some? && mt.round == MeetRound(|start| - 1, p, |start| - 1)
    ensures !InMeet(mt, start[p].value)
  {
    var K := |start| - 1;
    PartnerIsBye(K, mt.round, p, mt.slot);
    var a, b := Origin(K, mt.round, mt.slot), Origin(K, mt.round, K - mt.slot);
    assert a != p && b != p;
    assert start[a] != start[p] && start[b] != start[p];
  }

  /** With the bye at the last index K, the team that started at p < K rests in
      exactly one round, MeetRound(K, p, K), and plays in every other round. */
  lemma {:induction false} MeetsRestAt<T>(start: seq<Option<T>>, p: nat, r: nat)
    requires |start| >= 2 && |start| % 2 == 0 && Distinct(start) && start[|start| - 1] == None
    requires p < |start| - 1 && r < |start| - 1
    ensures start[p].Some?
    ensures r != MeetRound(|start| - 1, p, |start| - 1) ==> PlaysIn(Meets(start, |start| - 1, |start| / 2), r, start[p].value)
    ensures r == MeetRound(|start| - 1, p, |start| - 1) ==> !PlaysIn(Meets(start, |start| - 1, |start| / 2), r, start[p].value)
  {
    var K := |start| - 1;
    var ms := Meets(start, K, |start| / 2);
    assert start[p] != start[K];
    if r != MeetRound(K, p, K) {
      PlaysUnlessResting(start, p, r);
    } else {
      MeetsPlaced(start, K, |start| / 2);
      forall k | 0 <= k < |ms| && ms[k].round == r ensures !InMeet(ms[k], start[p].value) {
        NotInMeetWhenResting(start, ms[k], p);
      }
    }
  }

  /** MeetsRestAt with the rest round given as the round q whose slot pair s holds p
      and the bye. */
  lemma {:induction false} MeetsRestPair<T>(start: seq<Option<T>>, p: nat, r: nat, q: nat, s: nat)
    requires |start| >= 2 && |start| % 2 == 0 && Distinct(start) && start[|start| - 1] == None
    requires p < |start| - 1 && r < |start| - 1 && q < |start| - 1 && 2 * s < |start| - 1
    requires PairAt(|start| - 1, q, s, p, |start| - 1)
    ensures start[p].Some?
    ensures r != q ==> PlaysIn(Meets(start, |start| - 1, |start| / 2), r, start[p].value)
    ensures r == q ==> !PlaysIn(Meets(start, |start| - 1, |start| / 2), r, start[p].value)
  {
    var K := |start| - 1;
    assert K % 2 == 1;
    MeetPairAt(K, p, K);
    PairAtUnique(K, q, s, MeetRound(K, p, K), MeetSlot(K, p, K), p, K);
    MeetsRestAt(start, p, r);
  }

  /** A round without a bye emits one meet per examined slot pair. */
  lemma {:induction false} RoundMeetsFull<T>(slots: seq<Option<T>>, round: nat, n: nat)
    requires 2 * n <= |slots| && forall k :: 0 <= k < |slots| ==> slots[k].Some?
    ensures |RoundMeets(slots, round, n)| == n
  {
    if n > 0 {
      RoundMeetsFull(slots, round, n - 1);
    }
  }

  /** A round whose only bye is in slot b emits one meet fewer exactly when b's slot
      pair is among the examined ones. */
  lemma {:induction false} RoundMeetsOneBye<T>(slots: seq<Option<T>>, round: nat, n: nat, b: nat)
    requires 2 * n <= |slots| && b < |slots| && slots[b] == None
    requires forall k :: 0 <= k < |slots| && k != b ==> slots[k].Some?
    ensures |RoundMeets(slots, round, n)| == n - (if b < n || |slots| - 1 - b < n then 1 else 0)
  {
    if n > 0 {
      RoundMeetsOneBye(slots, round, n - 1, b);
    }
  }

  /** One more round of m slot pairs, b of them skipped, adds m - b meets. */
  lemma LengthStep(len: int, prev: int, round: int, a: nat, m: nat, skipped: int, prevSkipped: int, b: int)
    requires a > 0 && prev == (a - 1) * m - prevSkipped && round == m - b
    requires len == prev + round && skipped == prevSkipped + b
    ensures len == a * m - skipped
  {
    assert a * m == (a - 1) * m + m;
  }

  /** One more round of m slot pairs, none skipped, adds m meets. */
  lemma FullLengthStep(len: int, prev: int, round: int, a: nat, m: nat)
    requires a > 0 && prev == (a - 1) * m && round == m && len == prev + round
    ensures len == a * m
  {
    assert a * m == (a - 1) * m + m;
  }

  /** Without a bye, rounds rounds of m examined slot pairs emit rounds * m meets. */
  lemma {:induction false} MeetsLengthFull<T>(start: seq<Option<T>>, rounds: nat, m: nat)
    requires |start| >= 2 && rounds <= |start| - 1 && 2 * m <= |start|
    requires None !in start
    ensures |Meets(start, rounds, m)| == rounds * m
  {
    if rounds > 0 {
      var prev := |Meets(start, rounds - 1, m)|;
      assert prev == (rounds - 1) * m by {
        MeetsLengthFull(start, rounds - 1, m);
      }
      var round := |RoundMeets(RotateN(start, rounds - 1), rounds - 1, m)|;
      assert round == m by {
        RoundLengthFull(start, rounds - 1, m);
      }
      assert |Meets(start, rounds, m)| == prev + round by {
        MeetsLengthUnfold(start, rounds, m);
      }
      FullLengthStep(|Meets(start, rounds, m)|, prev, round, rounds, m);
    }
  }

  /** Without a bye, round r emits m meets. */
  lemma {:induction false} RoundLengthFull<T>(start: seq<Option<T>>, r: nat, m: nat)
    requires |start| >= 2 && r < |start| - 1 && 2 * m <= |start|
    requires None !in start
    ensures |RoundMeets(RotateN(start, r), r, m)| == m
  {
    var slots := RotateN(start, r);
    forall k | 0 <= k < |slots| ensures slots[k].Some? {
      RotateNAt(start, r, k);
      assert slots[k] in start;
    }
    RoundMeetsFull(slots, r, m);
  }

  /** The bye's slot pair is examined in round r (the bye started at index K). */
  ghost predicate ByeExamined(K: nat, r: nat, m: nat)
    requires 1 <= K && r <= K
  {
    Position(K, r, K) < m || K - Position(K, r, K) < m
  }

  /** How many of the rounds 0 .. rounds-1 examine the bye's slot pair. */
  ghost function ByeRounds(K: nat, rounds: nat, m: nat): nat
    requires 1 <= K && rounds <= K
  {
    if rounds == 0 then 0 else ByeRounds(K, rounds - 1, m) + if ByeExamined(K, rounds - 1, m) then 1 else 0
  }

  /** In round r the bye that started at index K stands in slot Position(K, r, K), and
      every other slot holds a team. */
  lemma {:induction false} ByeSlotAt<T>(start: seq<Option<T>>, r: nat)
    requires |start| >= 2 && r < |start| - 1 && start[|start| - 1] == None
    requires forall k :: 0 <= k < |start| - 1 ==> start[k].Some?
    ensures RotateN(start, r)[Position(|start| - 1, r, |start| - 1)] == None
    ensures forall k :: 0 <= k < |start| && k != Position(|start| - 1, r, |start| - 1) ==> RotateN(start, r)[k].Some?
  {
    var K := |start| - 1;
    RotateNAt(start, r, Position(K, r, K));
    PositionOrigin(K, r, K);
    forall k | 0 <= k < |start| && k != Position(K, r, K) ensures RotateN(start, r)[k].Some? {
      RotateNAt(start, r, k);
      OriginIs(K, r, k, K);
    }
  }

  /** With the bye at the last index, round r emits m meets less one when the bye's
      slot pair is examined. */
  lemma {:induction false} RoundLengthBye<T>(start: seq<Option<T>>, r: nat, m: nat)
    requires |start| >= 2 && r < |start| - 1 && 2 * m <= |start|
    requires start[|start| - 1] == None && forall k :: 0 <= k < |start| - 1 ==> start[k].Some?
    ensures |RoundMeets(RotateN(start, r), r, m)| == m - (if ByeExamined(|start| - 1, r, m) then 1 else 0)
  {
    ByeSlotAt(start, r);
    RoundMeetsOneBye(RotateN(start, r), r, m, Position(|start| - 1, r, |start| - 1));
  }

  /** With the bye at the last index, each round emits m meets less one when the
      bye's slot pair is examined. */
  lemma {:induction false} MeetsLengthBye<T>(start: seq<Option<T>>, rounds: nat, m: nat)
    requires |start| >= 2 && rounds <= |start| - 1 && 2 * m <= |start|
    requires start[|start| - 1] == None && forall k :: 0 <= k < |start| - 1 ==> start[k].Some?
    ensures |Meets(start, rounds, m)| == rounds * m - ByeRounds(|start| - 1, rounds, m)
  {
    if rounds > 0 {
      var K := |start| - 1;
      MeetsLengthBye(start, rounds - 1, m);
      RoundLengthBye(start, rounds - 1, m);
      MeetsLengthUnfold(start, rounds, m);
      LengthStep(|Meets(start, rounds, m)|, |Meets(start, rounds - 1, m)|, |RoundMeets(RotateN(start, rounds - 1), rounds - 1, m)|,
                 rounds, m, ByeRounds(K, rounds, m), ByeRounds(K, rounds - 1, m), if ByeExamined(K, rounds - 1, m) then 1 else 0);
    }
  }

  /** When half the slots are examined (m = (K + 1) / 2), every round examines the bye's pair. */
  lemma {:induction false} ByeRoundsHalf(K: nat, rounds: nat)
    requires K % 2 == 1 && rounds <= K
    ensures ByeRounds(K, rounds, (K + 1) / 2) == rounds
  {
    if rounds > 0 {
      ByeRoundsHalf(K, rounds - 1);
    }
  }

  /** When one pair fewer is examined (m = (K - 1) / 2, K >= 3), the bye's pair goes
      unexamined in exactly the rounds m and m + 1. */
  lemma {:induction false} ByeRoundsShort(K: nat, rounds: nat)
    requires K % 2 == 1 && K >= 3 && rounds <= K
    ensures ByeRounds(K, rounds, (K - 1) / 2) ==
              rounds - (if rounds > (K - 1) / 2 then 1 else 0) - (if rounds > (K + 1) / 2 then 1 else 0)
  {
    if rounds > 0 {
      ByeRoundsShort(K, rounds - 1);
    }
  }

  /** Exactly one meet of ms is between x and y. */
  ghost predicate OnceIn<T>(ms: seq<Meet<T>>, x: T, y: T) {
    exists k :: 0 <= k < |ms| && Involves(ms[k], x, y) && forall k2 :: 0 <= k2 < |ms| && Involves(ms[k2], x, y) ==> k2 == k
  }

  /** No meet of ms is between x and y. */
  ghost predicate NeverIn<T>(ms: seq<Meet<T>>, x: T, y: T) {
    forall k :: 0 <= k < |ms| ==> !Involves(ms[k], x, y)
  }

  /** The index in the schedule of the meet of round r, slot pair i. */
  lemma MeetsIndexOf<T>(start: seq<Option<T>>, rounds: nat, m: nat, p: nat, q: nat, r: nat, i: nat) returns (k: nat)
    requires |start| >= 2 && |start| % 2 == 0 && rounds <= |start| - 1 && 2 * m <= |start|
    requires p < |start| && q < |start| && start[p].Some? && start[q].Some?
    requires r < rounds && i < m && PairAt(|start| - 1, r, i, p, q)
    ensures k < |Meets(start, rounds, m)| && Meets(start, rounds, m)[k].round == r && Meets(start, rounds, m)[k].slot == i
    ensures Involves(Meets(start, rounds, m)[k], start[p].value, start[q].value)
  {
    MeetsCover(start, rounds, m, p, q, r, i);
    k :| 0 <= k < |Meets(start, rounds, m)| && Meets(start, rounds, m)[k] == MeetOf(start, r, i);
  }

  /** No two meets of the schedule share a round and a slot pair. */
  lemma MeetsIndexUnique<T>(start: seq<Option<T>>, rounds: nat, m: nat, k1: nat, k2: nat)
    requires |start| >= 2 && 2 * m <= |start|
    requires k1 < |Meets(start, rounds, m)| && k2 < |Meets(start, rounds, m)|
    requires Meets(start, rounds, m)[k1].round == Meets(start, rounds, m)[k2].round
    requires Meets(start, rounds, m)[k1].slot == Meets(start, rounds, m)[k2].slot
    ensures k1 == k2
  {
    MeetsOrdered(start, rounds, m);
  }

  /** A meet of the teams that started at p and q is the one of round r, slot pair i. */
  lemma MeetsOnlyAt<T>(start: seq<Option<T>>, rounds: nat, m: nat, p: nat, q: nat, r: nat, i: nat, k: nat)
    requires |start| >= 2 && |start| % 2 == 0 && rounds <= |start| - 1 && 2 * m <= |start| && Distinct(start)
    requires p < |start| && q < |start| && p != q && start[p].Some? && start[q].Some?
    requires r < rounds && i < m && PairAt(|start| - 1, r, i, p, q)
    requires k < |Meets(start, rounds, m)| && Involves(Meets(start, rounds, m)[k], start[p].value, start[q].value)
    ensures Meets(start, rounds, m)[k].round == r && Meets(start, rounds, m)[k].slot == i
  {
    MeetsPlaced(start, rounds, m);
    PlacedAt(start, Meets(start, rounds, m)[k], rounds, m, p, q, r, i);
  }

  /** The teams that started at p and q meet exactly once when the slot pair (i, K - i)
      that holds them in round r is examined and round r is played. */
  lemma {:induction false} MeetsOnce<T>(start: seq<Option<T>>, rounds: nat, m: nat, p: nat, q: nat, r: nat, i: nat)
    requires |start| >= 2 && |start| % 2 == 0 && rounds <= |start| - 1 && 2 * m <= |start| && Distinct(start)
    requires p < |start| && q < |start| && p != q && start[p].Some? && start[q].Some?
    requires r < rounds && i < m && PairAt(|start| - 1, r, i, p, q)
    ensures OnceIn(Meets(start, rounds, m), start[p].value, start[q].value)
  {
    var ms := Meets(start, rounds, m);
    var x, y := start[p].value, start[q].value;
    var k := MeetsIndexOf(start, rounds, m, p, q, r, i);
    forall k2 | 0 <= k2 < |ms| && Involves(ms[k2], x, y) ensures k2 == k {
      MeetsOnlyAt(start, rounds, m, p, q, r, i, k2);
      MeetsIndexUnique(start, rounds, m, k2, k);
    }
  }

  /** The teams that started at p and q never meet when the slot pair (i, K - i) that
      holds them in round r is not examined. */
  lemma {:induction false} MeetsNever<T>(start: seq<Option<T>>, rounds: nat, m: nat, p: nat, q: nat, r: nat, i: nat)
    requires |start| >= 2 && |start| % 2 == 0 && rounds <= |start| - 1 && 2 * m <= |start| && Distinct(start)
    requires p < |start| && q < |start| && p != q && start[p].Some? && start[q].Some?
    requires r < |start| - 1 && 2 * i < |start| - 1 && i >= m && PairAt(|start| - 1, r, i, p, q)
    ensures NeverIn(Meets(start, rounds, m), start[p].value, start[q].value)
  {
    var ms := Meets(start, rounds, m);
    MeetsPlaced(start, rounds, m);
    forall k | 0 <= k < |ms| ensures !Involves(ms[k], start[p].value, start[q].value) {
      if Involves(ms[k], start[p].value, start[q].value) {
        PlacedAt(start, ms[k], rounds, m, p, q, r, i);
      }
    }
  }

  /** Every team of a meet over the padded list is one of the listed teams. */
  lemma {:induction false} PadMeetsTeams<T>(teams: seq<T>, rounds: nat, m: nat)
    requires |Pad(teams)| >= 2 && rounds <= |Pad(teams)| - 1 && 2 * m <= |Pad(teams)|
    ensures forall k :: 0 <= k < |Meets(Pad(teams), rounds, m)| ==>
              Meets(Pad(teams), rounds, m)[k].first in teams && Meets(Pad(teams), rounds, m)[k].second in teams
  {
    var start := Pad(teams);
    var ms := Meets(start, rounds, m);
    MeetsPlaced(start, rounds, m);
    forall k | 0 <= k < |ms| ensures ms[k].first in teams && ms[k].second in teams {
      assert Placed(start, ms[k], rounds, m);
      PadSome(teams, Origin(|start| - 1, ms[k].round, ms[k].slot));
      PadSome(teams, Origin(|start| - 1, ms[k].round, |start| - 1 - ms[k].slot));
    }
  }

  /** A team in the padded list is a listed team. */
  lemma PadSome<T>(teams: seq<T>, o: nat)
    requires o < |Pad(teams)| && Pad(teams)[o].Some?
    ensures o < |teams| && Pad(teams)[o].value == teams[o]
  {
  }
}
