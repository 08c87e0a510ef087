/**
 * The circle method shared by both round-robin generators: the working array of
 * team slots (an odd list padded with one bye), the rotation applied after every
 * round, and the slot pairs (i, M-1-i) examined in each round.
 *
 * Positions: the working array has M slots, M even, and K = M - 1 (odd). Slot 0
 * never moves; the other K slots rotate by one place per round.
 */
module CircleMethod {
  import opened Wrappers

  /** One examined slot pair of one round: the round number, the slot index i and
      the teams in slot i ("first") and in slot M-1-i ("second"). */
  datatype Meet<T> = Meet(round: nat, slot: nat, first: T, second: T)

  /** No element occurs twice. */
  ghost predicate Distinct<T>(s: seq<T>) {
    forall i, j :: 0 <= i < j < |s| ==> s[i] != s[j]
  }

  lemma DistinctIndex<T>(s: seq<T>, i: nat, j: nat)
    requires Distinct(s) && i < |s| && j < |s| && s[i] == s[j]
    ensures i == j
  {
  }

  /** The working array: every team in a slot of its own, plus one bye when the
      number of teams is odd, so that the length is even. */
  function Pad<T>(teams: seq<T>): (start: seq<Option<T>>)
    ensures |start| % 2 == 0 && |teams| <= |start| <= |teams| + 1
    ensures forall k :: 0 <= k < |teams| ==> start[k] == Some(teams[k])
    ensures |start| == |teams| + 1 <==> |teams| % 2 == 1
    ensures |start| == |teams| + 1 ==> start[|teams|] == None
  {
    var slots := seq(|teams|, k requires 0 <= k < |teams| => Some(teams[k]));
    if |teams| % 2 == 0 then slots else slots + [None]
  }

  /** Padding keeps distinct teams distinct, with the bye (if any) apart from all of them. */
  lemma PadDistinct<T>(teams: seq<T>)
    requires Distinct(teams)
    ensures Distinct(Pad(teams))
  {
    var start := Pad(teams);
    forall i, j | 0 <= i < j < |start| ensures start[i] != start[j] {
      if j < |teams| { assert teams[i] != teams[j]; }
    }
  }

  /** One rotation step: slot 0 stays, the last slot moves to slot 1 and the
      slots in between move up by one; the array stays a permutation of itself. */
  function Rotate<T>(s: seq<T>): (r: seq<T>)
    requires |s| >= 2
    ensures |r| == |s| && r[0] == s[0] && r[1] == s[|s| - 1]
  {
    [s[0], s[|s| - 1]] + s[1..|s| - 1]
  }

  /** The slots between slot 1 and the end each move up by one place. */
  lemma RotateShifts<T>(s: seq<T>, j: nat)
    requires 2 <= j < |s|
    ensures Rotate(s)[j] == s[j - 1]
  {
  }

  /** A rotation step only reorders the working array. */
  lemma RotatePermutes<T>(s: seq<T>)
    requires |s| >= 2
    ensures multiset(Rotate(s)) == multiset(s)
  {
    assert s == [s[0]] + s[1..|s| - 1] + [s[|s| - 1]];
    assert Rotate(s) == [s[0]] + [s[|s| - 1]] + s[1..|s| - 1];
  }

  /** The working array after r rounds, each followed by one rotation. */
  function RotateN<T>(s: seq<T>, r: nat): (t: seq<T>)
    requires |s| >= 2
    ensures |t| == |s| && t[0] == s[0]
  {
    if r == 0 then s else Rotate(RotateN(s, r - 1))
  }

  /** The slot that slot j's element came from in one rotation (K = last slot). */
  function Back(K: nat, j: nat): (i: nat)
    requires 1 <= K && j <= K
    ensures i <= K
  {
    if j == 0 then 0 else if j == 1 then K else j - 1
  }

  /** After r rotations, slot j holds what was at index Origin(K, r, j) at the start. */
  function Origin(K: nat, r: nat, j: nat): (o: nat)
    requires 1 <= K && j <= K
    ensures o <= K
  {
    if r == 0 then j else Origin(K, r - 1, Back(K, j))
  }

  /** Closed form of Origin within the first K rounds. */
  lemma {:induction false} OriginClosed(K: nat, r: nat, j: nat)
    requires 1 <= K && r <= K && j <= K
    ensures Origin(K, r, j) == if j == 0 then 0 else if j > r then j - r else j - r + K
  {
    if r > 0 {
      OriginClosed(K, r - 1, Back(K, j));
    }
  }

  /** After r rotations (r <= K), the element that started at index p sits in slot Position(K, r, p). */
  function Position(K: nat, r: nat, p: nat): (j: nat)
    requires 1 <= K && r <= K && p <= K
    ensures j <= K
  {
    if p == 0 then 0 else if p + r <= K then p + r else p + r - K
  }

  /** The slot Position names holds p. */
  lemma PositionOrigin(K: nat, r: nat, p: nat)
    requires 1 <= K && r <= K && p <= K
    ensures Origin(K, r, Position(K, r, p)) == p
  {
    OriginClosed(K, r, Position(K, r, p));
  }

  /** Origin and Position are inverse: a slot holds index p exactly when it is p's position. */
  lemma OriginIs(K: nat, r: nat, j: nat, p: nat)
    requires 1 <= K && r <= K && j <= K && p <= K
    ensures Origin(K, r, j) == p <==> j == Position(K, r, p)
  {
    OriginClosed(K, r, j);
  }

  /** Closed form of the rotation: slot j of the working array after r rounds. */
  lemma {:induction false} RotateNAt<T>(s: seq<T>, r: nat, j: nat)
    requires |s| >= 2 && r < |s| && j < |s|
    ensures RotateN(s, r)[j] == s[Origin(|s| - 1, r, j)]
  {
    if r > 0 {
      var K := |s| - 1;
      var t := RotateN(s, r - 1);
      assert RotateN(s, r) == Rotate(t);
      if j == 0 {
        assert Rotate(t)[0] == t[0];
        OriginClosed(K, r, 0);
        OriginClosed(K, r - 1, 0);
      } else if j == 1 {
        RotateNAt(s, r - 1, K);
        assert Rotate(t)[1] == t[K];
      } else {
        RotateNAt(s, r - 1, j - 1);
        RotateShifts(t, j);
      }
    }
  }

  /** The one round (0 <= r < K) in which the elements that started at p and at q
      stand in two slots whose indices add up to K, i.e. in one slot pair (i, K - i). */
  function MeetRound(K: nat, p: nat, q: nat): (r: nat)
    requires K % 2 == 1 && p <= K && q <= K && p != q
    ensures r < K
  {
    var lo := if p < q then p else q;
    var hi := if p < q then q else p;
    if lo == 0 then K - hi
    else if (lo + hi) % 2 == 0 then K - (lo + hi) / 2
    else if lo + hi <= K then (K - lo - hi) / 2
    else (3 * K - lo - hi) / 2
  }

  /** The rotation arithmetic behind the circle method: two distinct elements stand in
      complementary slots (j + j' == K) in round r exactly when r is their MeetRound. */
  lemma SlotSum(K: nat, r: nat, p: nat, q: nat)
    requires K % 2 == 1 && r < K && p <= K && q <= K && p != q
    ensures Position(K, r, p) + Position(K, r, q) == K <==> r == MeetRound(K, p, q)
  {
    if p < q {
      if p == 0 { SlotSumWithFixed(K, r, q); } else { SlotSumMoving(K, r, p, q); }
    } else {
      if q == 0 { SlotSumWithFixed(K, r, p); } else { SlotSumMoving(K, r, q, p); }
    }
  }

  /** SlotSum when one of the two is the element in the fixed slot 0. */
  lemma SlotSumWithFixed(K: nat, r: nat, q: nat)
    requires K % 2 == 1 && r < K && 0 < q <= K
    ensures Position(K, r, 0) + Position(K, r, q) == K <==> r == MeetRound(K, 0, q)
  {
  }

  /** SlotSum for two elements of the rotating slots, lo < hi. */
  lemma SlotSumMoving(K: nat, r: nat, lo: nat, hi: nat)
    requires K % 2 == 1 && r < K && 0 < lo < hi <= K
    ensures Position(K, r, lo) + Position(K, r, hi) == K <==> r == MeetRound(K, lo, hi)
  {
  }

  /** The lower index i of the slot pair (i, K - i) holding p and q in their MeetRound. */
  function MeetSlot(K: nat, p: nat, q: nat): (i: nat)
    requires K % 2 == 1 && p <= K && q <= K && p != q
    ensures 2 * i < K
  {
    var r := MeetRound(K, p, q);
    SlotSum(K, r, p, q);
    var jp := Position(K, r, p);
    var jq := Position(K, r, q);
    if jp < jq then jp else jq
  }

  /** In round r the slot pair (i, K - i) holds the elements that started at p and q. */
  ghost predicate PairAt(K: nat, r: nat, i: nat, p: nat, q: nat)
    requires r <= K && 2 * i < K
  {
    (Origin(K, r, i) == p && Origin(K, r, K - i) == q) || (Origin(K, r, i) == q && Origin(K, r, K - i) == p)
  }

  /** Every pair of distinct elements is held by exactly one slot pair of exactly one
      of the rounds 0 .. K-1: the one named by MeetRound and MeetSlot. */
  lemma MeetUnique(K: nat, r: nat, i: nat, p: nat, q: nat)
    requires K % 2 == 1 && r < K && 2 * i < K && p <= K && q <= K && p != q
    ensures PairAt(K, r, i, p, q) <==> r == MeetRound(K, p, q) && i == MeetSlot(K, p, q)
  {
    SlotSum(K, r, p, q);
    OriginIs(K, r, i, p);
    OriginIs(K, r, i, q);
    OriginIs(K, r, K - i, p);
    OriginIs(K, r, K - i, q);
  }

  /** Two slot pairs holding the same two elements are the same slot pair of the same round. */
  lemma PairAtUnique(K: nat, r1: nat, i1: nat, r2: nat, i2: nat, p: nat, q: nat)
    requires K % 2 == 1 && r1 < K && r2 < K && 2 * i1 < K && 2 * i2 < K && p <= K && q <= K && p != q
    requires PairAt(K, r1, i1, p, q) && PairAt(K, r2, i2, p, q)
    ensures r1 == r2 && i1 == i2
  {
    MeetUnique(K, r1, i1, p, q);
    MeetUnique(K, r2, i2, p, q);
  }

  /** The slot pair named by MeetRound and MeetSlot holds p and q. */
  lemma MeetPairAt(K: nat, p: nat, q: nat)
    requires K % 2 == 1 && p <= K && q <= K && p != q
    ensures MeetRound(K, p, q) < K && 2 * MeetSlot(K, p, q) < K
    ensures PairAt(K, MeetRound(K, p, q), MeetSlot(K, p, q), p, q)
  {
    MeetUnique(K, MeetRound(K, p, q), MeetSlot(K, p, q), p, q);
  }

  /** The first n slot pairs (i, |slots|-1-i), i = 0 .. n-1, of one round, in
      ascending i, skipping every pair that holds the bye. */
  function RoundMeets<T>(slots: seq<Option<T>>, round: nat, n: nat): (ms: seq<Meet<T>>)
    requires 2 * n <= |slots|
    ensures |ms| <= n
  {
    if n == 0 then []
    else
      var i := n - 1;
      var first, second := slots[i], slots[|slots| - 1 - i];
      RoundMeets(slots, round, i) + if first.Some? && second.Some? then [Meet(round, i, first.value, second.value)] else []
  }

  /** Rounds 0 .. rounds-1 of the circle method from the working array start, m slot
      pairs examined per round and one rotation after each round. */
  function Meets<T>(start: seq<Option<T>>, rounds: nat, m: nat): seq<Meet<T>>
    requires |start| >= 2 && 2 * m <= |start|
  {
    if rounds == 0 then []
    else Meets(start, rounds - 1, m) + RoundMeets(RotateN(start, rounds - 1), rounds - 1, m)
  }

  /** A meet of one of the first rounds rounds at one of the first m slot pairs, whose
      two teams are what the closed form of the rotation puts in its two slots. */
  ghost predicate Placed<T>(start: seq<Option<T>>, mt: Meet<T>, rounds: nat, m: nat) {
    && |start| >= 2 && rounds <= |start| - 1 && 2 * m <= |start|
    && mt.round < rounds && mt.slot < m
    && start[Origin(|start| - 1, mt.round, mt.slot)] == Some(mt.first)
    && start[Origin(|start| - 1, mt.round, |start| - 1 - mt.slot)] == Some(mt.second)
  }

  /** In round r (r < |start|), slot pair i holds two teams and no bye. */
  ghost predicate ByeFree<T>(start: seq<Option<T>>, r: nat, i: nat) {
    && |start| >= 2 && r < |start| && 2 * i < |start|
    && start[Origin(|start| - 1, r, i)].Some? && start[Origin(|start| - 1, r, |start| - 1 - i)].Some?
  }

  /** Emission order: round by round, and by ascending slot index within a round. */
  ghost predicate Before<T>(a: Meet<T>, b: Meet<T>) {
    a.round < b.round || (a.round == b.round && a.slot < b.slot)
  }

  /** A meet of round round at one of its first n slot pairs, holding the teams of those two slots. */
  ghost predicate RoundPlaced<T>(slots: seq<Option<T>>, mt: Meet<T>, round: nat, n: nat) {
    && 2 * n <= |slots| && mt.round == round && mt.slot < n
    && slots[mt.slot] == Some(mt.first) && slots[|slots| - 1 - mt.slot] == Some(mt.second)
  }

  lemma {:induction false} RoundMeetsShape<T>(slots: seq<Option<T>>, round: nat, n: nat)
    requires 2 * n <= |slots|
    ensures forall k :: 0 <= k < |RoundMeets(slots, round, n)| ==> RoundPlaced(slots, RoundMeets(slots, round, n)[k], round, n)
    ensures forall k1, k2 :: 0 <= k1 < k2 < |RoundMeets(slots, round, n)| ==>
              RoundMeets(slots, round, n)[k1].slot < RoundMeets(slots, round, n)[k2].slot
  {
    if n > 0 {
      RoundMeetsShape(slots, round, n - 1);
      var ms := RoundMeets(slots, round, n);
      var prefix := RoundMeets(slots, round, n - 1);
      assert ms[..|prefix|] == prefix;
    }
  }

  /** Meets after one more round: the earlier rounds, then the new round. */
  lemma MeetsUnfold<T>(start: seq<Option<T>>, rounds: nat, m: nat)
    requires |start| >= 2 && 2 * m <= |start| && rounds > 0
    ensures Meets(start, rounds, m) == Meets(start, rounds - 1, m) + RoundMeets(RotateN(start, rounds - 1), rounds - 1, m)
  {
  }

  /** The number of meets after one more round. */
  lemma MeetsLengthUnfold<T>(start: seq<Option<T>>, rounds: nat, m: nat)
    requires |start| >= 2 && 2 * m <= |start| && rounds > 0
    ensures |Meets(start, rounds, m)| == |Meets(start, rounds - 1, m)| + |RoundMeets(RotateN(start, rounds - 1), rounds - 1, m)|
  {
  }

  /** Placed among fewer rounds is Placed among more. */
  lemma PlacedLater<T>(start: seq<Option<T>>, mt: Meet<T>, r0: nat, rounds: nat, m: nat)
    requires Placed(start, mt, r0, m) && r0 <= rounds <= |start| - 1
    ensures Placed(start, mt, rounds, m)
  {
  }

  /** A meet emitted in round r0 is Placed, by the closed form of the rotation. */
  lemma {:induction false} RoundPlacedIsPlaced<T>(start: seq<Option<T>>, r0: nat, m: nat, mt: Meet<T>)
    requires |start| >= 2 && r0 < |start| - 1 && 2 * m <= |start|
    requires RoundPlaced(RotateN(start, r0), mt, r0, m)
    ensures Placed(start, mt, r0 + 1, m)
  {
    RotateNAt(start, r0, mt.slot);
    RotateNAt(start, r0, |start| - 1 - mt.slot);
  }

  /** Indexing into a concatenation. */
  lemma AppendAt<T>(a: seq<T>, b: seq<T>, k: nat)
    requires k < |a| + |b|
    ensures (a + b)[k] == if k < |a| then a[k] else b[k - |a|]
  {
  }

  /** Every meet of the schedule is Placed: its round, its slot pair and its two
      teams agree with the closed form of the rotation. */
  lemma {:induction false} MeetsPlaced<T>(start: seq<Option<T>>, rounds: nat, m: nat)
    requires |start| >= 2 && rounds <= |start| - 1 && 2 * m <= |start|
    ensures forall k :: 0 <= k < |Meets(start, rounds, m)| ==> Placed(start, Meets(start, rounds, m)[k], rounds, m)
  {
    if rounds > 0 {
      var r0 := rounds - 1;
      MeetsPlaced(start, r0, m);
      var slots := RotateN(start, r0);
      RoundMeetsShape(slots, r0, m);
      var prefix: seq<Meet<T>> := Meets(start, r0, m);
      var last: seq<Meet<T>> := RoundMeets(slots, r0, m);
      forall k | 0 <= k < |prefix + last| ensures Placed(start, (prefix + last)[k], rounds, m) {
        AppendAt(prefix, last, k);
        if k < |prefix| {
          PlacedLater(start, prefix[k], r0, rounds, m);
        } else {
          RoundPlacedIsPlaced(start, r0, m, last[k - |prefix|]);
        }
      }
      MeetsUnfold(start, rounds, m);
    }
  }

  /** Every meet of the first rounds rounds has a round number below rounds. */
  lemma {:induction false} MeetsRounds<T>(start: seq<Option<T>>, rounds: nat, m: nat)
    requires |start| >= 2 && 2 * m <= |start|
    ensures forall k :: 0 <= k < |Meets(start, rounds, m)| ==> Meets(start, rounds, m)[k].round < rounds
  {
    if rounds > 0 {
      var r0 := rounds - 1;
      MeetsRounds(start, r0, m);
      var slots := RotateN(start, r0);
      RoundMeetsShape(slots, r0, m);
      var prefix: seq<Meet<T>> := Meets(start, r0, m);
      var last: seq<Meet<T>> := RoundMeets(slots, r0, m);
      forall k | 0 <= k < |prefix + last| ensures (prefix + last)[k].round < rounds {
        AppendAt(prefix, last, k);
        if k >= |prefix| {
          assert RoundPlaced(slots, last[k - |prefix|], r0, m);
        }
      }
      MeetsUnfold(start, rounds, m);
    }
  }

  /** The schedule is emitted round by round, by ascending slot pair within a round. */
  lemma {:induction false} MeetsOrdered<T>(start: seq<Option<T>>, rounds: nat, m: nat)
    requires |start| >= 2 && 2 * m <= |start|
    ensures forall k1, k2 :: 0 <= k1 < k2 < |Meets(start, rounds, m)| ==>
              Before(Meets(start, rounds, m)[k1], Meets(start, rounds, m)[k2])
  {
    if rounds > 0 {
      var r0 := rounds - 1;
      MeetsOrdered(start, r0, m);
      MeetsRounds(start, r0, m);
      var slots := RotateN(start, r0);
      RoundMeetsShape(slots, r0, m);
      var prefix: seq<Meet<T>> := Meets(start, r0, m);
      var last: seq<Meet<T>> := RoundMeets(slots, r0, m);
      forall k1, k2 | 0 <= k1 < k2 < |prefix + last| ensures Before((prefix + last)[k1], (prefix + last)[k2]) {
        AppendAt(prefix, last, k1);
        AppendAt(prefix, last, k2);
        if k2 >= |prefix| {
          assert RoundPlaced(slots, last[k2 - |prefix|], r0, m);
          if k1 >= |prefix| {
            assert RoundPlaced(slots, last[k1 - |prefix|], r0, m);
          }
        }
      }
      MeetsUnfold(start, rounds, m);
    }
  }

  /** The meet of slot pair i of round r, by the closed form of the rotation. */
  function MeetOf<T>(start: seq<Option<T>>, r: nat, i: nat): Meet<T>
    requires ByeFree(start, r, i)
  {
    var K := |start| - 1;
    Meet(r, i, start[Origin(K, r, i)].value, start[Origin(K, r, K - i)].value)
  }

  /** A slot pair i < n of a round that holds no bye is emitted in that round. */
  lemma {:induction false} RoundMeetsHas<T>(slots: seq<Option<T>>, round: nat, n: nat, i: nat)
    requires 2 * n <= |slots| && i < n && slots[i].Some? && slots[|slots| - 1 - i].Some?
    ensures Meet(round, i, slots[i].value, slots[|slots| - 1 - i].value) in RoundMeets(slots, round, n)
  {
    if i < n - 1 {
      RoundMeetsHas(slots, round, n - 1, i);
    }
  }

  /** In the round just played, bye-free slot pair i is emitted. */
  lemma RoundHas<T>(start: seq<Option<T>>, r: nat, m: nat, i: nat)
    requires |start| >= 2 && r < |start| - 1 && 2 * m <= |start| && i < m && ByeFree(start, r, i)
    ensures MeetOf(start, r, i) in RoundMeets(RotateN(start, r), r, m)
  {
    var K := |start| - 1;
    var slots := RotateN(start, r);
    RotateNAt(start, r, i);
    RotateNAt(start, r, K - i);
    RoundMeetsHas(slots, r, m, i);
  }

  /** Slot pair i < m of a played round r, holding no bye, is emitted. */
  lemma {:induction false} MeetsHas<T>(start: seq<Option<T>>, rounds: nat, m: nat, r: nat, i: nat)
    requires |start| >= 2 && rounds <= |start| - 1 && 2 * m <= |start|
    requires r < rounds && i < m && ByeFree(start, r, i)
    ensures MeetOf(start, r, i) in Meets(start, rounds, m)
  {
    var prefix: seq<Meet<T>> := Meets(start, rounds - 1, m);
    var last: seq<Meet<T>> := RoundMeets(RotateN(start, rounds - 1), rounds - 1, m);
    var x := MeetOf(start, r, i);
    if r < rounds - 1 {
      MeetsHas(start, rounds - 1, m, r, i);
      assert x in prefix;
    } else {
      RoundHas(start, r, m, i);
      assert x in last;
    }
    assert x in prefix + last;
  }
}
