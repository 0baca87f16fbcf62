/** The ranking rules shared by the month close (app/api/cron/close-month/route.ts),
    the data handler's `buildParticipantsWithPurchases` and `PUT`
    (app/api/data/route.ts): a stable sort by spending total, largest first, and the
    trophies a closed month hands out.

    JavaScript's array sort is stable, so sorting by the difference of totals orders
    by total, largest first, and keeps equal totals in input order. */
module Ranking {
  import opened Common
  import opened Records

  /** `s` is ordered by `key`, largest first. */
  ghost predicate NonIncreasing<T>(s: seq<T>, key: T -> real)
  {
    forall i, j :: 0 <= i < j < |s| ==> key(s[i]) >= key(s[j])
  }

  /** The elements of `s` whose key is `v`, in order. A sort is stable exactly when
      it leaves this subsequence unchanged for every `v`. */
  function WithKey<T>(s: seq<T>, key: T -> real, v: real): seq<T>
  {
    if |s| == 0 then []
    else if key(s[0]) == v then [s[0]] + WithKey(s[1..], key, v)
    else WithKey(s[1..], key, v)
  }

  /** Places `x` in front of the first element whose key is not larger than its own. */
  function InsertDesc<T(==)>(x: T, s: seq<T>, key: T -> real): (r: seq<T>)
    ensures |r| == |s| + 1
    ensures multiset(r) == multiset(s) + multiset{x}
  {
    if |s| == 0 || key(x) >= key(s[0]) then [x] + s
    else
      assert s == [s[0]] + s[1..];
      [s[0]] + InsertDesc(x, s[1..], key)
  }

  /** Inserting into a sorted sequence keeps it sorted. */
  lemma {:induction false} InsertDescSorted<T>(x: T, s: seq<T>, key: T -> real)
    requires NonIncreasing(s, key)
    ensures NonIncreasing(InsertDesc(x, s, key), key)
  {
    if |s| == 0 || key(x) >= key(s[0]) {
    } else {
      var rest := InsertDesc(x, s[1..], key);
      InsertDescSorted(x, s[1..], key);
      forall j | 0 <= j < |rest| ensures key(s[0]) >= key(rest[j]) {
        assert rest[j] in multiset(rest);
        if rest[j] != x {
          assert rest[j] in multiset(s[1..]);
          var k :| 0 <= k < |s| - 1 && s[1..][k] == rest[j];
          assert s[k + 1] == rest[j];
        }
      }
      var r := [s[0]] + rest;
      assert forall j :: 1 <= j < |r| ==> r[j] == rest[j - 1];
    }
  }

  /** Stable sort by `key`, largest first (insertion sort). */
  function SortDesc<T(==)>(s: seq<T>, key: T -> real): (r: seq<T>)
    ensures |r| == |s|
    ensures multiset(r) == multiset(s)
    ensures NonIncreasing(r, key)
  {
    if |s| == 0 then []
    else
      assert s == [s[0]] + s[1..];
      var sorted := SortDesc(s[1..], key);
      InsertDescSorted(s[0], sorted, key);
      InsertDesc(s[0], sorted, key)
  }

  lemma {:induction false} InsertDescWithKey<T>(x: T, s: seq<T>, key: T -> real, v: real)
    ensures WithKey(InsertDesc(x, s, key), key, v)
            == if key(x) == v then [x] + WithKey(s, key, v) else WithKey(s, key, v)
  {
    if |s| == 0 || key(x) >= key(s[0]) {
      assert ([x] + s)[1..] == s;
    } else {
      var rest := InsertDesc(x, s[1..], key);
      assert ([s[0]] + rest)[1..] == rest;
      InsertDescWithKey(x, s[1..], key, v);
    }
  }

  /** The sort is stable: elements with equal keys keep their input order. */
  lemma {:induction false} SortDescStable<T>(s: seq<T>, key: T -> real, v: real)
    ensures WithKey(SortDesc(s, key), key, v) == WithKey(s, key, v)
  {
    if |s| > 0 {
      SortDescStable(s[1..], key, v);
      InsertDescWithKey(s[0], SortDesc(s[1..], key), key, v);
    }
  }

  /** Stability for every key value at once. */
  lemma SortDescStableAll<T>(s: seq<T>, key: T -> real)
    ensures forall v :: WithKey(SortDesc(s, key), key, v) == WithKey(s, key, v)
  {
    forall v ensures WithKey(SortDesc(s, key), key, v) == WithKey(s, key, v) {
      SortDescStable(s, key, v);
    }
  }

  /** One participant's line in a ranking: its id, its total and its 1-based place. */
  datatype RankEntry = RankEntry(participantId: int, total: real, position: int)

  /** A participant's spending before it is placed. */
  datatype Standing = Standing(participantId: int, total: real)

  function StandingTotal(s: Standing): real { s.total }

  /** The standings of the participants `ids`, in input order, each with the sum of
      its purchases. */
  function Standings(ids: seq<int>, purchases: seq<Purchase>): (r: seq<Standing>)
    ensures |r| == |ids|
    ensures forall i :: 0 <= i < |r| ==> r[i] == Standing(ids[i], TotalFor(ids[i], purchases))
  {
    seq(|ids|, i requires 0 <= i < |ids| => Standing(ids[i], TotalFor(ids[i], purchases)))
  }

  /** A ranking with its positions dropped. */
  function Unplaced(r: seq<RankEntry>): (u: seq<Standing>)
    ensures |u| == |r|
    ensures forall i :: 0 <= i < |r| ==> u[i] == Standing(r[i].participantId, r[i].total)
  {
    seq(|r|, i requires 0 <= i < |r| => Standing(r[i].participantId, r[i].total))
  }

  /** Sorts the standings, largest total first with ties in input order, and numbers
      them 1, 2, 3, ... in sorted order. */
  function Rank(standings: seq<Standing>): (r: seq<RankEntry>)
    ensures |r| == |standings|
    ensures Unplaced(r) == SortDesc(standings, StandingTotal)
    ensures forall i :: 0 <= i < |r| ==> r[i].position == i + 1
    ensures forall i, j :: 0 <= i < j < |r| ==> r[i].total >= r[j].total
  {
    var sorted := SortDesc(standings, StandingTotal);
    var r := seq(|sorted|, i requires 0 <= i < |sorted| => RankEntry(sorted[i].participantId, sorted[i].total, i + 1));
    assert Unplaced(r) == sorted;
    r
  }

  /** The ranking holds the standings, each exactly once, and equal totals keep
      their input order. */
  lemma RankIsStablePermutation(standings: seq<Standing>)
    ensures multiset(Unplaced(Rank(standings))) == multiset(standings)
    ensures forall v :: WithKey(Unplaced(Rank(standings)), StandingTotal, v) == WithKey(standings, StandingTotal, v)
  {
    forall v ensures WithKey(Unplaced(Rank(standings)), StandingTotal, v) == WithKey(standings, StandingTotal, v) {
      SortDescStable(standings, StandingTotal, v);
    }
  }

  /** Every ranking line carries the true total of its participant, and every
      participant has a line. */
  lemma RankTotalsAreSums(ids: seq<int>, purchases: seq<Purchase>)
    ensures var r := Rank(Standings(ids, purchases));
            (forall e :: e in r ==> e.total == TotalFor(e.participantId, purchases))
            && (forall id :: id in ids <==> exists e :: e in r && e.participantId == id)
  {
    RankedTotalsAreTrue(ids, purchases);
    EveryIdIsRanked(ids, purchases);
    RankedIdsAreRead(ids, purchases);
  }

  /** Each ranking line carries its participant's purchase sum. */
  lemma RankedTotalsAreTrue(ids: seq<int>, purchases: seq<Purchase>)
    ensures forall e :: e in Rank(Standings(ids, purchases)) ==> e.total == TotalFor(e.participantId, purchases)
  {
    var st := Standings(ids, purchases);
    var r := Rank(st);
    var u := Unplaced(r);
    RankIsStablePermutation(st);
    forall e | e in r ensures e.total == TotalFor(e.participantId, purchases) {
      var i :| 0 <= i < |r| && r[i] == e;
      assert u[i] in multiset(st);
    }
  }

  /** Every participant id has a ranking line. */
  lemma EveryIdIsRanked(ids: seq<int>, purchases: seq<Purchase>)
    ensures forall id :: id in ids ==> exists e :: e in Rank(Standings(ids, purchases)) && e.participantId == id
  {
    var st := Standings(ids, purchases);
    var r := Rank(st);
    var u := Unplaced(r);
    RankIsStablePermutation(st);
    forall id | id in ids ensures exists e :: e in r && e.participantId == id {
      var i :| 0 <= i < |ids| && ids[i] == id;
      assert st[i] in multiset(u);
      var j :| 0 <= j < |u| && u[j] == st[i];
      assert r[j] in r;
    }
  }

  /** Every ranking line belongs to one of the participant ids. */
  lemma RankedIdsAreRead(ids: seq<int>, purchases: seq<Purchase>)
    ensures forall e :: e in Rank(Standings(ids, purchases)) ==> e.participantId in ids
  {
    var st := Standings(ids, purchases);
    var r := Rank(st);
    var u := Unplaced(r);
    RankIsStablePermutation(st);
    forall e | e in r ensures e.participantId in ids {
      var i :| 0 <= i < |r| && r[i] == e;
      assert u[i] in multiset(st);
    }
  }

  /** The sign value of the shame trophy. */
  const ShamePosition: int := 5

  /** A trophy as written by a month close, before the store gives it an id. */
  datatype TrophyRow = TrophyRow(participantId: int, month: int, year: int, position: int, totalSpent: real)

  function Min(a: int, b: int): int { if a < b then a else b }

  /** The podium trophy for ranking line `e`. */
  function PodiumTrophy(e: RankEntry, month: int, year: int): TrophyRow
  {
    TrophyRow(e.participantId, month, year, e.position, e.total)
  }

  /** The number of lines of `s` with a positive total. */
  function Spenders(s: seq<RankEntry>): (n: nat)
    ensures n <= |s|
  {
    if |s| == 0 then 0 else (if s[0].total > 0.0 then 1 else 0) + Spenders(s[1..])
  }

  /** The podium: a trophy for each of the first three lines that spent something,
      at the line's own position, in ranking order. The trophy of line i comes
      after exactly the trophies of the spending lines before it, so the list has
      one entry per spending line among the first three and nothing else. */
  function PodiumTrophies(rankings: seq<RankEntry>, month: int, year: int): (r: seq<TrophyRow>)
    ensures |r| <= Min(3, |rankings|)
    ensures forall i :: 0 <= i < Min(3, |rankings|) && rankings[i].total > 0.0 ==>
              PodiumTrophy(rankings[i], month, year) in r
    ensures forall t :: t in r ==>
              exists i :: 0 <= i < Min(3, |rankings|) && rankings[i].total > 0.0 && t == PodiumTrophy(rankings[i], month, year)
    ensures |r| == Spenders(rankings[..Min(3, |rankings|)])
    ensures forall i :: 0 <= i < Min(3, |rankings|) && rankings[i].total > 0.0 ==>
              Spenders(rankings[..i]) < |r| && r[Spenders(rankings[..i])] == PodiumTrophy(rankings[i], month, year)
  {
    var top := rankings[..Min(3, |rankings|)];
    PodiumInOrder(top, month, year);
    assert forall i :: 0 <= i < |top| ==> top[..i] == rankings[..i] && top[i] == rankings[i];
    PodiumOf(top, month, year)
  }

  /** The trophy of spending line i of `s` sits at index Spenders(s[..i]) of the
      podium, which has one trophy per spending line. */
  lemma {:induction false} PodiumInOrder(s: seq<RankEntry>, month: int, year: int)
    ensures |PodiumOf(s, month, year)| == Spenders(s)
    ensures forall i :: 0 <= i < |s| && s[i].total > 0.0 ==>
              Spenders(s[..i]) < |PodiumOf(s, month, year)|
              && PodiumOf(s, month, year)[Spenders(s[..i])] == PodiumTrophy(s[i], month, year)
    decreases |s|
  {
    if |s| > 0 {
      var tail := s[1..];
      PodiumInOrder(tail, month, year);
      var rest := PodiumOf(tail, month, year);
      var b := if s[0].total > 0.0 then 1 else 0;
      var head := if s[0].total > 0.0 then [PodiumTrophy(s[0], month, year)] else [];
      assert PodiumOf(s, month, year) == head + rest;
      assert |head| == b;
      forall i | 0 <= i < |s| && s[i].total > 0.0
        ensures Spenders(s[..i]) < |PodiumOf(s, month, year)|
                && PodiumOf(s, month, year)[Spenders(s[..i])] == PodiumTrophy(s[i], month, year)
      {
        if i == 0 {
          assert s[..0] == [];
        } else {
          assert s[..i][0] == s[0] && s[..i][1..] == tail[..i - 1];
          assert Spenders(s[..i]) == b + Spenders(tail[..i - 1]);
          assert tail[i - 1] == s[i];
          assert (head + rest)[b + Spenders(tail[..i - 1])] == rest[Spenders(tail[..i - 1])];
        }
      }
    }
  }

  function PodiumOf(rankings: seq<RankEntry>, month: int, year: int): (r: seq<TrophyRow>)
    ensures |r| <= |rankings|
    ensures forall i :: 0 <= i < |rankings| && rankings[i].total > 0.0 ==> PodiumTrophy(rankings[i], month, year) in r
    ensures forall t :: t in r ==>
              exists i :: 0 <= i < |rankings| && rankings[i].total > 0.0 && t == PodiumTrophy(rankings[i], month, year)
  {
    if |rankings| == 0 then []
    else
      var rest := PodiumOf(rankings[1..], month, year);
      assert forall t :: t in rest ==>
               exists i :: 0 <= i < |rankings| && rankings[i].total > 0.0 && t == PodiumTrophy(rankings[i], month, year) by {
        forall t | t in rest
          ensures exists i :: 0 <= i < |rankings| && rankings[i].total > 0.0 && t == PodiumTrophy(rankings[i], month, year) {
          var k :| 0 <= k < |rankings| - 1 && rankings[1..][k].total > 0.0 && t == PodiumTrophy(rankings[1..][k], month, year);
          assert rankings[k + 1] == rankings[1..][k];
        }
      }
      assert forall i :: 1 <= i < |rankings| ==> rankings[i] == rankings[1..][i - 1];
      if rankings[0].total > 0.0 then [PodiumTrophy(rankings[0], month, year)] + rest else rest
  }

  /** The last line receives the shame trophy whenever there are two lines or
      more, whatever it spent. */
  function ShameTrophy(rankings: seq<RankEntry>, month: int, year: int): (r: Option<TrophyRow>)
    ensures r.Some? <==> |rankings| >= 2
    ensures r.Some? ==> var last := rankings[|rankings| - 1];
                        r.value == TrophyRow(last.participantId, month, year, ShamePosition, last.total)
  {
    if |rankings| > 1 then
      var last := rankings[|rankings| - 1];
      Some(TrophyRow(last.participantId, month, year, ShamePosition, last.total))
    else None
  }

  /** Every trophy a month close writes: the podium, then the shame trophy. */
  function MonthTrophies(rankings: seq<RankEntry>, month: int, year: int): (r: seq<TrophyRow>)
    ensures |r| <= 4
    ensures forall t :: t in r ==> t.month == month && t.year == year
    // nobody ranked: nothing written; one line: at most its podium trophy, never shame
    ensures |rankings| == 0 ==> r == []
    ensures |rankings| == 1 ==> (r == [] <==> rankings[0].total <= 0.0) && |r| <= 1
    ensures |rankings| == 1 && r != [] ==> r[0].position == rankings[0].position
    // fewer than two lines: exactly the podium
    ensures |rankings| <= 1 ==> r == PodiumTrophies(rankings, month, year)
    // two lines or more: the podium, and the last line's shame trophy at the end
    ensures |rankings| >= 2 ==>
              var last := rankings[|rankings| - 1];
              |r| >= 1 && r[|r| - 1] == TrophyRow(last.participantId, month, year, ShamePosition, last.total)
              && r[..|r| - 1] == PodiumTrophies(rankings, month, year)
  {
    var podium := PodiumTrophies(rankings, month, year);
    match ShameTrophy(rankings, month, year)
    case None =>
      assert |rankings| == 1 ==> (podium == [] <==> rankings[0].total <= 0.0) by {
        if |rankings| == 1 && rankings[0].total > 0.0 {
          assert PodiumTrophy(rankings[0], month, year) in podium;
        }
      }
      podium
    case Some(s) =>
      assert (podium + [s])[..|podium|] == podium;
      podium + [s]
  }

  /** With positions 1, 2, 3, ... on a ranking sorted largest first, the podium
      trophies are exactly positions 1 to k for some k <= 3: the lines that spent
      something come first, so no podium position is skipped. */
  lemma {:induction false} PodiumIsConsecutive(rankings: seq<RankEntry>, month: int, year: int)
    requires forall i :: 0 <= i < |rankings| ==> rankings[i].position == i + 1
    requires forall i, j :: 0 <= i < j < |rankings| ==> rankings[i].total >= rankings[j].total
    ensures var p := PodiumTrophies(rankings, month, year);
            |p| <= 3 && forall k :: 0 <= k < |p| ==> p[k].position == k + 1 && p[k].totalSpent > 0.0
  {
    var top := rankings[..Min(3, |rankings|)];
    assert forall i :: 0 <= i < |top| ==> top[i] == rankings[i];
    PodiumPrefix(top, month, year, 0);
    assert PodiumTrophies(rankings, month, year) == PodiumOf(top, month, year);
  }

  lemma {:induction false} PodiumPrefix(rankings: seq<RankEntry>, month: int, year: int, offset: int)
    requires forall i :: 0 <= i < |rankings| ==> rankings[i].position == offset + i + 1
    requires forall i, j :: 0 <= i < j < |rankings| ==> rankings[i].total >= rankings[j].total
    ensures forall k :: 0 <= k < |PodiumOf(rankings, month, year)| ==>
              PodiumOf(rankings, month, year)[k].position == offset + k + 1
              && PodiumOf(rankings, month, year)[k].totalSpent > 0.0
    decreases |rankings|
  {
    if |rankings| > 0 {
      var tail := rankings[1..];
      assert forall i :: 0 <= i < |tail| ==> tail[i] == rankings[i + 1];
      PodiumPrefix(tail, month, year, offset + 1);
      var rest := PodiumOf(tail, month, year);
      if rankings[0].total <= 0.0 {
        // every later line spent no more, so none of them earns a trophy
        NoPodiumWithoutSpending(tail, month, year);
      } else {
        var p := [PodiumTrophy(rankings[0], month, year)] + rest;
        assert PodiumOf(rankings, month, year) == p;
        forall k | 0 <= k < |p| ensures p[k].position == offset + k + 1 && p[k].totalSpent > 0.0 {
          if k > 0 {
            assert p[k] == rest[k - 1];
          }
        }
      }
    }
  }

  lemma {:induction false} NoPodiumWithoutSpending(rankings: seq<RankEntry>, month: int, year: int)
    requires forall i :: 0 <= i < |rankings| ==> rankings[i].total <= 0.0
    ensures PodiumOf(rankings, month, year) == []
    decreases |rankings|
  {
    if |rankings| > 0 {
      NoPodiumWithoutSpending(rankings[1..], month, year);
    }
  }
}
