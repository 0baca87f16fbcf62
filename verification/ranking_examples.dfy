/** Worked examples of the ranking used by the month close (app/api/cron/close-month/route.ts). */
module RankingExamples {
  import opened Ranking

  /** The worked example of a stable ranking: three participants with totals 30, 10
      and 30 rank as first, third, second; the tie at 30 keeps input order. */
  lemma RankingExample(a: Standing, b: Standing, c: Standing)
    requires a.total == 30.0 && b.total == 10.0 && c.total == 30.0
    ensures Rank([a, b, c]) == [RankEntry(a.participantId, 30.0, 1), RankEntry(c.participantId, 30.0, 2),
                                RankEntry(b.participantId, 10.0, 3)]
  {
    RankedStandingsExample(a, b, c);
    RankingOfThree(Rank([a, b, c]), a, c, b);
  }

  /** The same three standings leave the ranking in the order a, c, b. */
  lemma RankedStandingsExample(a: Standing, b: Standing, c: Standing)
    requires a.total == 30.0 && b.total == 10.0 && c.total == 30.0
    ensures Unplaced(Rank([a, b, c])) == [a, c, b]
  {
    SortExample(a, b, c);
  }

  /** Three ranking lines numbered 1..3 are fixed by the standings they carry. */
  lemma RankingOfThree(r: seq<RankEntry>, s0: Standing, s1: Standing, s2: Standing)
    requires |r| == 3
    requires forall i :: 0 <= i < |r| ==> r[i].position == i + 1
    requires Unplaced(r) == [s0, s1, s2]
    ensures r == [RankEntry(s0.participantId, s0.total, 1), RankEntry(s1.participantId, s1.total, 2),
                  RankEntry(s2.participantId, s2.total, 3)]
  {
    var u := Unplaced(r);
    assert u[0] == s0 && u[1] == s1 && u[2] == s2;
  }

  /** Sorting the three standings by total, highest first and ties in input order. */
  lemma SortExample(a: Standing, b: Standing, c: Standing)
    requires a.total == 30.0 && b.total == 10.0 && c.total == 30.0
    ensures SortDesc([a, b, c], StandingTotal) == [a, c, b]
  {
    SortPairExample(b, c);
    assert [a, b, c][1..] == [b, c];
    assert InsertDesc(a, [c, b], StandingTotal) == [a, c, b];
  }

  /** A lower total followed by a higher one swaps places. */
  lemma SortPairExample(b: Standing, c: Standing)
    requires b.total == 10.0 && c.total == 30.0
    ensures SortDesc([b, c], StandingTotal) == [c, b]
  {
    assert [b, c][1..] == [c];
    assert [c][1..] == [];
    assert SortDesc([c], StandingTotal) == [c];
    assert InsertDesc(b, [c], StandingTotal) == [c] + InsertDesc(b, [], StandingTotal);
  }
}
