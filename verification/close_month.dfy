/** app/api/cron/close-month/route.ts: the scheduled month close. It checks the
    cron bearer token, works out the month that just ended, ranks every participant
    by what it spent and writes the podium and shame trophies for that month. */
module CloseMonth {
  import opened Common
  import opened Records
  import opened Ranking
  import Constants

  /** The header value the handler compares against: the template literal
      "Bearer " followed by the secret, built by string interpolation, which spells an
      unset secret "undefined". */
  function ExpectedAuthorization(cronSecret: Option<string>): string
  {
    "Bearer " + cronSecret.GetOr("undefined")
  }

  /** The request's `authorization` header (None when absent) opens the handler. */
  predicate Authorized(authorization: Option<string>, cronSecret: Option<string>)
  {
    authorization == Some(ExpectedAuthorization(cronSecret))
  }

  /** With the secret set, exactly one header value is accepted. */
  lemma OnlyTheBearerSecretAuthorizes(authorization: Option<string>, secret: string)
    ensures Authorized(authorization, Some(secret)) <==> authorization == Some("Bearer " + secret)
  {
  }

  /** With the secret unset the comparison is against the literal text
      "Bearer undefined", so that header is accepted and every other one refused. */
  lemma UnsetSecretAcceptsLiteralUndefined(authorization: Option<string>)
    ensures Authorized(authorization, None) <==> authorization == Some("Bearer undefined")
  {
    assert ExpectedAuthorization(None) == "Bearer undefined";
  }

  /** The month that just ended, given `Date.getMonth()` (0 for January) and the
      full year: January closes December of the previous year. */
  function PreviousMonth(month0: int, year: int): (r: (int, int))
    requires 0 <= month0 <= 11
    ensures 1 <= r.0 <= 12
    ensures month0 == 0 ==> r == (12, year - 1)
    // the current 1-based month is month0 + 1, so month0 is the one before it
    ensures month0 != 0 ==> r == (month0, year)
  {
    if month0 == 0 then (12, year - 1) else (month0, year)
  }

  /** The 1-based month that follows `month` of `year`. */
  function NextMonth(month: int, year: int): (r: (int, int))
    requires 1 <= month <= 12
    ensures 1 <= r.0 <= 12
  {
    if month == 12 then (1, year + 1) else (month + 1, year)
  }

  /** The closed month is the one immediately before the current one, for every
      current month. */
  lemma PreviousMonthPrecedesNow(month0: int, year: int)
    requires 0 <= month0 <= 11
    ensures var (m, y) := PreviousMonth(month0, year);
            NextMonth(m, y) == (month0 + 1, year)
  {
  }

  function Ids(participants: seq<ParticipantRow>): (r: seq<int>)
    ensures |r| == |participants|
    ensures forall i :: 0 <= i < |r| ==> r[i] == participants[i].id
  {
    seq(|participants|, i requires 0 <= i < |participants| => participants[i].id)
  }

  /** The ranking and trophy rows of a month close over the decoded reads. */
  datatype Close = Close(rankings: seq<RankEntry>, written: seq<TrophyRow>)

  /** Totals, stable sort, positions and trophies for the participants and
      purchases read from the database (lines 43-94 of the handler). */
  function CloseOver(participants: seq<ParticipantRow>, purchases: seq<Purchase>, month: int, year: int): (r: Close)
    // the ranking: one line per participant, largest total first, numbered 1..n
    ensures |r.rankings| == |participants|
    ensures forall i :: 0 <= i < |r.rankings| ==> r.rankings[i].position == i + 1
    ensures forall i, j :: 0 <= i < j < |r.rankings| ==> r.rankings[i].total >= r.rankings[j].total
    ensures forall p :: p in participants ==> exists e :: e in r.rankings && e.participantId == p.id
    ensures forall e :: e in r.rankings ==> e.total == TotalFor(e.participantId, purchases)
    // a permutation of the participants' standings, equal totals in participant order
    ensures multiset(Unplaced(r.rankings)) == multiset(Standings(Ids(participants), purchases))
    ensures forall v :: WithKey(Unplaced(r.rankings), StandingTotal, v)
                        == WithKey(Standings(Ids(participants), purchases), StandingTotal, v)
    // the trophies: podium positions 1..k (k <= 3) for lines that spent, then shame iff n >= 2
    ensures WellFormedClose(r.rankings, r.written)
    ensures forall t :: t in r.written ==> t.month == month && t.year == year
  {
    var rankings := Rank(Standings(Ids(participants), purchases));
    RankingOfParticipants(participants, purchases);
    ClosedMonthIsWellFormed(rankings, month, year);
    Close(rankings, MonthTrophies(rankings, month, year))
  }

  /** The ranking of the participants read holds each of them once, with the true
      total, equal totals in participant order. */
  lemma RankingOfParticipants(participants: seq<ParticipantRow>, purchases: seq<Purchase>)
    ensures var rankings := Rank(Standings(Ids(participants), purchases));
            && (forall p :: p in participants ==> exists e :: e in rankings && e.participantId == p.id)
            && (forall e :: e in rankings ==> e.total == TotalFor(e.participantId, purchases))
            && multiset(Unplaced(rankings)) == multiset(Standings(Ids(participants), purchases))
            && forall v :: WithKey(Unplaced(rankings), StandingTotal, v)
                           == WithKey(Standings(Ids(participants), purchases), StandingTotal, v)
  {
    EveryParticipantIsRanked(participants, purchases);
    RankedTotalsAreTrue(Ids(participants), purchases);
    RankIsStablePermutation(Standings(Ids(participants), purchases));
  }

  /** Every participant read has a line in the ranking. */
  lemma EveryParticipantIsRanked(participants: seq<ParticipantRow>, purchases: seq<Purchase>)
    ensures forall p :: p in participants ==>
              exists e :: e in Rank(Standings(Ids(participants), purchases)) && e.participantId == p.id
  {
    var ids := Ids(participants);
    EveryIdIsRanked(ids, purchases);
    assert forall p :: p in participants ==> p.id in ids;
  }

  /** What the handler answers. `Closed` carries the ranking it returned and the
      trophy rows it posted, in posting order. */
  datatype CronReply =
    | Unauthorized                // 401
    | MissingCredentials          // 500, database not configured
    | Failed                      // 500, a read did not yield a list
    | Closed(month: int, year: int, close: Close)

  /** `GET /api/cron/close-month`. `month0`/`year` are the clock's current month
      (0-based) and year; `configured` says whether the database URL and key are set;
      `readThrew` says whether one of the two reads threw (the request itself, or
      the parsing of a body that is not JSON); `participants` and `purchases` are
      the decoded bodies of the two reads, None when the body is not a list (an
      error answer). Both reads sit inside the handler's try, so a throw answers
      500 whatever was read. A purchase body that is not a list is only touched
      while computing totals, so with no participants it goes unnoticed. */
  function CloseMonth(
    authorization: Option<string>, cronSecret: Option<string>,
    month0: int, year: int, configured: bool, readThrew: bool,
    participants: Option<seq<ParticipantRow>>, purchases: Option<seq<Purchase>>): (r: CronReply)
    requires 0 <= month0 <= 11
    // the guard comes first: no reads and no writes without the bearer secret
    ensures !Authorized(authorization, cronSecret) ==> r == Unauthorized
    ensures Authorized(authorization, cronSecret) && !configured ==> r == MissingCredentials
    ensures r.Failed? <==>
              Authorized(authorization, cronSecret) && configured
              && (readThrew || participants.None? || (purchases.None? && |participants.value| > 0))
    // every other authorized, configured run closes the month
    ensures r.Closed? <==>
              Authorized(authorization, cronSecret) && configured && !readThrew
              && participants.Some? && (purchases.Some? || |participants.value| == 0)
    ensures r.Closed? ==> (r.month, r.year) == PreviousMonth(month0, year) && 1 <= r.month <= 12
    ensures r.Closed? ==> participants.Some? && |r.close.rankings| == |participants.value|
    ensures r.Closed? ==> WellFormedClose(r.close.rankings, r.close.written)
    // the close is computed from exactly the rows read (no purchases when none was read)
    ensures r.Closed? ==> r.close == CloseOver(participants.value, purchases.GetOr([]), r.month, r.year)
  {
    if !Authorized(authorization, cronSecret) then Unauthorized
    else
      var (month, prevYear) := PreviousMonth(month0, year);
      if !configured then MissingCredentials
      else if readThrew || participants.None? then Failed
      else if |participants.value| > 0 && purchases.None? then Failed
      else Closed(month, prevYear, CloseOver(participants.value, purchases.GetOr([]), month, prevYear))
  }

  /** The trophies `written` for the ranking `rankings` are: podium positions
      1, 2, ..., k for some k <= 3, one for each of the first three lines that spent
      something and carrying that line's participant and total, followed by exactly
      one shame trophy for the last line when there are two lines or more. Every
      position written can be drawn by the ranking view. */
  ghost predicate WellFormedClose(rankings: seq<RankEntry>, written: seq<TrophyRow>)
  {
    var shame := if |rankings| >= 2 then 1 else 0;
    && |written| >= shame
    && |written| - shame <= 3
    && |written| - shame <= |rankings|
    && (forall k :: 0 <= k < |written| - shame ==>
          written[k].position == k + 1 && written[k].totalSpent > 0.0
          && written[k].participantId == rankings[k].participantId
          && written[k].totalSpent == rankings[k].total)
    // no spending line among the first three is left without its trophy
    && (forall i :: 0 <= i < |rankings| && i < 3 && rankings[i].total > 0.0 ==> i < |written| - shame)
    && (shame == 1 ==> written[|written| - 1].position == ShamePosition
                       && written[|written| - 1].participantId == rankings[|rankings| - 1].participantId
                       && written[|written| - 1].totalSpent == rankings[|rankings| - 1].total)
    && (forall t :: t in written ==> Constants.TrophyIcon(t.position).Some?)
  }

  /** A ranking numbered 1..n and sorted largest first yields a well-formed close. */
  lemma ClosedMonthIsWellFormed(rankings: seq<RankEntry>, month: int, year: int)
    requires forall i :: 0 <= i < |rankings| ==> rankings[i].position == i + 1
    requires forall i, j :: 0 <= i < j < |rankings| ==> rankings[i].total >= rankings[j].total
    ensures WellFormedClose(rankings, MonthTrophies(rankings, month, year))
  {
    PodiumIsConsecutive(rankings, month, year);
    PodiumFollowsRanking(rankings, month, year);
    WrittenIsPodiumThenShame(rankings, month, year);
    WrittenPositionsHaveIcons(rankings, month, year);
  }

  /** The trophies written are the podium, then the shame trophy when there are two
      lines or more. */
  lemma WrittenIsPodiumThenShame(rankings: seq<RankEntry>, month: int, year: int)
    ensures var podium := PodiumTrophies(rankings, month, year);
            var written := MonthTrophies(rankings, month, year);
            var shame := if |rankings| >= 2 then 1 else 0;
            |written| == |podium| + shame && forall k :: 0 <= k < |podium| ==> written[k] == podium[k]
  {
    var podium := PodiumTrophies(rankings, month, year);
    var written := MonthTrophies(rankings, month, year);
    var shame := if |rankings| >= 2 then 1 else 0;
    assert written[..|written| - shame] == podium;
    forall k | 0 <= k < |podium| ensures written[k] == podium[k] {
      assert written[k] == written[..|written| - shame][k];
    }
  }

  /** Every trophy written has a position the ranking view can draw. */
  lemma WrittenPositionsHaveIcons(rankings: seq<RankEntry>, month: int, year: int)
    requires forall i :: 0 <= i < |rankings| ==> rankings[i].position == i + 1
    requires forall i, j :: 0 <= i < j < |rankings| ==> rankings[i].total >= rankings[j].total
    ensures forall t :: t in MonthTrophies(rankings, month, year) ==> Constants.TrophyIcon(t.position).Some?
  {
    var podium := PodiumTrophies(rankings, month, year);
    var written := MonthTrophies(rankings, month, year);
    PodiumIsConsecutive(rankings, month, year);
    WrittenIsPodiumThenShame(rankings, month, year);
    forall t | t in written ensures Constants.TrophyIcon(t.position).Some? {
      var k :| 0 <= k < |written| && written[k] == t;
      if k < |podium| {
        assert t == podium[k];
      }
    }
  }

  /** The k-th podium trophy of a ranking numbered 1..n belongs to its k-th line. */
  lemma PodiumFollowsRanking(rankings: seq<RankEntry>, month: int, year: int)
    requires forall i :: 0 <= i < |rankings| ==> rankings[i].position == i + 1
    requires forall i, j :: 0 <= i < j < |rankings| ==> rankings[i].total >= rankings[j].total
    ensures var podium := PodiumTrophies(rankings, month, year);
            |podium| <= |rankings|
            && (forall k :: 0 <= k < |podium| ==>
                  podium[k].participantId == rankings[k].participantId && podium[k].totalSpent == rankings[k].total)
            && (forall i :: 0 <= i < |rankings| && i < 3 && rankings[i].total > 0.0 ==> i < |podium|)
  {
    SpendersReachThePodium(rankings, month, year);
    PodiumLinesMatchRanking(rankings, month, year);
  }

  /** Each of the first three lines that spent has a podium trophy. */
  lemma SpendersReachThePodium(rankings: seq<RankEntry>, month: int, year: int)
    requires forall i :: 0 <= i < |rankings| ==> rankings[i].position == i + 1
    requires forall i, j :: 0 <= i < j < |rankings| ==> rankings[i].total >= rankings[j].total
    ensures forall i :: 0 <= i < |rankings| && i < 3 && rankings[i].total > 0.0 ==> i < |PodiumTrophies(rankings, month, year)|
  {
    var podium := PodiumTrophies(rankings, month, year);
    PodiumIsConsecutive(rankings, month, year);
    forall i | 0 <= i < |rankings| && i < 3 && rankings[i].total > 0.0 ensures i < |podium| {
      var k := Spenders(rankings[..i]);
      assert podium[k] == PodiumTrophy(rankings[i], month, year);
      assert podium[k].position == k + 1;
    }
  }

  /** The k-th podium trophy carries the k-th line's participant and total. */
  lemma PodiumLinesMatchRanking(rankings: seq<RankEntry>, month: int, year: int)
    requires forall i :: 0 <= i < |rankings| ==> rankings[i].position == i + 1
    requires forall i, j :: 0 <= i < j < |rankings| ==> rankings[i].total >= rankings[j].total
    ensures var podium := PodiumTrophies(rankings, month, year);
            forall k :: 0 <= k < |podium| ==>
              podium[k].participantId == rankings[k].participantId && podium[k].totalSpent == rankings[k].total
  {
    var podium := PodiumTrophies(rankings, month, year);
    PodiumIsConsecutive(rankings, month, year);
    forall k | 0 <= k < |podium|
      ensures podium[k].participantId == rankings[k].participantId && podium[k].totalSpent == rankings[k].total {
      assert podium[k] in podium;
      var i :| 0 <= i < Min(3, |rankings|) && rankings[i].total > 0.0 && podium[k] == PodiumTrophy(rankings[i], month, year);
    }
  }
}
