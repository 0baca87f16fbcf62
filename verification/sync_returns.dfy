/** app/api/steam/sync-returns/route.ts: refund detection. A confirmed or pending
    purchase whose app id has left its owner's baseline `known_appids` is taken to
    be a game returned on Steam and is deleted. Participants without a baseline are
    never touched: nothing can be said about their returns yet.

    How each delete request ends is given by the oracles `purchaseDelete` and
    `pendingDelete`, indexed by row id. */
module SyncReturns {
  import opened Common
  import opened Records
  import SteamSync
  import Currency

  /** The columns the check selects from either purchase table. */
  datatype Row = Row(id: int, participantId: int, gameName: string, appid: Option<int>)

  function PurchaseRow(p: Purchase): Row
  {
    Row(p.id, p.participantId, p.gameName, p.gameAppid)
  }

  function PendingRowOf(p: PendingPurchase): Row
  {
    Row(p.id, p.participantId, p.gameName, Some(p.gameAppid))
  }

  function PurchaseRows(ps: seq<Purchase>): (r: seq<Row>)
    ensures |r| == |ps|
    ensures forall i :: 0 <= i < |r| ==> r[i] == PurchaseRow(ps[i])
  {
    seq(|ps|, i requires 0 <= i < |ps| => PurchaseRow(ps[i]))
  }

  function PendingRows(ps: seq<PendingPurchase>): (r: seq<Row>)
    ensures |r| == |ps|
    ensures forall i :: 0 <= i < |r| ==> r[i] == PendingRowOf(ps[i])
  {
    seq(|ps|, i requires 0 <= i < |ps| => PendingRowOf(ps[i]))
  }

  /** The query filter `game_appid=not.is.null`. */
  function WithAppid(rows: seq<Row>): (r: seq<Row>)
    ensures forall row :: row in r <==> row in rows && row.appid.Some?
  {
    Filter(rows, (row: Row) => row.appid.Some?)
  }

  /** `row` counts as returned by participant `p`: `p` has a baseline, owns the row,
      and the row's app id is not in the baseline. */
  predicate Returned(p: SteamSync.SteamParticipant, row: Row)
  {
    && |p.knownAppids| > 0
    && row.participantId == p.id
    && row.appid.Some?
    && row.appid.value !in p.knownAppids
  }

  /** The table a delete request goes to. */
  datatype Table = PurchaseTable | PendingTable

  /** One delete request the check sends: to which table, for whose row, which
      row, and how the request ended. */
  datatype Deletion = Deletion(table: Table, participant: string, row: Row, answer: WriteResult)

  /** The deletions for one participant's returned rows of one table, in table order;
      `answer` tells how the delete of the row with a given id ends. */
  function DeleteReturned(p: SteamSync.SteamParticipant, table: Table, rows: seq<Row>, answer: int -> WriteResult): (r: seq<Deletion>)
    ensures forall d :: d in r ==>
              d.table == table && d.participant == p.name && d.row in rows && Returned(p, d.row) && d.answer == answer(d.row.id)
    ensures forall row :: row in rows && Returned(p, row) ==> Deletion(table, p.name, row, answer(row.id)) in r
    decreases |rows|
  {
    if |rows| == 0 then []
    else
      var rest := DeleteReturned(p, table, rows[1..], answer);
      assert forall row :: row in rows ==> row == rows[0] || row in rows[1..];
      if Returned(p, rows[0]) then [Deletion(table, p.name, rows[0], answer(rows[0].id))] + rest else rest
  }

  /** The loop over the participants (lines 61-99): for each participant with a
      baseline, the deletes of its returned purchases, then those of its returned
      pending rows; a participant without a baseline is skipped. This is the whole
      sequence of requests the handler sends when none of them throws. */
  function Sweep(
    ps: seq<SteamSync.SteamParticipant>, rows: seq<Row>, pendingRows: seq<Row>,
    purchaseDelete: int -> WriteResult, pendingDelete: int -> WriteResult): seq<Deletion>
    decreases |ps|
  {
    if |ps| == 0 then []
    else
      var p := ps[0];
      var rest := Sweep(ps[1..], rows, pendingRows, purchaseDelete, pendingDelete);
      if |p.knownAppids| == 0 then rest
      else DeleteReturned(p, PurchaseTable, rows, purchaseDelete) + DeleteReturned(p, PendingTable, pendingRows, pendingDelete) + rest
  }

  /** The sweep deletes exactly the rows some participant with a baseline returned. */
  lemma {:induction false} SweepIsExact(
    ps: seq<SteamSync.SteamParticipant>, rows: seq<Row>, pendingRows: seq<Row>,
    purchaseDelete: int -> WriteResult, pendingDelete: int -> WriteResult)
    ensures var r := Sweep(ps, rows, pendingRows, purchaseDelete, pendingDelete);
            // only rows returned by one of the participants are deleted ...
            && (forall d :: d in r ==> exists p :: p in ps && Returned(p, d.row) && d.participant == p.name)
            && (forall d :: d in r && d.table == PurchaseTable ==> d.row in rows && d.answer == purchaseDelete(d.row.id))
            && (forall d :: d in r && d.table == PendingTable ==> d.row in pendingRows && d.answer == pendingDelete(d.row.id))
            // ... and every such row is
            && (forall p, row :: p in ps && row in rows && Returned(p, row) ==>
                  Deletion(PurchaseTable, p.name, row, purchaseDelete(row.id)) in r)
            && (forall p, row :: p in ps && row in pendingRows && Returned(p, row) ==>
                  Deletion(PendingTable, p.name, row, pendingDelete(row.id)) in r)
    decreases |ps|
  {
    if |ps| > 0 {
      SweepIsExact(ps[1..], rows, pendingRows, purchaseDelete, pendingDelete);
      assert forall q :: q in ps ==> q == ps[0] || q in ps[1..];
    }
  }

  /** The requests planned for the rows the two purchase reads returned. */
  function Plan(
    ps: seq<SteamSync.SteamParticipant>, purchases: seq<Purchase>, pending: seq<PendingPurchase>,
    purchaseDelete: int -> WriteResult, pendingDelete: int -> WriteResult): seq<Deletion>
  {
    Sweep(ps, WithAppid(PurchaseRows(purchases)), WithAppid(PendingRows(pending)), purchaseDelete, pendingDelete)
  }

  /** The plan deletes exactly the returned rows among those read, each request
      ending as its table's oracle says. */
  lemma PlanCoversReturns(
    ps: seq<SteamSync.SteamParticipant>, purchases: seq<Purchase>, pending: seq<PendingPurchase>,
    purchaseDelete: int -> WriteResult, pendingDelete: int -> WriteResult)
    ensures var r := Plan(ps, purchases, pending, purchaseDelete, pendingDelete);
            // a confirmed purchase is deleted exactly when its owner returned it ...
            && (forall pur :: pur in purchases ==>
                  ((exists d :: d in r && d.table == PurchaseTable && d.row == PurchaseRow(pur))
                   <==> exists p :: p in ps && Returned(p, PurchaseRow(pur))))
            // ... and likewise a pending purchase
            && (forall pen :: pen in pending ==>
                  ((exists d :: d in r && d.table == PendingTable && d.row == PendingRowOf(pen))
                   <==> exists p :: p in ps && Returned(p, PendingRowOf(pen))))
            // every request is for a row that was read, and ends as its table's oracle says
            && (forall d :: d in r && d.table == PurchaseTable ==>
                  d.answer == purchaseDelete(d.row.id) && exists pur :: pur in purchases && d.row == PurchaseRow(pur))
            && (forall d :: d in r && d.table == PendingTable ==>
                  d.answer == pendingDelete(d.row.id) && exists pen :: pen in pending && d.row == PendingRowOf(pen))
            && (forall d :: d in r ==> exists p :: p in ps && Returned(p, d.row) && d.participant == p.name)
  {
    var rows := PurchaseRows(purchases);
    var pendingRows := PendingRows(pending);
    var r := Plan(ps, purchases, pending, purchaseDelete, pendingDelete);
    RowsCover(purchases, ps, r, purchaseDelete, pendingDelete, WithAppid(pendingRows));
    PendingRowsCover(pending, ps, r, purchaseDelete, pendingDelete, WithAppid(rows));
  }

  lemma RowsCover(
    purchases: seq<Purchase>, ps: seq<SteamSync.SteamParticipant>, r: seq<Deletion>,
    purchaseDelete: int -> WriteResult, pendingDelete: int -> WriteResult, pendingRows: seq<Row>)
    requires r == Sweep(ps, WithAppid(PurchaseRows(purchases)), pendingRows, purchaseDelete, pendingDelete)
    ensures forall pur :: pur in purchases ==>
              ((exists d :: d in r && d.table == PurchaseTable && d.row == PurchaseRow(pur))
               <==> exists p :: p in ps && Returned(p, PurchaseRow(pur)))
    ensures forall d :: d in r && d.table == PurchaseTable ==>
              d.answer == purchaseDelete(d.row.id) && exists pur :: pur in purchases && d.row == PurchaseRow(pur)
    ensures forall d :: d in r ==> exists p :: p in ps && Returned(p, d.row) && d.participant == p.name
  {
    var rows := PurchaseRows(purchases);
    SweepIsExact(ps, WithAppid(rows), pendingRows, purchaseDelete, pendingDelete);
    forall pur | pur in purchases
      ensures (exists d :: d in r && d.table == PurchaseTable && d.row == PurchaseRow(pur))
              <==> exists p :: p in ps && Returned(p, PurchaseRow(pur))
    {
      var i :| 0 <= i < |purchases| && purchases[i] == pur;
      assert rows[i] == PurchaseRow(pur);
      if exists p :: p in ps && Returned(p, PurchaseRow(pur)) {
        var p :| p in ps && Returned(p, PurchaseRow(pur));
        assert Deletion(PurchaseTable, p.name, PurchaseRow(pur), purchaseDelete(pur.id)) in r;
      }
    }
    forall d | d in r && d.table == PurchaseTable
      ensures d.answer == purchaseDelete(d.row.id) && exists pur :: pur in purchases && d.row == PurchaseRow(pur)
    {
      var i :| 0 <= i < |rows| && rows[i] == d.row;
      assert purchases[i] in purchases;
    }
  }

  lemma PendingRowsCover(
    pending: seq<PendingPurchase>, ps: seq<SteamSync.SteamParticipant>, r: seq<Deletion>,
    purchaseDelete: int -> WriteResult, pendingDelete: int -> WriteResult, rows: seq<Row>)
    requires r == Sweep(ps, rows, WithAppid(PendingRows(pending)), purchaseDelete, pendingDelete)
    ensures forall pen :: pen in pending ==>
              ((exists d :: d in r && d.table == PendingTable && d.row == PendingRowOf(pen))
               <==> exists p :: p in ps && Returned(p, PendingRowOf(pen)))
    ensures forall d :: d in r && d.table == PendingTable ==>
              d.answer == pendingDelete(d.row.id) && exists pen :: pen in pending && d.row == PendingRowOf(pen)
  {
    var pendingRows := PendingRows(pending);
    SweepIsExact(ps, rows, WithAppid(pendingRows), purchaseDelete, pendingDelete);
    forall pen | pen in pending
      ensures (exists d :: d in r && d.table == PendingTable && d.row == PendingRowOf(pen))
              <==> exists p :: p in ps && Returned(p, PendingRowOf(pen))
    {
      var i :| 0 <= i < |pending| && pending[i] == pen;
      assert pendingRows[i] == PendingRowOf(pen);
      if exists p :: p in ps && Returned(p, PendingRowOf(pen)) {
        var p :| p in ps && Returned(p, PendingRowOf(pen));
        assert Deletion(PendingTable, p.name, PendingRowOf(pen), pendingDelete(pen.id)) in r;
      }
    }
    forall d | d in r && d.table == PendingTable
      ensures d.answer == pendingDelete(d.row.id) && exists pen :: pen in pending && d.row == PendingRowOf(pen)
    {
      var i :| 0 <= i < |pendingRows| && pendingRows[i] == d.row;
      assert pending[i] in pending;
    }
  }

  /** Some request of `ds` throws. */
  predicate AnyThrow(ds: seq<Deletion>)
  {
    exists d :: d in ds && d.answer == WriteThrew
  }

  /** `sent` ends with a request that throws, and none before it throws. */
  predicate EndsAtFirstThrow(sent: seq<Deletion>)
  {
    && |sent| > 0 && sent[|sent| - 1].answer == WriteThrew
    && forall i :: 0 <= i < |sent| - 1 ==> sent[i].answer != WriteThrew
  }

  /** The requests actually sent: the plan up to and including the first request
      that throws, since a throw leaves the loop for the handler's catch. */
  function UntilThrow(ds: seq<Deletion>): (r: seq<Deletion>)
    ensures r <= ds
    ensures AnyThrow(ds) ==> EndsAtFirstThrow(r)
    ensures !AnyThrow(ds) ==> r == ds
    decreases |ds|
  {
    if |ds| == 0 then []
    else if ds[0].answer == WriteThrew then [ds[0]]
    else
      var rest := UntilThrow(ds[1..]);
      NoThrowFirst(ds);
      FirstThrowLater(ds[0], rest);
      assert ds == [ds[0]] + ds[1..];
      [ds[0]] + rest
  }

  /** A plan whose first request answers throws exactly when the rest does. */
  lemma NoThrowFirst(ds: seq<Deletion>)
    requires |ds| > 0 && ds[0].answer != WriteThrew
    ensures AnyThrow(ds) <==> AnyThrow(ds[1..])
  {
    assert forall d :: d in ds <==> d == ds[0] || d in ds[1..];
  }

  /** A request that answers, put in front of requests ending at the first throw,
      still ends at the first throw. */
  lemma FirstThrowLater(d: Deletion, rest: seq<Deletion>)
    requires d.answer != WriteThrew
    ensures EndsAtFirstThrow(rest) ==> EndsAtFirstThrow([d] + rest)
  {
    var r := [d] + rest;
    assert forall i :: 1 <= i < |r| ==> r[i] == rest[i - 1];
  }

  /** An entry of `removed` / `removed_pending`. */
  datatype Removal = Removal(participant: string, game: string)

  /** The report entries of one table's deletions answered OK, in request order. */
  function Removed(ds: seq<Deletion>, table: Table): (r: seq<Removal>)
    ensures |r| <= |ds|
    ensures forall x :: x in r <==>
              exists d :: d in ds && d.table == table && d.answer == WriteOk && x == Removal(d.participant, d.row.gameName)
    decreases |ds|
  {
    if |ds| == 0 then []
    else
      var rest := Removed(ds[1..], table);
      assert forall d :: d in ds ==> d == ds[0] || d in ds[1..];
      if ds[0].table == table && ds[0].answer == WriteOk then [Removal(ds[0].participant, ds[0].row.gameName)] + rest else rest
  }

  /** What the handler answers, with the delete requests it sent. */
  datatype ReturnsReply =
    | NotConfigured                     // 500, database not configured
    | ReadFailed                        // 500, a read failed or threw
    | Aborted(sent: seq<Deletion>)      // 500 from the catch: a delete request threw
    | Checked(sent: seq<Deletion>, removed: seq<Removal>, removedPending: seq<Removal>)

  /** Sending the planned requests in order: the loop stops at the first request
      that throws and the handler's catch answers 500; otherwise the report lists
      the deletions answered OK. */
  function Send(plan: seq<Deletion>): (r: ReturnsReply)
    ensures r.Checked? || r.Aborted?
    ensures r.sent <= plan
    ensures r.Aborted? <==> AnyThrow(plan)
    ensures r.Checked? ==> r.sent == plan
    ensures r.Aborted? ==> EndsAtFirstThrow(r.sent)
    ensures r.Checked? ==> !AnyThrow(r.sent)
    ensures r.Checked? ==> r.removed == Removed(r.sent, PurchaseTable) && r.removedPending == Removed(r.sent, PendingTable)
  {
    if AnyThrow(plan) then Aborted(UntilThrow(plan))
    else Checked(plan, Removed(plan, PurchaseTable), Removed(plan, PendingTable))
  }

  /** `POST /api/steam/sync-returns`. `participants` and `purchases` are the table
      contents the first two reads return, None when a read is not OK or throws
      (both end in 500); the participant read keeps rows with a Steam id, the
      purchase reads rows with an app id. `purchaseDelete` and `pendingDelete` tell
      how the delete of a row with a given id ends. */
  function DetectReturns(
    configured: bool,
    participants: Option<seq<SteamSync.SteamParticipant>>,
    purchases: Option<seq<Purchase>>,
    pending: PendingRead,
    purchaseDelete: int -> WriteResult, pendingDelete: int -> WriteResult): (r: ReturnsReply)
    ensures !configured ==> r == NotConfigured
    ensures r.NotConfigured? <==> !configured
    // a failed participant or purchase read, or a thrown pending read, deletes nothing
    ensures r.ReadFailed? <==> configured && (participants.None? || purchases.None? || pending.PendingThrew?)
    ensures r.Checked? || r.Aborted? ==> configured && participants.Some? && purchases.Some? && !pending.PendingThrew?
    // the requests go out in the planned order and stop at the first throw
    ensures r.Checked? || r.Aborted? ==>
              var plan := Plan(SteamSync.WithSteamId(participants.value), purchases.value, pending.Table(), purchaseDelete, pendingDelete);
              && r.sent <= plan
              && (r.Aborted? <==> AnyThrow(plan))
              && (r.Checked? ==> r.sent == plan)
    ensures r.Aborted? ==> EndsAtFirstThrow(r.sent)
    ensures r.Checked? ==> !AnyThrow(r.sent)
    // the report lists exactly the deletions answered OK
    ensures r.Checked? ==> r.removed == Removed(r.sent, PurchaseTable) && r.removedPending == Removed(r.sent, PendingTable)
  {
    if !configured then NotConfigured
    else if participants.None? || purchases.None? || pending.PendingThrew? then ReadFailed
    else
      Send(Plan(SteamSync.WithSteamId(participants.value), purchases.value, pending.Table(), purchaseDelete, pendingDelete))
  }

  /** When the check completes, a purchase or pending row that was read is deleted
      exactly when its owner, a participant with a Steam id and a baseline, no
      longer has its app id in the baseline. */
  lemma CheckedDeletesExactlyReturns(
    participants: seq<SteamSync.SteamParticipant>, purchases: seq<Purchase>, pending: PendingRead,
    purchaseDelete: int -> WriteResult, pendingDelete: int -> WriteResult)
    requires DetectReturns(true, Some(participants), Some(purchases), pending, purchaseDelete, pendingDelete).Checked?
    ensures var sent := DetectReturns(true, Some(participants), Some(purchases), pending, purchaseDelete, pendingDelete).sent;
            var ps := SteamSync.WithSteamId(participants);
            && (forall pur :: pur in purchases ==>
                  ((exists d :: d in sent && d.table == PurchaseTable && d.row == PurchaseRow(pur))
                   <==> exists p :: p in ps && Returned(p, PurchaseRow(pur))))
            && (forall pen :: pen in pending.Table() ==>
                  ((exists d :: d in sent && d.table == PendingTable && d.row == PendingRowOf(pen))
                   <==> exists p :: p in ps && Returned(p, PendingRowOf(pen))))
  {
    PlanCoversReturns(SteamSync.WithSteamId(participants), purchases, pending.Table(), purchaseDelete, pendingDelete);
  }

  /** A participant without a baseline loses nothing: when every participant row
      with id `pid` has an empty `known_appids`, no row of `pid` is deleted. */
  lemma NoBaselineNoDeletions(
    ps: seq<SteamSync.SteamParticipant>, rows: seq<Row>, pendingRows: seq<Row>,
    purchaseDelete: int -> WriteResult, pendingDelete: int -> WriteResult, pid: int)
    requires forall p :: p in ps && p.id == pid ==> |p.knownAppids| == 0
    ensures forall d :: d in Sweep(ps, rows, pendingRows, purchaseDelete, pendingDelete) ==> d.row.participantId != pid
  {
    SweepIsExact(ps, rows, pendingRows, purchaseDelete, pendingDelete);
  }

  /** A game still in its owner's baseline is never deleted, nor is a row without
      an app id. */
  lemma OwnedGamesSurvive(
    ps: seq<SteamSync.SteamParticipant>, rows: seq<Row>, pendingRows: seq<Row>,
    purchaseDelete: int -> WriteResult, pendingDelete: int -> WriteResult, row: Row)
    requires forall p :: p in ps && p.id == row.participantId ==> row.appid.Some? && row.appid.value in p.knownAppids
    ensures forall d :: d in Sweep(ps, rows, pendingRows, purchaseDelete, pendingDelete) ==> d.row != row
  {
    SweepIsExact(ps, rows, pendingRows, purchaseDelete, pendingDelete);
  }

  /** The pending rows a library sync queues are not taken for returns by a check
      run against the baseline that same sync wrote: they are all in the library. */
  lemma QueuedGamesAreNotReturns(
    p: SteamSync.SteamParticipant, env: SteamSync.SyncEnv, start: Currency.RateCache, s: SteamSync.ParticipantSync, row: SteamSync.PendingRow)
    requires SteamSync.Reconciled(p, env, start, s)
    requires s.baseline.Some? && s.inserted.Some?
    requires row in s.inserted.value
    ensures !Returned(p.(knownAppids := s.baseline.value), Row(0, row.participantId, row.name, Some(row.appid)))
  {
    var owned := env.ownedGames(p.steamId);
    var g := SteamSync.OwnedGame(row.appid, row.name);
    assert g in owned;
    var i :| 0 <= i < |owned| && owned[i] == g;
    assert SteamSync.AppIds(owned)[i] == row.appid;
  }
}
