/** components/ranking/use-ranking.ts: the browser side of the ranking page. The
    hook's actions are modelled by what they send and by the local state they
    compute; React state becomes arguments and results, the confirmation dialog
    and the clock become parameters. */
module UseRanking {
  import opened Common
  import opened Records
  import opened Ranking
  import DataRoute
  import PendingRoute
  import CloseMonth

  /** A search result (`SteamGame`); `currency` is "" when the store gave none. */
  datatype SteamGame = SteamGame(appid: int, name: string, priceNum: real, currency: string, image: string)

  /** The body of the month-close request: the rankings and the month closed. */
  datatype CloseRequest = CloseRequest(rankings: seq<RankEntry>, month: int, year: int)

  /** `handleCloseMonth`. `month0`/`year` are `getMonth()`/`getFullYear()` of the
      clock; `confirmed` is the answer to the confirmation dialog. The rankings are
      the participants as displayed, numbered in display order. */
  function CloseMonthRequest(participants: seq<ParticipantView>, month0: int, year: int, confirmed: bool): (r: Option<CloseRequest>)
    requires 0 <= month0 <= 11
    // nothing is sent unless the dialog is confirmed
    ensures r.Some? <==> confirmed
    ensures r.Some? ==>
              && 1 <= r.value.month <= 12 && r.value.month == month0 + 1 && r.value.year == year
              && |r.value.rankings| == |participants|
              && forall i :: 0 <= i < |participants| ==>
                   r.value.rankings[i] == RankEntry(participants[i].id, participants[i].total, i + 1)
  {
    if !confirmed then None
    else
      var rankings := seq(|participants|, i requires 0 <= i < |participants| =>
        RankEntry(participants[i].id, participants[i].total, i + 1));
      Some(CloseRequest(rankings, month0 + 1, year))
  }

  /** The participants the page displays come sorted from `GET /api/data`; the
      month close built from them therefore writes a well-formed set of trophies:
      podium positions 1..k for lines that spent, one shame trophy when there are
      two lines or more, every position drawable. */
  lemma ClientCloseIsWellFormed(
    remote: Option<DataRoute.Snapshot>, store: DataRoute.MemoryStore, put: DataRoute.Remote,
    month0: int, year: int)
    requires 0 <= month0 <= 11
    ensures var shown := DataRoute.GetData(remote, store);
            var req := CloseMonthRequest(shown, month0, year, true).value;
            CloseMonth.WellFormedClose(req.rankings, DataRoute.CloseMonthPut(store, put, req.rankings, req.month, req.year).written)
  {
    ShownIsSorted(remote, store);
    SortedCloseIsWellFormed(DataRoute.GetData(remote, store), store, put, month0, year);
  }

  /** Listed participants, largest total first. */
  ghost predicate SortedByTotal(shown: seq<ParticipantView>)
  {
    forall i, j :: 0 <= i < j < |shown| ==> shown[i].total >= shown[j].total
  }

  /** The page lists the participants largest total first. */
  lemma ShownIsSorted(remote: Option<DataRoute.Snapshot>, store: DataRoute.MemoryStore)
    ensures SortedByTotal(DataRoute.GetData(remote, store))
  {
  }

  /** The same for any list of participants sorted by total, largest first. */
  lemma SortedCloseIsWellFormed(
    shown: seq<ParticipantView>, store: DataRoute.MemoryStore, put: DataRoute.Remote, month0: int, year: int)
    requires 0 <= month0 <= 11
    requires SortedByTotal(shown)
    ensures var req := CloseMonthRequest(shown, month0, year, true).value;
            CloseMonth.WellFormedClose(req.rankings, DataRoute.CloseMonthPut(store, put, req.rankings, req.month, req.year).written)
  {
    var req := CloseMonthRequest(shown, month0, year, true).value;
    var rankings := req.rankings;
    forall i, j | 0 <= i < j < |rankings| ensures rankings[i].total >= rankings[j].total {
      assert rankings[i].total == shown[i].total && rankings[j].total == shown[j].total;
    }
    CloseMonth.ClosedMonthIsWellFormed(rankings, req.month, req.year);
  }

  /** For the same clock reading, the button closes the current month while the
      scheduled close closes the one before it. */
  lemma ButtonAndCronCloseDifferentMonths(participants: seq<ParticipantView>, month0: int, year: int)
    requires 0 <= month0 <= 11
    ensures var req := CloseMonthRequest(participants, month0, year, true).value;
            CloseMonth.NextMonth(CloseMonth.PreviousMonth(month0, year).0, CloseMonth.PreviousMonth(month0, year).1)
              == (req.month, req.year)
  {
    CloseMonth.PreviousMonthPrecedesNow(month0, year);
  }

  /** What adding a game sends: an admin posts a purchase, anyone else a suggestion. */
  datatype AddRequest =
    | AdminPurchase(body: DataRoute.PurchaseBody)
    | Suggestion(participantId: int, gameName: string, gameImage: string, gameAppid: int, price: real, currency: string)

  /** `handleAddGame`. `selected` is the selected participant (None when none is);
      `customPrice` the price typed by the user, if any. */
  function AddGameRequest(selected: Option<int>, isAdmin: bool, game: SteamGame, customPrice: Option<real>): (r: Option<AddRequest>)
    // no participant selected (or the falsy id 0): nothing is sent
    ensures r.None? <==> selected.None? || selected.value == 0
    ensures r.Some? ==> (r.value.AdminPurchase? <==> isAdmin)
    ensures r.Some? && isAdmin ==>
              r.value.body == DataRoute.PurchaseBody(selected.value, game.name, Some(game.image), Some(game.appid),
                                                     if customPrice.Some? then customPrice.value else game.priceNum)
    ensures r.Some? && !isAdmin ==>
              && r.value.participantId == selected.value && r.value.gameAppid == game.appid
              && r.value.gameName == game.name && r.value.gameImage == game.image
              && r.value.price == (if customPrice.Some? then customPrice.value else game.priceNum)
              && r.value.currency == (if game.currency == "" then "USD" else game.currency)
  {
    if selected.None? || selected.value == 0 then None
    else
      var price := customPrice.GetOr(game.priceNum);
      if isAdmin then
        Some(AdminPurchase(DataRoute.PurchaseBody(selected.value, game.name, Some(game.image), Some(game.appid), price)))
      else
        Some(Suggestion(selected.value, game.name, game.image, game.appid, price,
                        if game.currency == "" then "USD" else game.currency))
  }

  /** An admin's addition, once in the fallback store, is a purchase of the selected
      participant at the chosen price. */
  lemma AdminAdditionLands(store: DataRoute.MemoryStore, remote: DataRoute.Remote, pid: int, game: SteamGame, price: real)
    requires pid != 0
    requires !DataRoute.TakenByDatabase(remote)
    ensures var req := AddGameRequest(Some(pid), true, game, Some(price)).value;
            var after := DataRoute.AddPurchase(store, remote, req.body).store;
            Purchase(store.nextPurchaseId, pid, game.name, Some(game.image), Some(game.appid), price) in after.purchases
  {
    var req := AddGameRequest(Some(pid), true, game, Some(price)).value;
    var after := DataRoute.AddPurchase(store, remote, req.body).store;
    assert after.purchases[|store.purchases|] == Purchase(store.nextPurchaseId, pid, game.name, Some(game.image), Some(game.appid), price);
  }

  /** `handleApprovePending`: the approval body sent and the pending list the
      page keeps, which loses every entry with that id whatever the server answers. */
  function ApproveLocally(pending: PendingPurchase, customPrice: Option<real>, shown: seq<PendingPurchase>): (r: (PendingRoute.ApproveBody, seq<PendingPurchase>))
    ensures r.0.id == Some(pending.id) && r.0.participantId == Some(pending.participantId)
    ensures r.0.gameName == Some(pending.gameName) && r.0.gameAppid == Some(pending.gameAppid)
            && r.0.gameImage == pending.gameImage
    ensures r.0.price == Some(if customPrice.Some? then customPrice.value else pending.price)
    ensures forall x :: x in r.1 <==> x in shown && x.id != pending.id
  {
    (PendingRoute.BodyFor(pending, customPrice.GetOr(pending.price)), PendingRoute.DropPending(shown, pending.id))
  }

  /** When both writes succeed and the page showed the server's queue, the page's
      list and the server's queue agree afterwards, and the purchase carries the
      approved price. */
  lemma ApprovalKeepsPageInStep(t: PendingRoute.Tables, pending: PendingPurchase, customPrice: Option<real>, newId: int)
    requires pending.id != 0 && pending.participantId != 0 && pending.gameName != ""
    ensures var (body, shown) := ApproveLocally(pending, customPrice, t.pending);
            var r := PendingRoute.Approve(t, body, newId, true, WriteOk);
            && r.status == PendingRoute.Success
            && r.tables.pending == shown
            && r.tables.purchases[|t.purchases|].price == customPrice.GetOr(pending.price)
  {
  }

  /** When the insert fails the server keeps the row but the page drops it until
      the next reload. */
  lemma FailedApprovalHidesRow(t: PendingRoute.Tables, pending: PendingPurchase, customPrice: Option<real>, newId: int)
    requires pending in t.pending
    ensures var (body, shown) := ApproveLocally(pending, customPrice, t.pending);
            var r := PendingRoute.Approve(t, body, newId, false, WriteOk);
            r.status != PendingRoute.Success && pending in r.tables.pending && pending !in shown
  {
  }

  /** `handleRejectPending`: the query parameter sent and the page's remaining list. */
  function RejectLocally(id: int, shown: seq<PendingPurchase>): (r: (Option<string>, seq<PendingPurchase>))
    ensures r.0 == Some(PendingRoute.Decimal(id))
    ensures forall x :: x in r.1 <==> x in shown && x.id != id
  {
    (Some(PendingRoute.Decimal(id)), PendingRoute.DropPending(shown, id))
  }

  /** A successful rejection leaves the page showing exactly the server's queue. */
  lemma RejectionKeepsPageInStep(t: PendingRoute.Tables, id: int)
    ensures var (param, shown) := RejectLocally(id, t.pending);
            var r := PendingRoute.Reject(t, param, true);
            r.status == PendingRoute.Success && forall x :: x in r.tables.pending <==> x in shown
  {
    var (param, shown) := RejectLocally(id, t.pending);
    var r := PendingRoute.Reject(t, param, true);
    forall x | x in t.pending && PendingRoute.Decimal(x.id) == PendingRoute.Decimal(id) ensures x.id == id {
      PendingRoute.DecimalInjective(x.id, id);
    }
  }

  /** The page's purchases after a price edit: every purchase with that id gets the
      new price. */
  function Reprice(purchases: seq<Purchase>, id: int, price: real): (r: seq<Purchase>)
    ensures |r| == |purchases|
    ensures forall i :: 0 <= i < |r| ==>
              r[i] == if purchases[i].id == id then purchases[i].(price := price) else purchases[i]
  {
    seq(|purchases|, i requires 0 <= i < |purchases| =>
      if purchases[i].id == id then purchases[i].(price := price) else purchases[i])
  }

  /** `handleUpdatePrice`'s local update of the participant being viewed (None when
      none is): new purchases and their total. */
  function UpdatePriceLocally(viewing: Option<ParticipantView>, id: int, price: real): (r: Option<ParticipantView>)
    ensures r.None? <==> viewing.None?
    ensures r.Some? ==>
              && r.value == viewing.value.(purchases := r.value.purchases, total := r.value.total)
              && r.value.purchases == Reprice(viewing.value.purchases, id, price)
              && r.value.total == PriceSum(r.value.purchases)
  {
    match viewing
    case None => None
    case Some(v) =>
      var updated := Reprice(v.purchases, id, price);
      Some(v.(purchases := updated, total := PriceSum(updated)))
  }

  /** With unique purchase ids the new total is the old one with the one price
      swapped, and the local edit agrees with the fallback store's `PATCH`. */
  lemma RepricedTotal(v: ParticipantView, k: nat, price: real)
    requires k < |v.purchases|
    requires forall i :: 0 <= i < |v.purchases| && i != k ==> v.purchases[i].id != v.purchases[k].id
    requires v.total == PriceSum(v.purchases)
    ensures var r := UpdatePriceLocally(Some(v), v.purchases[k].id, price).value;
            && r.total == v.total - v.purchases[k].price + price
            && r.purchases == DataRoute.SetPrice(v.purchases, v.purchases[k].id, price)
  {
    var ps := v.purchases;
    var id := ps[k].id;
    var updated := Reprice(ps, id, price);
    assert updated == ps[k := ps[k].(price := price)];
    SumOfUpdate(ps, k, price);
    match FindFirst(ps, (p: Purchase) => p.id == id)
    case None =>
      assert false;
    case Some(j) =>
      assert j == k;
  }

  /** Changing one price changes the sum by the difference. */
  lemma {:induction false} SumOfUpdate(ps: seq<Purchase>, k: nat, price: real)
    requires k < |ps|
    ensures PriceSum(ps[k := ps[k].(price := price)]) == PriceSum(ps) - ps[k].price + price
  {
    var f := (p: Purchase) => p.price;
    var updated := ps[k := ps[k].(price := price)];
    assert ps == ps[..k] + [ps[k]] + ps[k + 1..];
    assert updated == ps[..k] + [ps[k].(price := price)] + ps[k + 1..];
    SumByAppend(ps[..k] + [ps[k]], ps[k + 1..], f);
    SumByAppend(ps[..k], [ps[k]], f);
    SumByAppend(ps[..k] + [ps[k].(price := price)], ps[k + 1..], f);
    SumByAppend(ps[..k], [ps[k].(price := price)], f);
  }
}
