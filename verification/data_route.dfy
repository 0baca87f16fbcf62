/** app/api/data/route.ts: the participants/purchases/trophies handler. Every write
    goes to the database first and falls back to an in-process store when the
    database is not configured or does not take the write. The module-level arrays
    and id counters become the explicit `MemoryStore` value; the database's answer
    to each request is a parameter. */
module DataRoute {
  import opened Common
  import opened Records
  import opened Ranking

  /** The participants served when the database cannot be read. */
  const FallbackParticipants: seq<ParticipantRow> := [
    ParticipantRow(1, "Shadowdark", Some("/avatars/shadowdark.png"), None),
    ParticipantRow(2, "Deadpool", Some("/avatars/deadpool.png"), None),
    ParticipantRow(3, "Dyx", Some("/avatars/dyx.png"), None),
    ParticipantRow(4, "Mostacho", Some("/avatars/mostacho.png"), None),
    ParticipantRow(5, "Rueda Desinflada", Some("/avatars/rueda.png"), None)]

  /** The trophies of participant `pid`, in table order. */
  function TrophiesOf(pid: int, trophies: seq<Trophy>): (r: seq<Trophy>)
    ensures forall t :: t in r <==> t in trophies && t.participantId == pid
  {
    Filter(trophies, (t: Trophy) => t.participantId == pid)
  }

  /** One participant joined with its own purchases, trophies and total. */
  function ViewOf(p: ParticipantRow, purchases: seq<Purchase>, trophies: seq<Trophy>): ParticipantView
  {
    ParticipantView(p.id, p.name, p.avatarUrl, p.countryCode,
      TotalFor(p.id, purchases), PurchasesOf(p.id, purchases), TrophiesOf(p.id, trophies))
  }

  /** The joined participants before sorting, in input order. */
  function Views(participants: seq<ParticipantRow>, purchases: seq<Purchase>, trophies: seq<Trophy>): (r: seq<ParticipantView>)
    ensures |r| == |participants|
    ensures forall i :: 0 <= i < |r| ==> r[i] == ViewOf(participants[i], purchases, trophies)
  {
    seq(|participants|, i requires 0 <= i < |participants| => ViewOf(participants[i], purchases, trophies))
  }

  function ViewTotal(v: ParticipantView): real { v.total }

  /** A participant view is consistent with the tables it was built from: its
      purchases and trophies are exactly the rows carrying its id, and its total is
      the sum of those purchases. */
  ghost predicate Joined(v: ParticipantView, purchases: seq<Purchase>, trophies: seq<Trophy>)
  {
    && (forall p :: p in v.purchases <==> p in purchases && p.participantId == v.id)
    && (forall t :: t in v.trophies <==> t in trophies && t.participantId == v.id)
    && v.total == PriceSum(v.purchases)
  }

  /** `buildParticipantsWithPurchases`: every participant with its purchases,
      trophies and total, sorted by total, largest first, ties in input order. */
  function BuildParticipantsWithPurchases(
    participants: seq<ParticipantRow>, purchases: seq<Purchase>, trophies: seq<Trophy>): (r: seq<ParticipantView>)
    ensures |r| == |participants|
    ensures forall v :: v in r ==> Joined(v, purchases, trophies)
    // a permutation of the participants
    ensures multiset(r) == multiset(Views(participants, purchases, trophies))
    ensures forall p :: p in participants ==> exists v :: v in r && v.id == p.id && v.name == p.name
    ensures forall v :: v in r ==> exists p :: p in participants && v.id == p.id && v.name == p.name
    // ordered by total, largest first, and stable among equal totals
    ensures forall i, j :: 0 <= i < j < |r| ==> r[i].total >= r[j].total
    ensures forall t :: WithKey(r, ViewTotal, t) == WithKey(Views(participants, purchases, trophies), ViewTotal, t)
  {
    var views := Views(participants, purchases, trophies);
    var r := SortDesc(views, ViewTotal);
    SortDescStableAll(views, ViewTotal);
    SortedViewsComeFromParticipants(participants, purchases, trophies, r);
    r
  }

  /** A view built by `ViewOf` is joined with the tables it was built from. */
  lemma ViewOfJoined(p: ParticipantRow, purchases: seq<Purchase>, trophies: seq<Trophy>)
    ensures Joined(ViewOf(p, purchases, trophies), purchases, trophies)
  {
  }

  /** Any permutation of the views has one view per participant, each joined. */
  lemma SortedViewsComeFromParticipants(
    participants: seq<ParticipantRow>, purchases: seq<Purchase>, trophies: seq<Trophy>, r: seq<ParticipantView>)
    requires multiset(r) == multiset(Views(participants, purchases, trophies))
    ensures forall v :: v in r ==> Joined(v, purchases, trophies)
    ensures forall p :: p in participants ==> exists v :: v in r && v.id == p.id && v.name == p.name
    ensures forall v :: v in r ==> exists p :: p in participants && v.id == p.id && v.name == p.name
  {
    var views := Views(participants, purchases, trophies);
    forall v | v in r ensures exists p :: p in participants && v == ViewOf(p, purchases, trophies) {
      assert v in multiset(views);
      var i :| 0 <= i < |views| && views[i] == v;
      assert participants[i] in participants;
    }
    forall v | v in r ensures Joined(v, purchases, trophies) {
      var p :| p in participants && v == ViewOf(p, purchases, trophies);
      ViewOfJoined(p, purchases, trophies);
    }
    forall p | p in participants ensures ViewOf(p, purchases, trophies) in r {
      var i :| 0 <= i < |participants| && participants[i] == p;
      assert views[i] in multiset(r);
    }
  }

  /** What the database made of a write: not configured, the request threw, or it
      answered with an HTTP status and a body that may contain "Invalid request". */
  datatype Remote = Unconfigured | Unreachable | Answered(ok: bool, invalidRequest: bool)

  /** `POST`/`DELETE` trust the database only for an OK answer whose body does not
      mention "Invalid request". */
  predicate TakenByDatabase(remote: Remote)
  {
    remote.Answered? && remote.ok && !remote.invalidRequest
  }

  /** The in-process fallback: the two arrays and their id counters. */
  datatype MemoryStore = MemoryStore(purchases: seq<Purchase>, trophies: seq<Trophy>, nextPurchaseId: int, nextTrophyId: int)

  /** The store as the process starts: empty, both counters at 1. */
  const InitialStore := MemoryStore([], [], 1, 1)

  /** Ids are handed out in increasing order and the counters are past every id
      handed out; in particular ids are unique. */
  ghost predicate Valid(store: MemoryStore)
  {
    && store.nextPurchaseId >= 1
    && store.nextTrophyId >= 1
    && (forall i :: 0 <= i < |store.purchases| ==> store.purchases[i].id < store.nextPurchaseId)
    && (forall i, j :: 0 <= i < j < |store.purchases| ==> store.purchases[i].id < store.purchases[j].id)
    && (forall i :: 0 <= i < |store.trophies| ==> store.trophies[i].id < store.nextTrophyId)
    && (forall i, j :: 0 <= i < j < |store.trophies| ==> store.trophies[i].id < store.trophies[j].id)
  }

  lemma InitialStoreValid()
    ensures Valid(InitialStore)
  {
  }

  /** The HTTP outcome of a write: 200 `{ success: true }` or 400 for a missing field. */
  datatype Reply = Success | BadRequest

  /** A handler's answer together with the fallback store it leaves behind. */
  datatype Write = Write(reply: Reply, store: MemoryStore)

  /** The body of `POST /api/data`, passed through without validation. */
  datatype PurchaseBody = PurchaseBody(
    participantId: int, gameName: string, gameImage: Option<string>, gameAppid: Option<int>, price: real)

  /** `POST /api/data`: add a purchase. When the database does not take it, the
      purchase is appended to the fallback store under the next id. */
  function AddPurchase(store: MemoryStore, remote: Remote, body: PurchaseBody): (r: Write)
    ensures r.reply == Success
    ensures r.store.trophies == store.trophies && r.store.nextTrophyId == store.nextTrophyId
    ensures TakenByDatabase(remote) ==> r.store == store
    ensures !TakenByDatabase(remote) ==>
              && |r.store.purchases| == |store.purchases| + 1
              && r.store.purchases[..|store.purchases|] == store.purchases
              && r.store.nextPurchaseId == store.nextPurchaseId + 1
              && var added := r.store.purchases[|store.purchases|];
                 added.id == store.nextPurchaseId
                 && PurchaseBody(added.participantId, added.gameName, added.gameImage, added.gameAppid, added.price) == body
  {
    if TakenByDatabase(remote) then Write(Success, store)
    else
      var added := Purchase(store.nextPurchaseId, body.participantId, body.gameName, body.gameImage, body.gameAppid, body.price);
      assert (store.purchases + [added])[..|store.purchases|] == store.purchases;
      Write(Success, store.(purchases := store.purchases + [added], nextPurchaseId := store.nextPurchaseId + 1))
  }

  /** Adding keeps ids unique and increasing; the new id was used by no earlier purchase. */
  lemma AddPurchasePreservesValid(store: MemoryStore, remote: Remote, body: PurchaseBody)
    requires Valid(store)
    ensures Valid(AddPurchase(store, remote, body).store)
    ensures !TakenByDatabase(remote) ==>
              forall p :: p in store.purchases ==> p.id != store.nextPurchaseId
  {
  }

  /** The purchases left after splicing out the index of the first match:
      the first purchase with that id is removed, none when there is none. */
  function RemoveFirst(purchases: seq<Purchase>, id: int): (r: seq<Purchase>)
    ensures FindFirst(purchases, (p: Purchase) => p.id == id).None? ==> r == purchases
    ensures FindFirst(purchases, (p: Purchase) => p.id == id).Some? ==>
              var k := FindFirst(purchases, (p: Purchase) => p.id == id).value;
              |r| == |purchases| - 1 && r == purchases[..k] + purchases[k + 1..]
  {
    match FindFirst(purchases, (p: Purchase) => p.id == id)
    case None => purchases
    case Some(k) => purchases[..k] + purchases[k + 1..]
  }

  /** `DELETE /api/data?id=...`. `id` is the query parameter, None when it is
      missing or empty. */
  function DeletePurchase(store: MemoryStore, remote: Remote, id: Option<int>): (r: Write)
    ensures id.None? <==> r.reply == BadRequest
    ensures id.None? || TakenByDatabase(remote) ==> r.store == store
    ensures id.Some? && !TakenByDatabase(remote) ==>
              r.store == store.(purchases := RemoveFirst(store.purchases, id.value))
  {
    if id.None? then Write(BadRequest, store)
    else if TakenByDatabase(remote) then Write(Success, store)
    else Write(Success, store.(purchases := RemoveFirst(store.purchases, id.value)))
  }

  /** In a valid store, deleting an id removes exactly the purchase with that id
      (none when the id is unknown, a successful no-op) and keeps every other one,
      in order. */
  lemma DeleteRemovesExactlyThatId(store: MemoryStore, id: int)
    requires Valid(store)
    ensures var after := RemoveFirst(store.purchases, id);
            && (forall p :: p in after <==> p in store.purchases && p.id != id)
            && Subsequence(after, store.purchases)
            && Valid(store.(purchases := after))
  {
    var ps := store.purchases;
    match FindFirst(ps, (p: Purchase) => p.id == id)
    case None =>
      SubsequenceReflexive(ps);
    case Some(k) =>
      DropOneMembers(ps, k, id);
      DropOneIsSubsequence(ps, k);
      DropOneValid(store, k);
  }

  lemma DropOneMembers(ps: seq<Purchase>, k: nat, id: int)
    requires k < |ps| && ps[k].id == id
    requires forall i, j :: 0 <= i < j < |ps| ==> ps[i].id < ps[j].id
    ensures forall p :: p in ps[..k] + ps[k + 1..] <==> p in ps && p.id != id
  {
    var after := ps[..k] + ps[k + 1..];
    assert forall i :: 0 <= i < |after| ==> after[i] == if i < k then ps[i] else ps[i + 1];
    forall p ensures p in after <==> p in ps && p.id != id {
      if p in after {
        var i :| 0 <= i < |after| && after[i] == p;
      }
      if p in ps && p.id != id {
        var i :| 0 <= i < |ps| && ps[i] == p;
        if i < k {
          assert after[i] == p;
        } else {
          assert after[i - 1] == p;
        }
      }
    }
  }

  lemma DropOneValid(store: MemoryStore, k: nat)
    requires Valid(store) && k < |store.purchases|
    ensures Valid(store.(purchases := store.purchases[..k] + store.purchases[k + 1..]))
  {
    var ps := store.purchases;
    var after := ps[..k] + ps[k + 1..];
    assert forall i :: 0 <= i < |after| ==> after[i] == if i < k then ps[i] else ps[i + 1];
  }

  lemma {:induction false} SubsequenceReflexive<T>(s: seq<T>)
    ensures Subsequence(s, s)
    decreases |s|
  {
    if |s| > 0 {
      SubsequenceReflexive(s[1..]);
    }
  }

  lemma {:induction false} DropOneIsSubsequence<T>(s: seq<T>, k: nat)
    requires k < |s|
    ensures Subsequence(s[..k] + s[k + 1..], s)
    decreases k
  {
    var a := s[..k] + s[k + 1..];
    if k == 0 {
      assert a == s[1..];
      SkipFirst(s[1..], s);
    } else {
      DropOneIsSubsequence(s[1..], k - 1);
      assert a[0] == s[0];
      assert a[1..] == s[1..][..k - 1] + s[1..][k..];
    }
  }

  /** A sequence is a subsequence of itself with one element put in front. */
  lemma {:induction false} SkipFirst<T>(a: seq<T>, s: seq<T>)
    requires |s| > 0 && a == s[1..]
    ensures Subsequence(a, s)
    decreases |a|
  {
    if |a| > 0 {
      if a[0] == s[0] {
        // s[1..] starts like s, so matching the first element keeps them aligned
        SkipFirst(a[1..], s[1..]);
        assert a[1..] == s[2..];
      } else {
        SubsequenceReflexive(a);
      }
    }
  }

  /** `PATCH` refuses a missing id (or the falsy id 0) and a missing price. */
  predicate PatchValid(id: Option<int>, price: Option<real>)
  {
    id.Some? && id.value != 0 && price.Some?
  }

  /** The purchases after assigning the price of the first match: the first purchase
      with that id gets the new price, nothing else changes. */
  function SetPrice(purchases: seq<Purchase>, id: int, price: real): (r: seq<Purchase>)
    ensures |r| == |purchases|
    ensures forall i :: 0 <= i < |r| ==> r[i].id == purchases[i].id
    ensures FindFirst(purchases, (p: Purchase) => p.id == id).None? ==> r == purchases
    ensures FindFirst(purchases, (p: Purchase) => p.id == id).Some? ==>
              var k := FindFirst(purchases, (p: Purchase) => p.id == id).value;
              r[k] == purchases[k].(price := price)
              && forall i :: 0 <= i < |r| && i != k ==> r[i] == purchases[i]
  {
    match FindFirst(purchases, (p: Purchase) => p.id == id)
    case None => purchases
    case Some(k) => purchases[k := purchases[k].(price := price)]
  }

  /** `PATCH /api/data`: change a purchase's price. */
  function UpdatePrice(store: MemoryStore, remote: Remote, id: Option<int>, price: Option<real>): (r: Write)
    ensures !PatchValid(id, price) <==> r.reply == BadRequest
    ensures !PatchValid(id, price) || (remote.Answered? && remote.ok) ==> r.store == store
    ensures PatchValid(id, price) && !(remote.Answered? && remote.ok) ==>
              r.store == store.(purchases := SetPrice(store.purchases, id.value, price.value))
  {
    if !PatchValid(id, price) then Write(BadRequest, store)
    else if remote.Answered? && remote.ok then Write(Success, store)
    else Write(Success, store.(purchases := SetPrice(store.purchases, id.value, price.value)))
  }

  /** In a valid store a price update changes the price of the purchase with that
      id, keeps the store valid and leaves every other purchase as it was. */
  lemma UpdatePriceOnlyTouchesTarget(store: MemoryStore, remote: Remote, id: Option<int>, price: Option<real>)
    requires Valid(store)
    ensures var after := UpdatePrice(store, remote, id, price).store;
            && Valid(after)
            && after.trophies == store.trophies
            && |after.purchases| == |store.purchases|
            && forall i :: 0 <= i < |after.purchases| ==>
                 if PatchValid(id, price) && !(remote.Answered? && remote.ok) && store.purchases[i].id == id.value
                 then after.purchases[i] == store.purchases[i].(price := price.value)
                 else after.purchases[i] == store.purchases[i]
  {
    if PatchValid(id, price) && !(remote.Answered? && remote.ok) {
      var ps := store.purchases;
      match FindFirst(ps, (p: Purchase) => p.id == id.value)
      case None =>
      case Some(k) =>
        // ids are unique, so k is the only index carrying this id
        assert forall i :: 0 <= i < |ps| && ps[i].id == id.value ==> i == k;
    }
  }

  /** The trophies written by `PUT`, numbered from `next`. */
  function Stamp(rows: seq<TrophyRow>, next: int): (r: seq<Trophy>)
    ensures |r| == |rows|
    ensures forall i :: 0 <= i < |r| ==>
              r[i] == Trophy(next + i, rows[i].participantId, rows[i].month, rows[i].year, rows[i].position, rows[i].totalSpent)
  {
    seq(|rows|, i requires 0 <= i < |rows| =>
      Trophy(next + i, rows[i].participantId, rows[i].month, rows[i].year, rows[i].position, rows[i].totalSpent))
  }

  /** What `PUT` did: the trophy rows it wrote (to the database or the fallback
      store) and the store it leaves behind. */
  datatype Put = Put(written: seq<TrophyRow>, store: MemoryStore)

  /** `PUT /api/data`: close a month from rankings the browser computed. The
      positions are taken from the body as given. The database path is abandoned
      only if a request throws (modelled as throwing before the first write); any
      answer, OK or not, counts as done. */
  function CloseMonthPut(store: MemoryStore, remote: Remote, rankings: seq<RankEntry>, month: int, year: int): (r: Put)
    ensures r.written == MonthTrophies(rankings, month, year)
    // purchases are never deleted by a month close
    ensures r.store.purchases == store.purchases && r.store.nextPurchaseId == store.nextPurchaseId
    ensures remote.Answered? ==> r.store == store
    ensures !remote.Answered? ==>
              && r.store.trophies == store.trophies + Stamp(r.written, store.nextTrophyId)
              && r.store.nextTrophyId == store.nextTrophyId + |r.written|
  {
    var written := MonthTrophies(rankings, month, year);
    if remote.Answered? then Put(written, store)
    else
      Put(written, store.(trophies := store.trophies + Stamp(written, store.nextTrophyId),
                          nextTrophyId := store.nextTrophyId + |written|))
  }

  /** A month close keeps the store valid. */
  lemma CloseMonthPutPreservesValid(store: MemoryStore, remote: Remote, rankings: seq<RankEntry>, month: int, year: int)
    requires Valid(store)
    ensures Valid(CloseMonthPut(store, remote, rankings, month, year).store)
  {
    var r := CloseMonthPut(store, remote, rankings, month, year);
    if !remote.Answered? {
      var old_ := store.trophies;
      var all := r.store.trophies;
      assert forall i :: |old_| <= i < |all| ==> all[i].id == store.nextTrophyId + (i - |old_|);
      assert forall i :: 0 <= i < |old_| ==> all[i] == old_[i];
    }
  }

  /** Closing the same month twice in fallback mode writes every trophy twice:
      nothing checks the trophies already stored. */
  lemma CloseMonthTwiceDuplicates(store: MemoryStore, remote: Remote, rankings: seq<RankEntry>, month: int, year: int)
    requires !remote.Answered?
    requires |rankings| >= 2
    ensures var first := CloseMonthPut(store, remote, rankings, month, year);
            var second := CloseMonthPut(first.store, remote, rankings, month, year);
            && second.written == first.written
            && |first.written| >= 1
            && |second.store.trophies| == |store.trophies| + 2 * |first.written|
  {
  }

  /** A snapshot read from the database: the participant list and the purchase and
      trophy lists (None when their read was not OK, served as empty). */
  datatype Snapshot = Snapshot(participants: seq<ParticipantRow>, purchases: Option<seq<Purchase>>, trophies: Option<seq<Trophy>>)

  /** `GET /api/data`. `remote` is None when the database is not configured, the
      participant read is not OK, or a read throws. */
  function GetData(remote: Option<Snapshot>, store: MemoryStore): (r: seq<ParticipantView>)
    ensures remote.None? ==> |r| == |FallbackParticipants|
    ensures remote.None? ==> forall v :: v in r ==> Joined(v, store.purchases, store.trophies)
    ensures remote.Some? ==> |r| == |remote.value.participants|
    ensures remote.Some? ==>
              forall v :: v in r ==> Joined(v, remote.value.purchases.GetOr([]), remote.value.trophies.GetOr([]))
    ensures forall i, j :: 0 <= i < j < |r| ==> r[i].total >= r[j].total
    // exactly the participants read (or the fallback ones), each once, ties in read order
    ensures remote.None? ==>
              && multiset(r) == multiset(Views(FallbackParticipants, store.purchases, store.trophies))
              && forall t :: WithKey(r, ViewTotal, t) == WithKey(Views(FallbackParticipants, store.purchases, store.trophies), ViewTotal, t)
    ensures remote.Some? ==>
              var snap := remote.value;
              var views := Views(snap.participants, snap.purchases.GetOr([]), snap.trophies.GetOr([]));
              && multiset(r) == multiset(views)
              && forall t :: WithKey(r, ViewTotal, t) == WithKey(views, ViewTotal, t)
  {
    match remote
    case Some(snap) => BuildParticipantsWithPurchases(snap.participants, snap.purchases.GetOr([]), snap.trophies.GetOr([]))
    case None => BuildParticipantsWithPurchases(FallbackParticipants, store.purchases, store.trophies)
  }
}
