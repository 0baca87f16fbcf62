/** app/api/steam/sync/route.ts: library reconciliation. For each participant with
    a Steam id, the owned games are compared with the stored baseline
    `known_appids`; games not in the baseline are priced on the Steam store and, when
    they cost something, queued as pending purchases in dollars.

    The Steam Web API, the store and the exchange-rate service are the oracle
    `SyncEnv`. The new games of a run are numbered in the order they are priced,
    across participants; `clock(k)` and `rateService(k)` are the clock reading and
    the rate-service answer should the k-th one need them, which happens only when
    its price is converted from a currency other than dollars. Database writes are
    returned as values rather than performed. */
module SteamSync {
  import opened Common
  import opened Currency

  /** An entry of `GetOwnedGames`. */
  datatype OwnedGame = OwnedGame(appid: int, name: string)

  /** A participant row as the sync reads it. A null `steam_id` or `country_code`
      is written "", a null `known_appids` as []. */
  datatype SteamParticipant = SteamParticipant(
    id: int, name: string, steamId: string, countryCode: string, knownAppids: seq<int>)

  /** `price_overview` of a store entry; `final` is in minor units, `currency` is ""
      when the field is missing. */
  datatype PriceOverview = PriceOverview(final: int, currency: string)

  /** `data` of a store entry. */
  datatype AppData = AppData(isFree: bool, headerImage: string, priceOverview: Option<PriceOverview>)

  /** What the store's `appdetails` request produced: it threw, it answered non-OK,
      or it answered with the entry for the app (`success` false also covers a
      missing entry). */
  datatype StoreReply = NoAnswer | NotOk | Answer(success: bool, data: AppData)

  /** A resolved price: amount in major units, currency code and header image. */
  datatype PriceInfo = PriceInfo(price: real, currency: string, image: string)

  /** `getGamePrice`: free games resolve to (0, "FREE"); priced games to `final/100`
      in their currency, "USD" when none is given; every other answer to nothing. */
  function GetGamePrice(reply: StoreReply): (r: Option<PriceInfo>)
    // unknown: no OK answer, no successful entry, or a paid game without a price
    ensures r.None? <==>
              !reply.Answer? || !reply.success || (!reply.data.isFree && reply.data.priceOverview.None?)
    // free
    ensures r.Some? && reply.data.isFree ==> r.value == PriceInfo(0.0, "FREE", reply.data.headerImage)
    // priced: minor units to major units, currency defaulting to dollars
    ensures r.Some? && !reply.data.isFree ==>
              var po := reply.data.priceOverview.value;
              && r.value.price * 100.0 == po.final as real
              && r.value.currency == (if po.currency == "" then "USD" else po.currency)
              && r.value.image == reply.data.headerImage
    ensures r.Some? ==> WholeCents(r.value.price)
  {
    if !reply.Answer? || !reply.success then None
    else if reply.data.isFree then Some(PriceInfo(0.0, "FREE", reply.data.headerImage))
    else match reply.data.priceOverview
      case None => None
      case Some(po) =>
        var price := po.final as real / 100.0;
        assert price * 100.0 == po.final as real;
        Some(PriceInfo(price, if po.currency == "" then "USD" else po.currency, reply.data.headerImage))
  }

  /** A new game is counted as skipped rather than queued: no price data, a free
      game, or a price of zero. */
  predicate Skipped(info: Option<PriceInfo>)
  {
    info.None? || info.value.currency == "FREE" || info.value.price == 0.0
  }

  /** Only a successful answer for a paid game with a non-zero price is queued. */
  lemma QueuedExactlyWhenPaid(reply: StoreReply)
    ensures !Skipped(GetGamePrice(reply)) <==>
              && reply.Answer? && reply.success && !reply.data.isFree
              && reply.data.priceOverview.Some?
              && reply.data.priceOverview.value.final != 0
              && reply.data.priceOverview.value.currency != "FREE"
  {
  }

  /** The outside world a sync talks to. */
  datatype SyncEnv = SyncEnv(
    ownedGames: string -> seq<OwnedGame>,      // GetOwnedGames per Steam id, [] on a failed request
    store: (int, string) -> StoreReply,        // appdetails per (appid, country code)
    clock: nat -> int,                         // Date.now() when the k-th new game is converted
    rateService: nat -> Option<RateTable>)     // the rate service's answer for the k-th new game

  /** The country used for store prices: the participant's, else "US". */
  function Country(p: SteamParticipant): string
  {
    if p.countryCode == "" then "US" else p.countryCode
  }

  function Lookup(env: SyncEnv, cc: string, g: OwnedGame): Option<PriceInfo>
  {
    GetGamePrice(env.store(g.appid, cc))
  }

  /** The games of `games` whose lookup yields a queueable price, in order. */
  function PricedGames(games: seq<OwnedGame>, env: SyncEnv, cc: string): seq<OwnedGame>
  {
    Filter(games, (g: OwnedGame) => !Skipped(Lookup(env, cc, g)))
  }

  /** A row of `insertPendingPurchases`. */
  datatype PendingRow = PendingRow(participantId: int, appid: int, name: string, image: string, price: real, currency: string)

  /** The outcome of pricing a participant's new games: the rows to queue, the
      number skipped, and the rate cache and lookup counter afterwards. */
  datatype Pricing = Pricing(pending: seq<PendingRow>, skipped: nat, cache: RateCache, tick: nat)

  /** A rate table a lookup of the run can serve when the cache held `start` as the
      run began: the fallback table, the table cached then, or an answer of the
      rate service. */
  ghost predicate Served(rates: RateTable, start: RateCache, env: SyncEnv)
  {
    || rates == FallbackRates
    || start.rates == Some(rates)
    || exists k: nat :: env.rateService(k) == Some(rates)
  }

  /** Whatever `cache` holds was served by the run begun with `start`. */
  ghost predicate CacheFrom(cache: RateCache, start: RateCache, env: SyncEnv)
  {
    cache.rates.Some? ==> Served(cache.rates.value, start, env)
  }

  /** A lookup made for the k-th new game serves a table of the run and leaves a
      cache of the run behind. */
  lemma LookupServed(cache: RateCache, start: RateCache, env: SyncEnv, k: nat)
    requires CacheFrom(cache, start, env)
    ensures var lookup := GetExchangeRates(cache, env.clock(k), env.rateService(k));
            Served(lookup.rates, start, env) && CacheFrom(lookup.cache, start, env)
  {
    var lookup := GetExchangeRates(cache, env.clock(k), env.rateService(k));
    if lookup.fetched && env.rateService(k).Some? {
      assert env.rateService(k) == Some(lookup.rates);
    }
  }

  /** `row` is the pending row queued for game `g`: its ids, name and image, and
      the store price in dollars, whole cents. A dollar price is copied as it is;
      any other is converted under a rate table the run can serve. */
  ghost predicate RowFor(pid: int, env: SyncEnv, cc: string, start: RateCache, g: OwnedGame, row: PendingRow)
  {
    && Lookup(env, cc, g).Some?
    && var info := Lookup(env, cc, g).value;
    && row.participantId == pid
    && row.appid == g.appid
    && row.name == g.name
    && row.image == info.image
    && row.currency == "USD"
    && WholeCents(row.price)
    && (PassThrough(info.price, info.currency) ==> row.price == info.price)
    && (!PassThrough(info.price, info.currency) ==>
          exists rates :: Served(rates, start, env) && row.price == ConvertWith(info.price, info.currency, rates))
  }

  /** The row queued for a priced game, with the rate cache after its conversion. */
  function QueueRow(pid: int, g: OwnedGame, info: PriceInfo, cache: RateCache, now: int, refresh: Option<RateTable>): (r: (PendingRow, RateCache))
    requires WholeCents(info.price)
    ensures r.0 == PendingRow(pid, g.appid, g.name, info.image, r.0.price, "USD")
    ensures WholeCents(r.0.price)
    // a dollar price is queued as it is, without a rate lookup
    ensures PassThrough(info.price, info.currency) ==> r.0.price == info.price && r.1 == cache
    // any other price is converted under the table the lookup serves
    ensures !PassThrough(info.price, info.currency) ==>
              var lookup := GetExchangeRates(cache, now, refresh);
              r.0.price == ConvertWith(info.price, info.currency, lookup.rates) && r.1 == lookup.cache
  {
    var usd := ConvertToUSD(info.price, info.currency, cache, now, refresh);
    ConvertKeepsWholeCents(info.price, info.currency, cache, now, refresh);
    (PendingRow(pid, g.appid, g.name, info.image, usd.amount, "USD"), usd.cache)
  }

  /** The loop over the new games (lines 153-171): each game is either skipped or
      yields exactly one pending row priced in dollars. */
  function PriceNewGames(pid: int, games: seq<OwnedGame>, cc: string, env: SyncEnv, cache: RateCache, tick: nat, start: RateCache): (r: Pricing)
    requires CacheFrom(cache, start, env)
    ensures |r.pending| + r.skipped == |games|
    ensures r.tick == tick + |games|
    ensures RowsFor(pid, env, cc, start, PricedGames(games, env, cc), r.pending)
    ensures CacheFrom(r.cache, start, env)
    decreases |games|
  {
    if |games| == 0 then Pricing([], 0, cache, tick)
    else
      var g := games[0];
      var info := Lookup(env, cc, g);
      PricedGamesCons(games, env, cc);
      if Skipped(info) then
        var rest := PriceNewGames(pid, games[1..], cc, env, cache, tick + 1, start);
        Pricing(rest.pending, rest.skipped + 1, rest.cache, rest.tick)
      else
        var (row, cache') := QueueRow(pid, g, info.value, cache, env.clock(tick), env.rateService(tick));
        QueuedRowIsFor(pid, env, cc, start, g, cache, tick);
        var rest := PriceNewGames(pid, games[1..], cc, env, cache', tick + 1, start);
        RowsForCons(pid, env, cc, start, g, PricedGames(games[1..], env, cc), row, rest.pending);
        Pricing([row] + rest.pending, rest.skipped, rest.cache, rest.tick)
  }

  /** `rows` are the rows queued for `games`, one for one and in order. */
  ghost predicate RowsFor(pid: int, env: SyncEnv, cc: string, start: RateCache, games: seq<OwnedGame>, rows: seq<PendingRow>)
  {
    && |rows| == |games|
    && forall i :: 0 <= i < |rows| ==> RowFor(pid, env, cc, start, games[i], rows[i])
  }

  lemma RowsForCons(
    pid: int, env: SyncEnv, cc: string, start: RateCache,
    g: OwnedGame, games: seq<OwnedGame>, row: PendingRow, rows: seq<PendingRow>)
    requires RowFor(pid, env, cc, start, g, row)
    requires RowsFor(pid, env, cc, start, games, rows)
    ensures RowsFor(pid, env, cc, start, [g] + games, [row] + rows)
  {
    assert forall i :: 1 <= i < |rows| + 1 ==> ([row] + rows)[i] == rows[i - 1] && ([g] + games)[i] == games[i - 1];
  }

  /** The row queued for the k-th new game is its row, and the cache stays one of the run. */
  lemma QueuedRowIsFor(pid: int, env: SyncEnv, cc: string, start: RateCache, g: OwnedGame, cache: RateCache, k: nat)
    requires CacheFrom(cache, start, env)
    requires Lookup(env, cc, g).Some?
    ensures var q := QueueRow(pid, g, Lookup(env, cc, g).value, cache, env.clock(k), env.rateService(k));
            RowFor(pid, env, cc, start, g, q.0) && CacheFrom(q.1, start, env)
  {
    var info := Lookup(env, cc, g).value;
    var lookup := GetExchangeRates(cache, env.clock(k), env.rateService(k));
    LookupServed(cache, start, env, k);
    var q := QueueRow(pid, g, info, cache, env.clock(k), env.rateService(k));
    if !PassThrough(info.price, info.currency) {
      assert Served(lookup.rates, start, env) && q.0.price == ConvertWith(info.price, info.currency, lookup.rates);
    }
  }

  lemma PricedGamesCons(games: seq<OwnedGame>, env: SyncEnv, cc: string)
    requires |games| > 0
    ensures PricedGames(games, env, cc)
            == (if !Skipped(Lookup(env, cc, games[0])) then [games[0]] else []) + PricedGames(games[1..], env, cc)
  {
  }

  /** The app ids of a game list, in order (the baseline a sync writes). */
  function AppIds(games: seq<OwnedGame>): (r: seq<int>)
    ensures |r| == |games|
    ensures forall i :: 0 <= i < |r| ==> r[i] == games[i].appid
  {
    seq(|games|, i requires 0 <= i < |games| => games[i].appid)
  }

  /** The owned games whose app id is not in the baseline, in owned order. */
  function NewGames(owned: seq<OwnedGame>, known: seq<int>): (r: seq<OwnedGame>)
    ensures forall g :: g in r <==> g in owned && g.appid !in known
    ensures Subsequence(r, owned)
  {
    Filter(owned, (g: OwnedGame) => g.appid !in known)
  }

  /** One participant's line of the sync report. */
  datatype SyncReport = SyncReport(participant: string, newGames: nat, skippedFree: nat, firstSync: bool)

  /** What the sync did for one participant: its report line, the baseline it
      wrote (`updateKnownAppIds`, None when not written) and the batch it inserted
      (None when no insert was sent). */
  datatype ParticipantSync = ParticipantSync(report: SyncReport, baseline: Option<seq<int>>, inserted: Option<seq<PendingRow>>)

  /** The reconciliation rules for one participant, stated independently of the
      loop: what is written and reported given the owned library and the baseline. */
  ghost predicate Reconciled(p: SteamParticipant, env: SyncEnv, start: RateCache, s: ParticipantSync)
  {
    var owned := env.ownedGames(p.steamId);
    var known := p.knownAppids;
    && s.report.participant == p.name
    // an empty library (private profile or failed request): nothing written
    && (|owned| == 0 ==> s == ParticipantSync(SyncReport(p.name, 0, 0, false), None, None))
    // first sync: the baseline becomes the library, nothing is queued
    && (|owned| > 0 && |known| == 0 ==>
          s == ParticipantSync(SyncReport(p.name, 0, 0, true), Some(AppIds(owned)), None))
    // steady state
    && (|owned| > 0 && |known| > 0 ==>
          && !s.report.firstSync
          && (s.baseline.Some? <==> exists g :: g in owned && g.appid !in known)
          && (s.baseline.Some? ==> s.baseline.value == AppIds(owned))
          && s.report.newGames + s.report.skippedFree == |NewGames(owned, known)|
          // one row per priced new game, in library order, each its queued row
          && s.report.newGames == |PricedGames(NewGames(owned, known), env, Country(p))|
          && RowsFor(p.id, env, Country(p), start, PricedGames(NewGames(owned, known), env, Country(p)), s.inserted.GetOr([]))
          && (s.inserted.Some? <==> s.report.newGames > 0)
          && (s.inserted.Some? ==>
                && |s.inserted.value| == s.report.newGames
                // each row is the queued row of a new game, priced as the store priced it
                && (forall row :: row in s.inserted.value ==>
                      exists g :: g in owned && g.appid !in known && RowFor(p.id, env, Country(p), start, g, row))
                && (forall g :: g in owned && g.appid !in known && !Skipped(Lookup(env, Country(p), g)) <==>
                      exists row :: row in s.inserted.value && row.appid == g.appid && row.name == g.name)))
  }

  /** A participant's outcome together with the rate cache and lookup counter after it. */
  datatype Step = Step(sync: ParticipantSync, cache: RateCache, tick: nat)

  /** One iteration of the participant loop (lines 117-177). */
  function SyncParticipant(p: SteamParticipant, env: SyncEnv, cache: RateCache, tick: nat, start: RateCache): (r: Step)
    requires CacheFrom(cache, start, env)
    ensures Reconciled(p, env, start, r.sync)
    ensures CacheFrom(r.cache, start, env)
    ensures r.tick >= tick
  {
    var owned := env.ownedGames(p.steamId);
    if |owned| == 0 then Step(ParticipantSync(SyncReport(p.name, 0, 0, false), None, None), cache, tick)
    else if |p.knownAppids| == 0 then
      Step(ParticipantSync(SyncReport(p.name, 0, 0, true), Some(AppIds(owned)), None), cache, tick)
    else
      var unseen := NewGames(owned, p.knownAppids);
      if |unseen| == 0 then
        assert forall g :: g in owned ==> g.appid in p.knownAppids;
        Step(ParticipantSync(SyncReport(p.name, 0, 0, false), None, None), cache, tick)
      else
        assert unseen[0] in owned;
        var pass := PriceNewGames(p.id, unseen, Country(p), env, cache, tick, start);
        var inserted := if |pass.pending| == 0 then None else Some(pass.pending);
        var s := ParticipantSync(SyncReport(p.name, |pass.pending|, pass.skipped, false), Some(AppIds(owned)), inserted);
        QueuedRowsMatchGames(p, env, unseen, pass.pending);
        QueuedRowsArePriced(p, env, start, unseen, pass.pending);
        Step(s, pass.cache, pass.tick)
  }

  /** The rows built for the priced new games name exactly those games. */
  lemma QueuedRowsMatchGames(p: SteamParticipant, env: SyncEnv, unseen: seq<OwnedGame>, pending: seq<PendingRow>)
    requires unseen == NewGames(env.ownedGames(p.steamId), p.knownAppids)
    requires |pending| == |PricedGames(unseen, env, Country(p))|
    requires forall i :: 0 <= i < |pending| ==>
               pending[i].appid == PricedGames(unseen, env, Country(p))[i].appid
               && pending[i].name == PricedGames(unseen, env, Country(p))[i].name
    ensures forall g :: g in env.ownedGames(p.steamId) && g.appid !in p.knownAppids && !Skipped(Lookup(env, Country(p), g)) <==>
              exists row :: row in pending && row.appid == g.appid && row.name == g.name
  {
    var owned := env.ownedGames(p.steamId);
    var priced := PricedGames(unseen, env, Country(p));
    forall g ensures g in owned && g.appid !in p.knownAppids && !Skipped(Lookup(env, Country(p), g)) <==>
                     exists row :: row in pending && row.appid == g.appid && row.name == g.name {
      if g in owned && g.appid !in p.knownAppids && !Skipped(Lookup(env, Country(p), g)) {
        assert g in priced;
        var i :| 0 <= i < |priced| && priced[i] == g;
        assert pending[i] in pending;
      }
      if exists row :: row in pending && row.appid == g.appid && row.name == g.name {
        var row :| row in pending && row.appid == g.appid && row.name == g.name;
        var i :| 0 <= i < |pending| && pending[i] == row;
        assert priced[i] in priced;
        assert priced[i] == OwnedGame(g.appid, g.name) == g;
      }
    }
  }

  /** Each row built for the priced new games is the queued row of a new game. */
  lemma QueuedRowsArePriced(p: SteamParticipant, env: SyncEnv, start: RateCache, unseen: seq<OwnedGame>, pending: seq<PendingRow>)
    requires unseen == NewGames(env.ownedGames(p.steamId), p.knownAppids)
    requires |pending| == |PricedGames(unseen, env, Country(p))|
    requires forall i :: 0 <= i < |pending| ==> RowFor(p.id, env, Country(p), start, PricedGames(unseen, env, Country(p))[i], pending[i])
    ensures forall row :: row in pending ==>
              exists g :: g in env.ownedGames(p.steamId) && g.appid !in p.knownAppids && RowFor(p.id, env, Country(p), start, g, row)
  {
    var priced := PricedGames(unseen, env, Country(p));
    forall row | row in pending
      ensures exists g :: g in env.ownedGames(p.steamId) && g.appid !in p.knownAppids && RowFor(p.id, env, Country(p), start, g, row)
    {
      var i :| 0 <= i < |pending| && pending[i] == row;
      assert priced[i] in priced;
      assert priced[i] in unseen;
    }
  }

  /** The participants the loop processes: those with a Steam id (the others are skipped). */
  function WithSteamId(ps: seq<SteamParticipant>): seq<SteamParticipant>
  {
    Filter(ps, (p: SteamParticipant) => p.steamId != "")
  }

  /** Each outcome of `results` reconciles the participant at the same place of `ps`. */
  ghost predicate AllReconciled(ps: seq<SteamParticipant>, env: SyncEnv, start: RateCache, results: seq<ParticipantSync>)
    decreases |ps|
  {
    && |results| == |ps|
    && (|ps| > 0 ==> Reconciled(ps[0], env, start, results[0]) && AllReconciled(ps[1..], env, start, results[1..]))
  }

  /** The loop over the participants, threading the rate cache and the new-game
      counter; `start` is the cache as the run began. */
  function SyncAll(ps: seq<SteamParticipant>, env: SyncEnv, cache: RateCache, tick: nat, start: RateCache): (r: (seq<ParticipantSync>, RateCache))
    requires CacheFrom(cache, start, env)
    ensures AllReconciled(WithSteamId(ps), env, start, r.0)
    ensures CacheFrom(r.1, start, env)
    decreases |ps|
  {
    if |ps| == 0 then ([], cache)
    else
      assert WithSteamId(ps) == (if ps[0].steamId != "" then [ps[0]] else []) + WithSteamId(ps[1..]);
      if ps[0].steamId == "" then SyncAll(ps[1..], env, cache, tick, start)
      else
        var step := SyncParticipant(ps[0], env, cache, tick, start);
        var rest := SyncAll(ps[1..], env, step.cache, step.tick, start);
        assert ([ps[0]] + WithSteamId(ps[1..]))[1..] == WithSteamId(ps[1..]);
        assert ([step.sync] + rest.0)[1..] == rest.0;
        ([step.sync] + rest.0, rest.1)
  }

  /** The sync's result: the participant read failed, or the per-participant outcomes. */
  datatype SyncOutcome = SyncFailed | Synced(results: seq<ParticipantSync>)

  /** `syncSteamLibraries`. `participants` is the participant read, None when it
      is not OK. Returns the outcome and the rate cache afterwards. */
  function SyncSteamLibraries(participants: Option<seq<SteamParticipant>>, env: SyncEnv, cache: RateCache): (r: (SyncOutcome, RateCache))
    // a failed read aborts before any participant is processed
    ensures participants.None? ==> r == (SyncFailed, cache)
    ensures participants == Some([]) ==> r == (Synced([]), cache)
    ensures participants.Some? ==>
              && r.0.Synced?
              && AllReconciled(WithSteamId(participants.value), env, cache, r.0.results)
    // the cache left behind holds only the tables it held or the rate service gave
    ensures participants.Some? ==> CacheFrom(r.1, cache, env)
  {
    match participants
    case None => (SyncFailed, cache)
    case Some(ps) =>
      if |ps| == 0 then (Synced([]), cache)
      else
        var (results, cache') := SyncAll(ps, env, cache, 0, cache);
        (Synced(results), cache')
  }

  /** When every owned app id is in the baseline there are no new games. */
  lemma {:induction false} NothingNewWhenAllKnown(owned: seq<OwnedGame>, known: seq<int>)
    requires forall g :: g in owned ==> g.appid in known
    ensures NewGames(owned, known) == []
    decreases |owned|
  {
    if |owned| > 0 {
      assert owned[0] in owned;
      NothingNewWhenAllKnown(owned[1..], known);
    }
  }

  /** Games that vanished from the library stay in the baseline while no new game
      appears: nothing is rewritten. */
  lemma VanishedGamesStayKnown(p: SteamParticipant, env: SyncEnv, start: RateCache, s: ParticipantSync)
    requires Reconciled(p, env, start, s)
    requires |p.knownAppids| > 0
    requires forall g :: g in env.ownedGames(p.steamId) ==> g.appid in p.knownAppids
    ensures s.baseline.None? && s.inserted.None?
  {
  }

  /** Syncing again with the baseline just written, against the same library,
      finds no new games and writes nothing: reconciliation is quiet once caught up. */
  lemma ResyncIsQuiet(p: SteamParticipant, env: SyncEnv, start: RateCache, start': RateCache, s: ParticipantSync, s': ParticipantSync)
    requires Reconciled(p, env, start, s)
    requires s.baseline.Some?
    requires Reconciled(p.(knownAppids := s.baseline.value), env, start', s')
    ensures s'.baseline.None? && s'.inserted.None? && s'.report == SyncReport(p.name, 0, 0, false)
  {
    var owned := env.ownedGames(p.steamId);
    assert |owned| > 0;
    assert s.baseline.value == AppIds(owned);
    assert owned[0].appid in AppIds(owned);
    forall g | g in owned ensures g.appid in AppIds(owned) {
      var i :| 0 <= i < |owned| && owned[i] == g;
    }
    NothingNewWhenAllKnown(owned, AppIds(owned));
  }
}
