# rankingSteam in Dafny

rankingSteam is a small web app that ranks a group of friends by how much they
spend on Steam games each month. Purchases are entered by an admin or detected
from the Steam libraries. Pending detections are approved or rejected. At the
end of each month the top three spenders get trophies and the last one gets a
shame mark.

This project models the decision and transformation rules inside the app's HTTP
handlers and its ranking hook as pure Dafny functions over immutable records:

- `Auth` (`auth.dfy`): the admin password check.
- `Currency` (`currency.dfy`): the one-hour exchange-rate cache and the conversion
  to dollars rounded to the cent.
- `Constants` (`constants.dfy`): month names, rank titles, trophy icons and medals.
- `Ranking` (`ranking.dfy`): the stable sort by spending total, largest first;
  positions 1..n; the trophies a closed month hands out.
- `CloseMonth` (`close_month.dfy`): the scheduled month close with its bearer
  token guard and previous-month arithmetic.
- `RankingExamples` (`ranking_examples.dfy`): a worked example of the ranking.
- `DataRoute` (`data_route.dfy`): the participants view, and the purchase and trophy
  writes with their in-process fallback store.
- `PendingRoute` (`pending_route.dfy`): listing, approving and rejecting detected
  purchases.
- `SteamSync` (`steam_sync.dfy`): library reconciliation against the `known_appids`
  baseline, store price classification, and queueing priced new games in dollars.
- `SyncReturns` (`sync_returns.dfy`): deleting purchases whose game has left the
  owner's baseline.
- `UseRanking` (`use_ranking.dfy`): what the page sends and the local state it
  keeps when closing a month, adding a game, approving, rejecting and repricing.
- `Common` and `Records` (`common.dfy`, `records.dfy`): `Option`, filtering,
  sums, and the table rows.

Every outside effect is an argument of the function that models its handler:

- the answer of each database or Steam request;
- the clock reading;
- the confirmation dialog;
- the id the database assigns.

The module-level mutable state becomes an explicit value threaded through the
calls. This covers the fallback arrays and their id counters (`MemoryStore`) and
the rate cache (`RateCache`). Prices are JavaScript numbers, modelled as `real`.
`Math.round(y)` is `floor(y + 0.5)`.

## Model

| member | source | states |
|---|---|---|
| Auth.Login | app/api/auth/route.ts:7-17 | an unset or empty admin password fails every login with 500; success (200) exactly when the submitted password equals the configured one; any other input is refused with 401 |
| Auth.NoTrimming | app/api/auth/route.ts:13 | a password with one extra character, on either side of the comparison, is refused: no trimming |
| Auth.NoCaseFolding | app/api/auth/route.ts:13 | any attempt that differs from the configured password only in the ASCII case of its letters is refused with 401: no case folding |
| Auth.CaseVariantExample | app/api/auth/route.ts:13 | "admin" and "Admin" have the same lower-case form, yet "admin" is refused when the password is "Admin" |
| Currency.GetExchangeRates | lib/currency.ts:1-22 | a cache younger than one hour is served with no request; an empty or expired cache always asks the service; a successful refresh is returned and stamped with the current time; a failed one leaves the cache untouched and serves the last table, or the fallback when there is none |
| Currency.RefreshServesForAnHour | lib/currency.ts:3-17 | after a successful refresh at t, every call before t + 3,600,000 ms is answered from the cache with that table, whatever the service would say |
| Currency.FailedRefreshRetries | lib/currency.ts:16-21 | a failed refresh does not stamp the cache, so the next call asks the service again |
| Currency.FallbackTableContents | lib/currency.ts:20 | the fallback table prices USD at 1, lists exactly USD, UYU, ARS, CLP, COP, MXN, BRL, EUR and GBP, and every rate is positive |
| Currency.RoundToCent | lib/currency.ts:31 | the result is a whole number of cents within half a cent of the input: x - 0.005 < r <= x + 0.005 |
| Currency.RoundToCentIsNearest | lib/currency.ts:31 | the rounded value is the only whole-cent value in (x - 0.005, x + 0.005]: it is the nearest cent, and halves round up |
| Currency.ConvertWith | lib/currency.ts:27-31 | under a given table, an unlisted currency or a zero rate leaves the amount unchanged; otherwise the result is a whole number of cents within half a cent of amount/rate |
| Currency.ConvertToUSD | lib/currency.ts:24-32 | USD, FREE and zero amounts come back unchanged with no rate lookup; otherwise the amount is converted under the table the lookup serves: unchanged for an unknown currency or a zero rate, else amount/rate rounded to the nearest cent |
| Currency.ConvertKeepsWholeCents | lib/currency.ts:24-32 | a price in whole cents is still in whole cents after conversion, on every branch |
| Constants.MonthName | components/ranking/constants.tsx:3-6 | every month 1..12 has a non-empty name, from Enero to Diciembre |
| Constants.RankTitle | components/ranking/constants.tsx:8-18 | a title exactly for indices 0..4, the empty string for every other index |
| Constants.TrophyIcon | components/ranking/constants.tsx:20-26 | an icon exactly for positions 1, 2, 3 and 5; the cockroach exactly for 5 |
| Constants.TrophyIconsDistinct | components/ranking/constants.tsx:20-26 | distinct displayable positions get distinct icons |
| Constants.TrophyAndMedalAgree | components/ranking/constants.tsx:20-40 | podium position k and ranking row k - 1 are drawn in the same colour: gold, silver, bronze |
| Constants.MedalFor | components/ranking/constants.tsx:28-40 | a medal exactly for indices 0..2 (gold for 0); every other index shows the number index + 1 |
| Ranking.SortDesc | app/api/cron/close-month/route.ts:50 | the sort is a permutation of its input, ordered by key, largest first |
| Ranking.SortDescStableAll | app/api/cron/close-month/route.ts:50 | the sort is stable: for every key value, the elements with that value appear in input order |
| Ranking.Rank | app/api/cron/close-month/route.ts:43-51 | one line per standing, in the order of the largest-first sort of the standings, with positions exactly 1..n in sorted order and totals never increasing |
| Ranking.RankIsStablePermutation | app/api/cron/close-month/route.ts:50 | the ranking holds every standing exactly as often as the input does, and for every total the lines with that total keep their input order |
| Ranking.RankTotalsAreSums | app/api/cron/close-month/route.ts:43-49 | one ranking line per participant id, and each total is the sum of that participant's purchase prices |
| Ranking.PodiumTrophies | app/api/cron/close-month/route.ts:53-73 | exactly one podium trophy per line among the first three with a positive total, in ranking order with no other entry: the trophy of such a line i sits at the index given by the number of spending lines before it, and carries its participant, position and total |
| Ranking.ShameTrophy | app/api/cron/close-month/route.ts:75-94 | a shame trophy (position 5) exactly when there are two lines or more, for the last line whatever its total |
| Ranking.MonthTrophies | app/api/cron/close-month/route.ts:53-94 | at most four trophies for the month; none for an empty ranking; for one line exactly its podium trophy, or none when it has not spent; for two lines or more the podium trophies followed by exactly one shame trophy |
| Ranking.PodiumIsConsecutive | app/api/cron/close-month/route.ts:51-73 | for a ranking numbered 1..n and sorted largest first, the podium positions are exactly 1, 2, ..., k with k <= 3, each with a positive total |
| Ranking.NoPodiumWithoutSpending | app/api/cron/close-month/route.ts:54-55 | when no line has a positive total, the podium built from the lines is empty |
| CloseMonth.OnlyTheBearerSecretAuthorizes | app/api/cron/close-month/route.ts:8-11 | with the secret set, exactly the header "Bearer " + secret is accepted |
| CloseMonth.UnsetSecretAcceptsLiteralUndefined | app/api/cron/close-month/route.ts:9 | with the secret unset, exactly the header "Bearer undefined" is accepted |
| CloseMonth.PreviousMonth | app/api/cron/close-month/route.ts:14-16 | the closed month is always in 1..12: January closes December of the previous year, any other month the one before it in the same year |
| CloseMonth.PreviousMonthPrecedesNow | app/api/cron/close-month/route.ts:15-16 | the month after the closed one is the current month, for every current month |
| CloseMonth.CloseOver | app/api/cron/close-month/route.ts:42-94 | the ranking is a permutation of the participants' standings (each total the participant's purchase sum), largest total first with equal totals in participant order, positions 1..n; the trophies are well formed (every spending line among the first three gets its podium trophy with its total, the shame trophy carries the last total) and carry the closed month and year |
| CloseMonth.CloseMonth | app/api/cron/close-month/route.ts:6-104 | a wrong header gives 401 before anything else; missing configuration gives 500; a participant read that is not a list, or a purchase read that is not a list when there are participants, fails, and so does a read that throws; every other authorized, configured run closes the previous month, and the close is exactly the one computed over the rows read (no purchases when none were read), with well-formed trophies |
| CloseMonth.ClosedMonthIsWellFormed | app/api/cron/close-month/route.ts:51-94 | for a ranking numbered 1..n and sorted largest first, the trophies are podium positions 1..k (k <= 3), the k-th for the k-th line with its total, and every spending line among the first three has one; then one shame trophy for the last line, with its total, iff n >= 2; every position is displayable |
| CloseMonth.PodiumFollowsRanking | app/api/cron/close-month/route.ts:54-73 | the k-th podium trophy belongs to the k-th ranking line and carries its total, and every line among the first three that spent has one |
| RankingExamples.RankingExample | app/api/cron/close-month/route.ts:43-51 | three participants with totals 30, 10 and 30 rank first, third, second with positions 1..3: the higher total moves up and the tie keeps input order |
| DataRoute.BuildParticipantsWithPurchases | app/api/data/route.ts:22-34 | one view per participant; each view's purchases and trophies are exactly the rows with its id, and its total is their price sum; the output is a permutation of the participants, largest total first, ties in input order |
| DataRoute.GetData | app/api/data/route.ts:36-89 | with the database unreadable, the fallback participants joined with the fallback store; otherwise the database participants joined with the purchase and trophy reads, a failed read counting as empty; either way the answer is a permutation of those views, largest total first, equal totals in participant order |
| DataRoute.InitialStoreValid | app/api/data/route.ts:7-10 | the empty store with both counters at 1 satisfies the id invariant |
| DataRoute.AddPurchase | app/api/data/route.ts:91-127 | always succeeds; when the database does not take the write, exactly one purchase with the body's fields and the current counter as id is appended, and the counter advances |
| DataRoute.AddPurchasePreservesValid | app/api/data/route.ts:118-125 | adding keeps purchase ids unique and increasing and below the counter; the new id was used by no stored purchase |
| DataRoute.RemoveFirst | app/api/data/route.ts:151-152 | the first purchase with the id is spliced out; an unknown id leaves the list as it was |
| DataRoute.DeletePurchase | app/api/data/route.ts:129-154 | a missing id gives 400 and changes nothing; otherwise success, with the fallback store losing the first purchase with that id when the database does not take the delete |
| DataRoute.DeleteRemovesExactlyThatId | app/api/data/route.ts:151-153 | in a valid store, the purchases left are exactly those with another id, in order, and the store stays valid |
| DataRoute.SetPrice | app/api/data/route.ts:184-185 | the first purchase with the id gets the new price; every other purchase and every id is unchanged; an unknown id changes nothing |
| DataRoute.UpdatePrice | app/api/data/route.ts:157-187 | a missing or zero id, or a missing price, gives 400 and changes nothing; an OK database answer leaves the fallback store alone; otherwise the price is set in the fallback store |
| DataRoute.UpdatePriceOnlyTouchesTarget | app/api/data/route.ts:184-186 | in a valid store only the purchase with that id changes price; the trophies, the other purchases and validity are preserved |
| DataRoute.CloseMonthPut | app/api/data/route.ts:190-276 | the trophies written are the month's podium and shame trophies for the rankings as sent, with the positions as sent; purchases are never touched; in fallback mode they are appended with consecutive ids from the counter |
| DataRoute.CloseMonthPutPreservesValid | app/api/data/route.ts:248-273 | a month close keeps the fallback store's ids unique, increasing and below the counters |
| DataRoute.CloseMonthTwiceDuplicates | app/api/data/route.ts:249-273 | closing the same month of two ranking lines or more twice in fallback mode writes the same non-empty trophy list twice: nothing checks what is stored |
| PendingRoute.ListPending | app/api/steam/pending/route.ts:15-26 | the empty list, with no request, when the database is not configured; the empty list when the read is answered with an error; the database's rows when it answers OK; a 500 answer exactly when the read throws |
| PendingRoute.ListingShowsTheQueue | app/api/steam/pending/route.ts:20-25 | with the database configured, an OK read is listed as the same rows in the same order, and an error answer as the empty list |
| PendingRoute.Approved | app/api/steam/pending/route.ts:38-42 | the inserted purchase carries the body's fields; a missing price becomes 0 |
| PendingRoute.Approve | app/api/steam/pending/route.ts:29-55 | a missing or zero id, a missing or zero participant_id, or a missing or empty game_name gives 400 with no write; a failed insert gives 500 and writes nothing; once the insert is taken the purchase exists whatever follows; the row leaves the queue only if the delete is answered OK; a delete that throws turns the answer into 500, otherwise the answer is success |
| PendingRoute.ApprovalMovesTheRow | app/api/steam/pending/route.ts:38-54 | with unique ids and both writes OK, the row leaves the queue, a purchase with its fields and the approved price appears, every other pending row stays, and the two tables keep their combined size |
| PendingRoute.FailedDeleteLetsApprovalRepeat | app/api/steam/pending/route.ts:44-54 | when the delete after the insert is refused, the approval still succeeds, the row stays queued, and approving it again inserts a second purchase |
| PendingRoute.ThrownDeleteHidesTheInsert | app/api/steam/pending/route.ts:44-52 | when the delete after the insert throws, the approval answers 500 although the purchase was inserted and the row is still queued, so a retry inserts it twice |
| PendingRoute.Reject | app/api/steam/pending/route.ts:58-73 | only an absent or empty id is refused with 400; a failed delete gives 500 and changes nothing; otherwise the rows whose id has that text leave the queue and purchases are untouched |
| PendingRoute.RejectRemovesThatId | app/api/steam/pending/route.ts:60-66 | rejecting by the decimal text of an id removes exactly the rows with that id |
| PendingRoute.ZeroIdIsRejectableButNotApprovable | app/api/steam/pending/route.ts:33-35 | id 0 is refused by approval (a falsy number) but accepted by rejection (the text "0" is not empty) |
| SteamSync.GetGamePrice | app/api/steam/sync/route.ts:40-65 | nothing for a non-OK answer, an unsuccessful entry, or a paid game without price_overview; (0, FREE) for a free game; otherwise final/100 in the given currency, USD when none, always in whole cents |
| SteamSync.QueuedExactlyWhenPaid | app/api/steam/sync/route.ts:154-156 | a new game is queued exactly when the store answered successfully for a paid game with a non-zero final price in a currency other than FREE |
| SteamSync.NewGames | app/api/steam/sync/route.ts:139-140 | the new games are exactly the owned games whose app id is not in the baseline, in owned order |
| SteamSync.PriceNewGames | app/api/steam/sync/route.ts:149-171 | every new game is either skipped or yields exactly one pending row, so queued + skipped = new games; the rows are the priced games in order, with their ids, names and images, currency USD and prices in whole cents: a dollar price as the store gave it, any other converted under a rate table the run can serve; the rate cache left behind holds only such tables |
| SteamSync.QueueRow | app/api/steam/sync/route.ts:157-168 | the row carries the participant, app id, name and image, currency USD; a dollar price is queued as it is with the cache unchanged; any other is converted under the table the rate lookup serves, which leaves its cache behind |
| SteamSync.LookupServed | lib/currency.ts:3-22 | a rate lookup made during a sync serves the fallback table, the table cached when the sync began or an answer of the rate service, and caches nothing else |
| SteamSync.QueuedRowsMatchGames | app/api/steam/sync/route.ts:153-168 | a queued row exists for an owned game exactly when it is new and priced |
| SteamSync.QueuedRowsArePriced | app/api/steam/sync/route.ts:153-168 | each queued row is the row of an owned game not in the baseline, with that game's store price in dollars |
| SteamSync.SyncParticipant | app/api/steam/sync/route.ts:117-177 | an empty library writes nothing and reports 0/0/not first; an empty baseline becomes the library with nothing queued and first_sync; otherwise the baseline is rewritten with the whole library exactly when some game is new, new_games + skipped_free is the number of new games, new_games is the number of priced new games, an insert is sent exactly when something was queued, and the rows inserted are, one for one and in library order, the rows of the priced new games, each with the store's price in dollars (as given, or converted under a rate table the run can serve) |
| SteamSync.SyncSteamLibraries | app/api/steam/sync/route.ts:98-181 | a failed participant read is an error with nobody processed; an empty list is a success with no results; otherwise one reconciled result per participant with a Steam id, in order, every queued price converted under the fallback table, the table cached when the run began, or an answer of the rate service; the cache left behind holds only such a table |
| SteamSync.NothingNewWhenAllKnown | app/api/steam/sync/route.ts:140-145 | when every owned app id is in the baseline there are no new games |
| SteamSync.VanishedGamesStayKnown | app/api/steam/sync/route.ts:142-145 | when no game is new the baseline is not rewritten, so games that left the library stay in it, and nothing is inserted |
| SteamSync.ResyncIsQuiet | app/api/steam/sync/route.ts:127-145 | syncing again against the baseline a sync just wrote, with the same library, finds nothing new and writes nothing |
| SyncReturns.WithAppid | app/api/steam/sync-returns/route.ts:31-56 | the purchase reads keep exactly the rows with an app id |
| SyncReturns.DeleteReturned | app/api/steam/sync-returns/route.ts:66-98 | for one participant and one table a delete is planned exactly for its rows whose app id is not in its baseline, each with how its request ends |
| SyncReturns.SweepIsExact | app/api/steam/sync-returns/route.ts:61-99 | a row of either table is deleted exactly when some participant with a baseline owns it and its app id is not in that baseline; each request ends as its table's oracle says |
| SyncReturns.PlanCoversReturns | app/api/steam/sync-returns/route.ts:31-99 | a confirmed or pending purchase that was read gets a delete request exactly when its owner returned it, and every request is for a row that was read and ends as its table's oracle says |
| SyncReturns.UntilThrow | app/api/steam/sync-returns/route.ts:71-102 | the requests sent are a prefix of the plan: all of it when none throws, otherwise up to and including the first that throws |
| SyncReturns.Send | app/api/steam/sync-returns/route.ts:71-102 | with no throwing request the whole plan is sent and the report lists the deletions answered OK per table; otherwise the run aborts having sent the plan up to and including its first throwing request |
| SyncReturns.Removed | app/api/steam/sync-returns/route.ts:71-98 | one table's report lists exactly its deletions answered OK; refused ones are silently dropped |
| SyncReturns.DetectReturns | app/api/steam/sync-returns/route.ts:14-109 | missing configuration, and only that, gives the configuration 500; a participant or purchase read that fails or throws, or a pending read that throws, gives 500 with no deletion; a pending read answered with an error counts as an empty table; the requests follow the plan in order; a throwing delete ends in 500 with the later deletes never sent; otherwise every planned delete is sent and the report lists the ones answered OK |
| SyncReturns.CheckedDeletesExactlyReturns | app/api/steam/sync-returns/route.ts:31-99 | when the check completes, a confirmed or pending purchase read was sent a delete exactly when its owner returned it |
| SyncReturns.NoBaselineNoDeletions | app/api/steam/sync-returns/route.ts:61-64 | a participant without a baseline loses no row of either table |
| SyncReturns.OwnedGamesSurvive | app/api/steam/sync-returns/route.ts:67-69 | a row whose game is still in its owner's baseline is never deleted, and neither is a row without an app id |
| SyncReturns.QueuedGamesAreNotReturns | app/api/steam/sync-returns/route.ts:83-85 | a pending row a library sync queued is never taken for a return against the baseline that sync wrote |
| UseRanking.CloseMonthRequest | components/ranking/use-ranking.ts:131-153 | nothing is sent unless the dialog is confirmed; the rankings keep the displayed order and totals with position index + 1, and the month sent is getMonth() + 1, always in 1..12 |
| UseRanking.ClientCloseIsWellFormed | components/ranking/use-ranking.ts:131-152 | closing from the list the page shows yields well-formed trophies in the fallback store: podium 1..k for the leading lines that spent, one shame trophy iff two lines or more, every position displayable |
| UseRanking.SortedCloseIsWellFormed | components/ranking/use-ranking.ts:135-139 | the same for any participant list sorted by total, largest first |
| UseRanking.ButtonAndCronCloseDifferentMonths | components/ranking/use-ranking.ts:132-134 | for the same clock reading, the button closes the current month and the scheduled close the one before it |
| UseRanking.AddGameRequest | components/ranking/use-ranking.ts:90-124 | nothing is sent without a selected participant; the price is the custom price when given, else priceNum; an admin posts a purchase, anyone else a suggestion with the participant, the game's app id, name and image, and the game's currency (USD when empty) |
| UseRanking.AdminAdditionLands | components/ranking/use-ranking.ts:94-106 | an admin's addition that lands in the fallback store is a purchase of the selected participant at the chosen price |
| UseRanking.ApproveLocally | components/ranking/use-ranking.ts:166-182 | the approval sends the pending row's id, participant, game name, app id and image, with the custom price when given, else the pending price; the page's list loses exactly the entries with that id |
| UseRanking.ApprovalKeepsPageInStep | components/ranking/use-ranking.ts:166-181 | when both writes succeed, the page's list equals the server's queue afterwards and the purchase carries the approved price |
| UseRanking.FailedApprovalHidesRow | components/ranking/use-ranking.ts:168-180 | when the insert fails the server keeps the row but the page drops it |
| UseRanking.RejectLocally | components/ranking/use-ranking.ts:184-187 | the rejection sends the id's decimal text, and the page's list loses exactly the entries with that id |
| UseRanking.RejectionKeepsPageInStep | components/ranking/use-ranking.ts:184-187 | after a successful rejection the page's list and the server's queue hold the same rows |
| UseRanking.Reprice | components/ranking/use-ranking.ts:196-198 | every purchase with the id gets the new price, every other one is unchanged |
| UseRanking.UpdatePriceLocally | components/ranking/use-ranking.ts:189-207 | with no participant open nothing changes locally; otherwise the open participant keeps its fields, its purchases are repriced and its total is their price sum |
| UseRanking.RepricedTotal | components/ranking/use-ranking.ts:195-204 | with unique purchase ids the new total is the old total with the one price swapped, and the local edit agrees with the fallback store's price update |

## Left out

- Network, JSON and HTTP plumbing are not modelled: requests, headers, response
  bodies and logging. Each request's outcome is a parameter: an `Option`, a
  `bool`, the `Remote`/`StoreReply` answers, or the oracle functions of `SyncEnv`.
- `getOwnedGames` (app/api/steam/sync/route.ts:29-38) is the oracle
  `SyncEnv.ownedGames`. A failed request is its empty answer.
- Timing is left out: the 250 ms pause between store lookups and the handler's
  `maxDuration`.
- The clock is a parameter. In the sync, the clock and the rate service are read
  through oracles indexed by the place of a new game in the run; only the
  conversion of a price in a currency other than dollars consults them.
- Floating point is not modelled. Prices are exact reals. `Number(...)` coercion,
  `NaN` and string prices are outside the model.
- The `POST` wrapper of the sync route (lines 185-200) is not modelled: the 500
  answers for a missing Steam key or database configuration, and for a thrown
  error. The model starts at `syncSteamLibraries`.
- Some writes have their answers ignored by the source: the sync's baseline update
  and pending insert, the cron's trophy posts, the approval's delete. For the sync
  and the cron these are modelled as the requests sent. For the approval the delete
  outcome decides whether the row leaves the queue; the reply is success unless the
  delete throws.
- A request that throws midway through a sequence of writes is modelled as
  throwing before the first one for the database path of `PUT /api/data`, which
  then falls back to memory. The approval and the return check model a throw
  where it happens.
- SteamSync.SyncSteamLibraries: a throw inside the run (the library request or
  its JSON parse, the participant read's JSON parse, the baseline or pending
  writes) is not modelled; it aborts the run after the earlier participants'
  writes have landed, and the wrapper answers 500.
- CloseMonth: a trophy post that throws is not modelled; the handler would answer
  500 after the earlier posts were written. A read that throws is modelled.
- The pending approve and reject handlers do not check the database configuration.
  Without it their request throws and the framework answers 500. This is the
  `insertOk` false case of the approval (a thrown delete is `WriteThrew`) and the
  `deleteOk` false case of the rejection.
- DataRoute.UpdatePrice: a JSON `null` price passes the `undefined` check and is
  stored as null; prices are reals here, so a null price is outside the model.
- SteamSync.RowFor: a converted price is stated to use some table the run can
  serve (the fallback, the table cached at the start, or a rate-service answer),
  not the one table the cache holds at that moment; the exact table is stated per
  call by `QueueRow`.
- The database's parsing of `id=eq.<text>` filters is modelled as comparison with
  the decimal text of the row id, so texts such as "007" are not modelled.
  `DELETE /api/data`'s `Number(id)` is modelled as an optional integer.
- The server-side ordering of the pending list by `detected_at` is not modelled.
  `ListPending` returns the database's answer as it is.
- The sync's participant query filters on `steam_id` and the loop re-checks it.
  Both are modelled together as `WithSteamId`.
- A rate service answer that is OK but has no `rates` field is not modelled.
- Concurrency is not modelled: two requests sharing the module-level store or
  rate cache at once.
- Some `use-ranking.ts` actions are not modelled, being only fetches and state
  setters: `handleLogin`, `searchGames`, `fetchParticipants`/`fetchPending` (a
  non-array answer becomes []), `handleRemovePurchase` and `handleSyncSteam`.
- The suggestion request of `handleAddGame` is a `PUT` to the pending route. That
  route defines only `GET`, `POST` and `DELETE`, so the model stops at the request.
- The React components, the Steam search route, the scheduled sync route and the
  type declarations are not part of this model.
