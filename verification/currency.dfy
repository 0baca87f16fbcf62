/** lib/currency.ts: conversion of store prices to US dollars through an exchange
    rate table cached for one hour. The module-level cache becomes an explicit
    `RateCache` value; the clock reading and the outcome of the refresh request
    are parameters. */
module Currency {
  import opened Common

  /** Units of each currency per US dollar, keyed by ISO code. */
  type RateTable = map<string, real>

  /** The cache lifetime: one hour in milliseconds. */
  const CacheTtl: int := 1000 * 60 * 60

  /** The table served when a refresh fails and nothing was ever cached. */
  const FallbackRates: RateTable := map[
    "USD" := 1.0, "UYU" := 43.0, "ARS" := 1200.0, "CLP" := 950.0, "COP" := 4200.0,
    "MXN" := 17.0, "BRL" := 5.0, "EUR" := 0.92, "GBP" := 0.79]

  /** The process-wide cache: the last table fetched (None before the first
      successful fetch) and the clock reading at that fetch. */
  datatype RateCache = RateCache(rates: Option<RateTable>, timestamp: int)

  /** The cache as the process starts. */
  const InitialCache := RateCache(None, 0)

  /** The cache can answer without a request at time `now`. */
  predicate Fresh(cache: RateCache, now: int)
  {
    cache.rates.Some? && now - cache.timestamp < CacheTtl
  }

  /** What one `getExchangeRates` call returns, the cache it leaves behind and
      whether it issued a request to the rate service. */
  datatype RateLookup = RateLookup(rates: RateTable, cache: RateCache, fetched: bool)

  /** `getExchangeRates` at clock reading `now` (milliseconds). `refresh` is what
      the rate service would answer if asked: Some(table) for an OK response,
      None for a failure; it is consulted only when the call fetches. */
  function GetExchangeRates(cache: RateCache, now: int, refresh: Option<RateTable>): (r: RateLookup)
    // a fresh cache is served as it is, with no request
    ensures Fresh(cache, now) ==> !r.fetched && r.cache == cache && r.rates == cache.rates.value
    // an empty or expired cache always triggers a request
    ensures !Fresh(cache, now) ==> r.fetched
    // a successful refresh is returned and stamped with the current time
    ensures r.fetched && refresh.Some? ==> r.rates == refresh.value && r.cache == RateCache(refresh, now)
    // a failed refresh keeps the cache untouched and degrades to the last table, else the fallback
    ensures r.fetched && refresh.None? ==> r.cache == cache
    ensures r.fetched && refresh.None? && cache.rates.Some? ==> r.rates == cache.rates.value
    ensures r.fetched && refresh.None? && cache.rates.None? ==> r.rates == FallbackRates
  {
    if Fresh(cache, now) then RateLookup(cache.rates.value, cache, false)
    else
      match refresh
      case Some(table) => RateLookup(table, RateCache(Some(table), now), true)
      case None => RateLookup(cache.rates.GetOr(FallbackRates), cache, true)
  }

  /** After a successful refresh at `t`, every call within the following hour is
      answered from the cache with the same table, whatever the service would say. */
  lemma RefreshServesForAnHour(cache: RateCache, t: int, table: RateTable, later: int, refresh: Option<RateTable>)
    requires !Fresh(cache, t)
    requires t <= later < t + CacheTtl
    ensures var first := GetExchangeRates(cache, t, Some(table));
            var second := GetExchangeRates(first.cache, later, refresh);
            !second.fetched && second.rates == table && second.cache == first.cache
  {
  }

  /** A failed refresh does not stamp the cache, so an expired cache stays expired
      and the next call at the same or a later time asks the service again. */
  lemma FailedRefreshRetries(cache: RateCache, t: int, later: int, refresh: Option<RateTable>)
    requires !Fresh(cache, t)
    requires t <= later
    ensures var first := GetExchangeRates(cache, t, None);
            GetExchangeRates(first.cache, later, refresh).fetched
  {
  }

  /** The fallback table prices the dollar at 1 and lists exactly nine currencies. */
  lemma FallbackTableContents()
    ensures FallbackRates["USD"] == 1.0
    ensures FallbackRates.Keys == {"USD", "UYU", "ARS", "CLP", "COP", "MXN", "BRL", "EUR", "GBP"}
    ensures forall c :: c in FallbackRates ==> FallbackRates[c] > 0.0
  {
  }

  /** `v` is a whole number of cents. */
  predicate WholeCents(v: real)
  {
    (v * 100.0).Floor as real == v * 100.0
  }

  /** Rounding to the cent: JavaScript's rounding of y is floor(y + 0.5). */
  function RoundToCent(x: real): (r: real)
    ensures WholeCents(r)
    ensures x - 0.005 < r <= x + 0.005
  {
    var k := (x * 100.0 + 0.5).Floor;
    assert (k as real / 100.0) * 100.0 == k as real;
    k as real / 100.0
  }

  /** The rounded value is the nearest whole cent; halfway values round up. */
  lemma RoundToCentIsNearest(x: real, c: real)
    requires WholeCents(c)
    ensures x - 0.005 < c <= x + 0.005 ==> c == RoundToCent(x)
    ensures c != RoundToCent(x) ==> c - x > 0.005 || x - c >= 0.005
  {
    var r := RoundToCent(x);
    var kc := (c * 100.0).Floor;
    var kr := (r * 100.0).Floor;
    assert kc as real == c * 100.0;
    assert kr as real == r * 100.0;
    if x - 0.005 < c <= x + 0.005 {
      // both integers lie in the half-open interval (100x - 0.5, 100x + 0.5]
      assert -1.0 < kc as real - kr as real < 1.0;
      assert kc == kr;
    }
  }

  /** Conversion is skipped for dollars, free games and zero amounts. */
  predicate PassThrough(amount: real, from: string)
  {
    from == "USD" || from == "FREE" || amount == 0.0
  }

  /** The dollar value of `amount` in currency `from` under the table `rates`: the
      quotient by the currency's rate, rounded to the cent; an unlisted currency or
      a zero rate leaves the amount unconverted. */
  function ConvertWith(amount: real, from: string, rates: RateTable): (r: real)
    ensures from !in rates || rates[from] == 0.0 ==> r == amount
    ensures from in rates && rates[from] != 0.0 ==>
              WholeCents(r) && amount / rates[from] - 0.005 < r <= amount / rates[from] + 0.005
  {
    if from !in rates || rates[from] == 0.0 then amount else RoundToCent(amount / rates[from])
  }

  /** What `convertToUSD` returns and the cache it leaves behind. */
  datatype Conversion = Conversion(amount: real, cache: RateCache, lookedUp: bool)

  /** `convertToUSD(amount, from)` with the rate lookup made at clock reading `now`
      against the rate service answer `refresh`. */
  function ConvertToUSD(amount: real, from: string, cache: RateCache, now: int, refresh: Option<RateTable>): (r: Conversion)
    // dollars, free games and zero amounts come back unchanged without a lookup
    ensures PassThrough(amount, from) ==> r == Conversion(amount, cache, false)
    ensures !PassThrough(amount, from) ==> r.lookedUp && r.cache == GetExchangeRates(cache, now, refresh).cache
    // an unknown currency or a zero rate leaves the amount unconverted
    ensures !PassThrough(amount, from) ==>
              var rates := GetExchangeRates(cache, now, refresh).rates;
              (from !in rates || rates[from] == 0.0) ==> r.amount == amount
    // otherwise the result is the exact quotient rounded to the nearest cent
    ensures !PassThrough(amount, from) ==>
              var rates := GetExchangeRates(cache, now, refresh).rates;
              from in rates && rates[from] != 0.0 ==>
                WholeCents(r.amount) && amount / rates[from] - 0.005 < r.amount <= amount / rates[from] + 0.005
    // in every case, the conversion under the table the lookup served
    ensures !PassThrough(amount, from) ==> r.amount == ConvertWith(amount, from, GetExchangeRates(cache, now, refresh).rates)
  {
    if PassThrough(amount, from) then Conversion(amount, cache, false)
    else
      var lookup := GetExchangeRates(cache, now, refresh);
      Conversion(ConvertWith(amount, from, lookup.rates), lookup.cache, true)
  }

  /** A price in whole cents stays in whole cents after conversion, whichever
      branch is taken. */
  lemma {:induction false} ConvertKeepsWholeCents(amount: real, from: string, cache: RateCache, now: int, refresh: Option<RateTable>)
    requires WholeCents(amount)
    ensures WholeCents(ConvertToUSD(amount, from, cache, now, refresh).amount)
  {
  }
}
