/**
 * The in-memory response cache (`useApiCache`): a map from derived keys to
 * timestamped entries, lazy eviction on read, a sweep of old entries when
 * the map grows past 100 entries and every five minutes, per-endpoint
 * lifetimes, and `cachedFetch` with forced refresh and stale-on-error.
 *
 * Time is the explicit argument `now` (milliseconds, as `Date.now()`);
 * the network call is the abstract outcome `Transport`.
 */
module ApiCache {
  import opened Wrappers
  import opened JsStrings
  import opened JsValues
  import opened CacheKey
  import opened Http

  const Minute: int := 60 * 1000

  /** Default lifetimes per endpoint family. */
  const ToolsTtl: int := 7 * Minute
  const CategoriesTtl: int := 10 * Minute
  const SubmissionsTtl: int := 5 * Minute
  const FeaturedTtl: int := 8 * Minute
  const ContactTtl: int := 5 * Minute

  /** A write that leaves more entries than this triggers a sweep. */
  const MaxEntries: int := 100

  /** A cached response: the data, when it was stored, and its lifetime in milliseconds. */
  datatype Entry = Entry(data: JsValue, timestamp: int, ttl: int)

  type Store = map<string, Entry>

  /** A read may return an entry strictly younger than its lifetime. */
  function IsValid(e: Entry, now: int): (valid: bool)
    ensures valid <==> now < e.timestamp + e.ttl
    // Reads and sweeps disagree only at the instant the lifetime ends.
    ensures valid <==> !IsStale(e, now) && now != e.timestamp + e.ttl
  {
    now - e.timestamp < e.ttl
  }

  /** Both sweeps remove an entry strictly older than its lifetime. */
  function IsStale(e: Entry, now: int): (stale: bool)
    ensures stale <==> e.timestamp + e.ttl < now
  {
    now - e.timestamp > e.ttl
  }

  /** What a read returns, and the store it leaves behind. */
  datatype Lookup = Lookup(hit: Option<JsValue>, store: Store)

  /** `getFromCache`: the data of a valid entry; an expired entry is deleted on the way. */
  function GetFromCache(store: Store, key: string, now: int): (r: Lookup)
    ensures r.hit.Some? <==> key in store && IsValid(store[key], now)
    ensures r.hit.Some? ==> r.hit.value == store[key].data
    ensures key in r.store <==> key in store && IsValid(store[key], now)
    ensures forall k :: k != key ==> (k in r.store <==> k in store)
    ensures forall k :: k in r.store ==> r.store[k] == store[k]
  {
    if key !in store then Lookup(None, store)
    else if IsValid(store[key], now) then Lookup(Some(store[key].data), store)
    else Lookup(None, store - {key})
  }

  /** The sweep body shared by `setCache` and the five-minute interval. */
  function Sweep(store: Store, now: int): (r: Store)
    ensures forall k :: k in r <==> k in store && !IsStale(store[k], now)
    ensures forall k :: k in r ==> r[k] == store[k]
  {
    map k | k in store && !IsStale(store[k], now) :: store[k]
  }

  /** A valid entry is never swept. */
  lemma SweepKeepsValid(store: Store, now: int, key: string)
    requires key in store && IsValid(store[key], now)
    ensures key in Sweep(store, now) && Sweep(store, now)[key] == store[key]
  {
  }

  /**
   * An entry whose age equals its lifetime is invalid for reads, yet neither
   * sweep removes it: only a read of its key does.
   */
  lemma BoundaryEntryInvalidButNotSwept(store: Store, now: int, key: string)
    requires key in store && now - store[key].timestamp == store[key].ttl
    ensures !IsValid(store[key], now)
    ensures key in Sweep(store, now)
    ensures key !in GetFromCache(store, key, now).store
  {
  }

  /**
   * `setCache`: replace the whole entry, stamped `now`; if that leaves more than
   * `MaxEntries` entries, sweep.
   */
  function SetCache(store: Store, key: string, data: JsValue, ttl: int, now: int): (r: Store)
    ensures ttl >= 0 ==> key in r && r[key] == Entry(data, now, ttl)
    ensures forall k :: k in r ==> k == key || k in store
    ensures forall k :: k in r && k != key ==> r[k] == store[k]
    ensures forall k :: k in store && k != key && !IsStale(store[k], now) ==> k in r
    ensures |store[key := Entry(data, now, ttl)]| <= MaxEntries ==> r == store[key := Entry(data, now, ttl)]
    ensures |store[key := Entry(data, now, ttl)]| > MaxEntries ==> r == Sweep(store[key := Entry(data, now, ttl)], now)
  {
    var written := store[key := Entry(data, now, ttl)];
    if |written| > MaxEntries then Sweep(written, now) else written
  }

  /** A write followed at once by a read of the same key returns the written data when the lifetime is positive. */
  lemma SetThenGet(store: Store, key: string, data: JsValue, ttl: int, now: int)
    requires ttl > 0
    ensures GetFromCache(SetCache(store, key, data, ttl, now), key, now).hit == Some(data)
  {
  }

  /** Once the lifetime has elapsed, a read misses and deletes the entry. */
  lemma GetAfterExpiry(store: Store, key: string, data: JsValue, ttl: int, now: int, later: int)
    requires ttl >= 0 && later - now >= ttl
    ensures var r := GetFromCache(SetCache(store, key, data, ttl, now), key, later);
            r.hit == None && key !in r.store
  {
  }

  // ---------------------------------------------------------------------
  // Lifetimes
  // ---------------------------------------------------------------------

  /** The endpoint table, in the order the checks are made. */
  const TtlTable: seq<(string, int)> := [
    ("/tools", ToolsTtl),
    ("/categories", CategoriesTtl),
    ("/submissions", SubmissionsTtl),
    ("/featured", FeaturedTtl),
    ("/contact", ContactTtl)
  ]

  /** Reference reading of the table: the lifetime of the first row whose fragment occurs in `url`. */
  function FirstMatch(table: seq<(string, int)>, url: string, fallback: int): int {
    if |table| == 0 then fallback
    else if Includes(url, table[0].0) then table[0].1
    else FirstMatch(table[1..], url, fallback)
  }

  /** `getTTL`: a non-zero custom lifetime wins; otherwise the first endpoint fragment found; otherwise the tools lifetime. */
  function GetTTL(url: string, customTtl: Option<int>): (r: int)
    ensures customTtl.Some? && customTtl.value != 0 ==> r == customTtl.value
    ensures customTtl.None? || customTtl.value == 0 ==>
              r in {ToolsTtl, CategoriesTtl, SubmissionsTtl, FeaturedTtl, ContactTtl}
  {
    if customTtl.Some? && customTtl.value != 0 then customTtl.value
    else if Includes(url, "/tools") then ToolsTtl
    else if Includes(url, "/categories") then CategoriesTtl
    else if Includes(url, "/submissions") then SubmissionsTtl
    else if Includes(url, "/featured") then FeaturedTtl
    else if Includes(url, "/contact") then ContactTtl
    else ToolsTtl
  }

  /** Without a usable custom lifetime, `GetTTL` is the first match in `TtlTable`, defaulting to the tools lifetime. */
  lemma GetTTLFollowsTable(url: string, customTtl: Option<int>)
    requires customTtl.None? || customTtl.value == 0
    ensures GetTTL(url, customTtl) == FirstMatch(TtlTable, url, ToolsTtl)
    ensures GetTTL(url, customTtl) > 0
  {
    var t := TtlTable;
    assert FirstMatch(t, url, ToolsTtl) == if Includes(url, "/tools") then ToolsTtl else FirstMatch(t[1..], url, ToolsTtl);
    assert FirstMatch(t[1..], url, ToolsTtl) == if Includes(url, "/categories") then CategoriesTtl else FirstMatch(t[2..], url, ToolsTtl);
    assert FirstMatch(t[2..], url, ToolsTtl) == if Includes(url, "/submissions") then SubmissionsTtl else FirstMatch(t[3..], url, ToolsTtl);
    assert FirstMatch(t[3..], url, ToolsTtl) == if Includes(url, "/featured") then FeaturedTtl else FirstMatch(t[4..], url, ToolsTtl);
    assert FirstMatch(t[4..], url, ToolsTtl) == if Includes(url, "/contact") then ContactTtl else FirstMatch(t[5..], url, ToolsTtl);
    assert t[5..] == [];
  }

  // ---------------------------------------------------------------------
  // cachedFetch
  // ---------------------------------------------------------------------

  /** The per-call cache configuration; an absent configuration is `CacheConfig(None, None, false)`. */
  datatype CacheConfig = CacheConfig(ttl: Option<int>, key: Option<string>, force: bool)

  /** The parts of the request options the cache looks at. */
  datatype RequestOptions = RequestOptions(verb: Option<string>, params: Option<seq<Param>>)

  /** What the underlying `$fetch` does if it is called: resolve with a body or reject with an error. */
  datatype Transport = Respond(body: JsValue) | Reject(error: JsValue)

  /** The result of `cachedFetch`, the store it leaves, and whether the transport was called. */
  datatype FetchOutcome = FetchOutcome(result: Result<JsValue, JsValue>, store: Store, called: bool)

  predicate WellFormedOptions(options: RequestOptions) {
    options.params.Some? ==> DistinctKeys(options.params.value)
  }

  /** The cache key of a GET: a non-empty custom key, else the derived one. */
  function KeyFor(url: string, options: RequestOptions, config: CacheConfig, escape: string -> string): (k: string)
    requires WellFormedOptions(options)
    ensures config.key.Some? && config.key.value != "" ==> k == config.key.value
    ensures config.key.None? || config.key.value == "" ==> k == GenerateCacheKey(url, options.params, escape)
  {
    if config.key.Some? && config.key.value != "" then config.key.value
    else GenerateCacheKey(url, options.params, escape)
  }

  /**
   * A non-empty custom key names the entry whatever the URL and parameters;
   * an empty one counts as absent, as `||` treats `""`.
   */
  lemma CustomKeyOverridesUrl(url1: string, options1: RequestOptions, url2: string, options2: RequestOptions,
                              config: CacheConfig, escape: string -> string)
    requires WellFormedOptions(options1) && WellFormedOptions(options2)
    ensures config.key.Some? && config.key.value != "" ==>
              KeyFor(url1, options1, config, escape) == KeyFor(url2, options2, config, escape)
    ensures KeyFor(url1, options1, config.(key := Some("")), escape) == KeyFor(url1, options1, config.(key := None), escape)
  {
  }

  function TransportResult(t: Transport): Result<JsValue, JsValue> {
    match t
    case Respond(body) => Ok(body)
    case Reject(e) => Err(e)
  }

  /**
   * `cachedFetch(url, options, config)`, as one atomic step: the cache is read
   * at `now`, and a successful response is stored at `doneAt`, the time the
   * awaited call completes.
   */
  function CachedFetch(store: Store, url: string, options: RequestOptions, config: CacheConfig,
                       escape: string -> string, now: int, doneAt: int, transport: Transport): (r: FetchOutcome)
    requires WellFormedOptions(options)
    // Only GET is cached; every other method goes straight to the transport.
    ensures EffectiveMethod(options.verb) != "GET" ==>
              r == FetchOutcome(TransportResult(transport), store, true)
    // The transport is skipped exactly when a non-forced GET finds a valid entry with truthy data.
    ensures !r.called <==>
              var key := KeyFor(url, options, config, escape);
              && EffectiveMethod(options.verb) == "GET" && !config.force
              && key in store && IsValid(store[key], now) && Truthy(store[key].data)
    ensures !r.called ==>
              var key := KeyFor(url, options, config, escape);
              r.result == Ok(store[key].data) && r.store == store
    // A fresh response is returned and stored under the key with the endpoint's lifetime.
    ensures EffectiveMethod(options.verb) == "GET" && r.called && transport.Respond? ==>
              var key := KeyFor(url, options, config, escape);
              var ttl := GetTTL(url, config.ttl);
              && r.result == Ok(transport.body)
              && (ttl >= 0 ==> key in r.store && r.store[key] == Entry(transport.body, doneAt, ttl))
              && r.store == SetCache(if config.force then store else GetFromCache(store, key, now).store,
                                     key, transport.body, ttl, doneAt)
    // On failure, whatever entry is still under the key is served; without one the error propagates.
    ensures EffectiveMethod(options.verb) == "GET" && transport.Reject? ==>
              var key := KeyFor(url, options, config, escape);
              && r.store == (if config.force then store else GetFromCache(store, key, now).store)
              && (key in r.store ==> r.result == Ok(r.store[key].data))
              && (key !in r.store ==> r.result == Err(transport.error))
  {
    if EffectiveMethod(options.verb) != "GET" then
      FetchOutcome(TransportResult(transport), store, true)
    else
      var key := KeyFor(url, options, config, escape);
      var ttl := GetTTL(url, config.ttl);
      var lookup := if config.force then Lookup(None, store) else GetFromCache(store, key, now);
      if lookup.hit.Some? && Truthy(lookup.hit.value) then
        FetchOutcome(Ok(lookup.hit.value), lookup.store, false)
      else
        match transport
        case Respond(body) =>
          FetchOutcome(Ok(body), SetCache(lookup.store, key, body, ttl, doneAt), true)
        case Reject(e) =>
          if key in lookup.store then FetchOutcome(Ok(lookup.store[key].data), lookup.store, true)
          else FetchOutcome(Err(e), lookup.store, true)
  }

  /** `force` always reaches the transport, whatever the cache holds. */
  lemma ForceAlwaysCallsTransport(store: Store, url: string, options: RequestOptions, config: CacheConfig,
                                  escape: string -> string, now: int, doneAt: int, transport: Transport)
    requires WellFormedOptions(options) && config.force
    ensures CachedFetch(store, url, options, config, escape, now, doneAt, transport).called
  {
  }

  /**
   * Without `force`, the stale fallback can only serve an entry that was still
   * valid at `now` (one whose data is falsy): an expired entry has already been
   * evicted by the read, so the failure propagates.
   */
  lemma StaleFallbackWithoutForce(store: Store, url: string, options: RequestOptions, config: CacheConfig,
                                  escape: string -> string, now: int, doneAt: int, error: JsValue)
    requires WellFormedOptions(options) && !config.force
    requires EffectiveMethod(options.verb) == "GET"
    ensures var key := KeyFor(url, options, config, escape);
            var r := CachedFetch(store, url, options, config, escape, now, doneAt, Reject(error));
            && (r.result.Ok? <==> key in store && IsValid(store[key], now))
            && (r.result.Ok? ==> r.result.value == store[key].data)
            && (r.called && r.result.Ok? ==> !Truthy(r.result.value))
  {
  }

  /** With `force`, a failure serves any entry under the key, however old. */
  lemma StaleFallbackWithForce(store: Store, url: string, options: RequestOptions, config: CacheConfig,
                               escape: string -> string, now: int, doneAt: int, error: JsValue)
    requires WellFormedOptions(options) && config.force
    requires EffectiveMethod(options.verb) == "GET"
    ensures var key := KeyFor(url, options, config, escape);
            var r := CachedFetch(store, url, options, config, escape, now, doneAt, Reject(error));
            && r.store == store
            && (key in store ==> r.result == Ok(store[key].data))
            && (key !in store ==> r.result == Err(error))
  {
  }

  /**
   * Two GETs in a row with the same key and nothing cached before: the first
   * reaches the transport; after it succeeds with truthy data and a positive
   * lifetime, a second call inside that lifetime is served from the cache
   * without calling the transport.
   */
  lemma SecondFetchServedFromCache(store: Store, url: string, options: RequestOptions, config: CacheConfig,
                                   escape: string -> string, now: int, doneAt: int, body: JsValue,
                                   now2: int, doneAt2: int, transport2: Transport)
    requires WellFormedOptions(options) && !config.force
    requires EffectiveMethod(options.verb) == "GET"
    requires KeyFor(url, options, config, escape) !in store
    requires Truthy(body) && GetTTL(url, config.ttl) > 0
    requires now2 - doneAt < GetTTL(url, config.ttl)
    ensures var first := CachedFetch(store, url, options, config, escape, now, doneAt, Respond(body));
            var second := CachedFetch(first.store, url, options, config, escape, now2, doneAt2, transport2);
            first.called && !second.called && second.result == Ok(body)
  {
    var key := KeyFor(url, options, config, escape);
    var first := CachedFetch(store, url, options, config, escape, now, doneAt, Respond(body));
    assert key in first.store && first.store[key] == Entry(body, doneAt, GetTTL(url, config.ttl));
  }

  // ---------------------------------------------------------------------
  // Invalidation
  // ---------------------------------------------------------------------

  /** The characters `clearCache` escapes before building its regular expression. */
  predicate IsSyntaxChar(c: char) {
    c in ".*+?^${}()|[]\\"
  }

  /** `pattern.replace(/[.*+?^${}()|[\]\\]/g, "\\$&")`. */
  function EscapeRegExp(p: string): (r: string)
    ensures |r| >= |p|
  {
    if |p| == 0 then ""
    else (if IsSyntaxChar(p[0]) then ['\\', p[0]] else [p[0]]) + EscapeRegExp(p[1..])
  }

  /**
   * Reads a regular-expression source made only of literal atoms (a plain
   * character, or a backslash before a syntax character) as the string it
   * matches; any other construct gives `None`.
   */
  function LiteralOf(r: string): Option<string> {
    if |r| == 0 then Some("")
    else if r[0] == '\\' then
      if |r| >= 2 && IsSyntaxChar(r[1]) then
        match LiteralOf(r[2..])
        case Some(rest) => Some([r[1]] + rest)
        case None => None
      else None
    else if IsSyntaxChar(r[0]) then None
    else
      match LiteralOf(r[1..])
      case Some(rest) => Some([r[0]] + rest)
      case None => None
  }

  /** The escaped pattern is a regular expression that matches exactly the original string, literally. */
  lemma {:induction false} EscapedPatternIsLiteral(p: string)
    ensures LiteralOf(EscapeRegExp(p)) == Some(p)
  {
    if |p| > 0 {
      EscapedPatternIsLiteral(p[1..]);
      var head: string := if IsSyntaxChar(p[0]) then ['\\', p[0]] else [p[0]];
      var e := head + EscapeRegExp(p[1..]);
      assert e == EscapeRegExp(p);
      if IsSyntaxChar(p[0]) {
        assert e[2..] == EscapeRegExp(p[1..]);
      } else {
        assert e[1..] == EscapeRegExp(p[1..]);
      }
      assert p == [p[0]] + p[1..];
    }
  }

  /**
   * `clearCache(pattern)` with a string pattern: no pattern or `""` empties the
   * store; otherwise exactly the keys containing the pattern are removed.
   */
  function ClearCache(store: Store, pattern: Option<string>): (r: Store)
    ensures pattern.None? || pattern.value == "" ==> r == map[]
    ensures pattern.Some? && pattern.value != "" ==>
              forall k :: k in r <==> k in store && !Includes(k, pattern.value)
    ensures forall k :: k in r ==> r[k] == store[k]
  {
    match pattern
    case None => map[]
    case Some(p) =>
      if p == "" then map[]
      else map k | k in store && !Includes(k, p) :: store[k]
  }

  /** `invalidateCache(endpoint)`: removes every key that contains `endpoint`; `""` empties the store. */
  function InvalidateCache(store: Store, endpoint: string): (r: Store)
    ensures forall k :: k in r <==> k in store && !Includes(k, endpoint)
    ensures forall k :: k in r ==> r[k] == store[k]
  {
    IncludesEmptyEverywhere();
    ClearCache(store, Some(endpoint))
  }

  lemma IncludesEmptyEverywhere()
    ensures forall k :: Includes(k, "")
  {
    forall k ensures Includes(k, "") {
      IncludesEmpty(k);
    }
  }

  // ---------------------------------------------------------------------
  // Statistics
  // ---------------------------------------------------------------------

  datatype CacheStats = CacheStats(totalEntries: nat, validEntries: nat, expiredEntries: nat, cacheKeys: set<string>)

  /** `getCacheStats`: every entry is counted once, as valid or as expired (the read-side test). */
  function GetCacheStats(store: Store, now: int): (r: CacheStats)
    ensures r.totalEntries == |store| && r.cacheKeys == store.Keys
    ensures r.validEntries + r.expiredEntries == r.totalEntries
    ensures r.validEntries == |set k | k in store && IsValid(store[k], now)|
    ensures r.expiredEntries == |set k | k in store && !IsValid(store[k], now)|
  {
    var valid := set k | k in store && IsValid(store[k], now);
    var expired := set k | k in store && !IsValid(store[k], now);
    assert valid + expired == store.Keys;
    assert valid !! expired;
    CacheStats(|store|, |valid|, |expired|, store.Keys)
  }
}
