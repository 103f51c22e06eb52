# Directory front end: cache, filters, input security and request plugin

This project is a Dafny model of the client-side core of a Nuxt directory site. The model covers:

- **the API response cache** (`useApiCache`):
  - cache keys built from a URL and its query parameters;
  - per-endpoint lifetimes;
  - `cachedFetch`, including its stale-on-error fallback;
  - pattern invalidation, statistics and the periodic sweep.
- **the debounced filter controller** (`useDebouncedFilters`):
  - filter state and its change detection;
  - the debounce and max-wait timers;
  - the keyword setters;
  - the URL query round trip.
- **the input-security helpers** (`useSecurity`): `sanitizeSearch`, `validateEmail`, `checkRateLimit` and `validateFormData`.
- **the request plugin** (`api.client`):
  - the headers every request carries;
  - CSRF token capture;
  - the reaction to 401, 403 and 429.

Everything is pure functions over immutable values:

- **State.** The cache `Map`, the rate-limit `Map`, the filter refs and the browser stores become records. Each operation takes the old record and returns the new one.
- **Time.** `Date.now()` is an explicit `now` argument. `cachedFetch` also receives `doneAt`, the time its awaited call completes.
- **Timers.** A timer is a deadline stored in the controller. `Tick(c, now)` fires whichever deadline is due.
- **Transport.** The network call is an abstract `Transport` outcome, `Respond(body)` or `Reject(error)`. `CachedFetch` reports whether it used it.
- **Encoding.** `URLSearchParams` percent-encoding is a parameter `escape`.

JavaScript behaviour the model spells out:

- truthiness, `typeof` and `String(v)`;
- `validateFormData` compares `rules.type` with the `typeof` result, and its messages include the limit numbers as decimal text;
- the email pattern's whitespace class is the ECMAScript `\s` set;
- the default `Array.prototype.sort` order, as lexicographic order on characters (it differs from the UTF-16 code-unit order only for characters above U+FFFF; see "Left out");
- ECMAScript `trim` whitespace and `includes`;
- own-property enumeration order: array-index keys such as `"10"` are emitted first, in numeric order, by the object `generateCacheKey` builds;
- a negative `setTimeout` delay behaves as 0.

Modules:

| file | module | contents |
|---|---|---|
| `wrappers.dfy` | `Wrappers` | `Option`, `Result` |
| `js_strings.dfy` | `JsStrings` | `trim`, `substring`, `includes`, `startsWith`, `toUpperCase`, string order, integer to decimal text |
| `js_values.dfy` | `JsValues` | JavaScript values, truthiness, `typeof`, `String()` |
| `cache_key.dfy` | `CacheKey` | `generateCacheKey` |
| `http.dfy` | `Http` | the effective request method |
| `api_cache.dfy` | `ApiCache` | the response cache |
| `debounced_filters.dfy` | `DebouncedFilters` | the filter controller |
| `security.dfy` | `Security` | the input-security helpers |
| `api_client.dfy` | `ApiClient` | the request plugin |

## Model

| member | source | states |
|---|---|---|
| `JsStrings.TrimStart` | app/composables/useSecurity.ts:43 | the result is a suffix of the input; only whitespace was removed; it does not start with whitespace |
| `JsStrings.TrimEnd` | app/composables/useSecurity.ts:43 | the result is a prefix of the input; only whitespace was removed; it does not end with whitespace |
| `JsStrings.Trim` | app/composables/useSecurity.ts:43 | the result is the input with its leading and trailing whitespace run removed: everything before and after it is whitespace, and neither of its ends is; it is empty exactly when the input is all whitespace |
| `JsStrings.Truncate` | app/composables/useSecurity.ts:44 | `substring(0, n)` is the prefix of length min(length, n) |
| `JsStrings.Utf16Length` | app/composables/useSecurity.ts:198-206 | `value.length` counts UTF-16 code units: between one and two per character, and exactly one per character when none lies above U+FFFF |
| `JsStrings.Utf16LengthConcat` | app/composables/useSecurity.ts:198-206 | the code-unit length of a concatenation is the sum of the lengths |
| `JsStrings.IncludesIff` | app/composables/useApiCache.ts:111-115 | `includes` holds exactly when the needle occurs at some index |
| `JsStrings.IncludesWitness` | app/composables/useApiCache.ts:111 | an `includes` hit has an occurrence index |
| `JsStrings.OccursAtIncludes` | app/composables/useApiCache.ts:111 | any occurrence makes `includes` true |
| `JsStrings.IncludesEmpty` | app/composables/useApiCache.ts:178 | every string includes the empty string |
| `JsStrings.UpperChar` | app/plugins/api.client.ts:33 | ASCII lower-case letters move to upper case; every other character is unchanged |
| `JsStrings.ToUpper` | app/composables/useApiCache.ts:131 | upper-casing keeps the length and maps each character independently |
| `JsStrings.StrLtIrreflexive` | app/composables/useApiCache.ts:45 | the default sort order never ranks a key before itself |
| `JsStrings.StrLtTransitive` | app/composables/useApiCache.ts:45 | the default sort order is transitive |
| `JsStrings.StrLtTotal` | app/composables/useApiCache.ts:45 | any two distinct keys are ordered one way or the other |
| `JsStrings.Digit` | app/composables/useApiCache.ts:57 | a digit value d becomes the character '0' + d |
| `JsStrings.NatToString` | app/composables/useApiCache.ts:57 | the decimal text of a natural number reads back as that number, and has no leading zero unless the number is 0 |
| `JsStrings.IntToString` | app/composables/useApiCache.ts:57 | the text begins with '-' exactly for negative numbers, and the rest is the canonical decimal text of the magnitude |
| `JsValues.TypeOf` | app/composables/useSecurity.ts:191 | `typeof` gives "undefined", "boolean", "number", "string" and "object" each for exactly its kind of value, `null` and arrays included under "object" |
| `JsValues.Truthy` | app/composables/useSecurity.ts:184 | a value is falsy exactly when it is `undefined`, `null`, `false`, `0` or `""` |
| `JsValues.JoinElements` | app/composables/useApiCache.ts:57 | `join(",")` of no elements is `""`; of one element it is `""` for `undefined` or `null` and `String(element)` otherwise; comma-free strings are separated by exactly one comma each |
| `JsValues.JoinElementsAppend` | app/composables/useApiCache.ts:57 | joining two non-empty runs gives the first run's text, one comma, then the second's, so element texts appear in order |
| `JsValues.ToString` | app/composables/useApiCache.ts:57 | `String(v)` leaves a string unchanged, writes a number in decimal, gives "undefined", "null", "true"/"false" and "[object Object]" for the other primitives and plain objects, and joins an array's elements |
| `CacheKey.SchemeLength` | app/composables/useApiCache.ts:40 | the pattern's `https?://` prefix is 7, 8 or 0 characters long, matching what the URL starts with |
| `CacheKey.HostLength` | app/composables/useApiCache.ts:40 | `[^/]+` consumes the longest run before the first '/' |
| `CacheKey.DomainLength` | app/composables/useApiCache.ts:40 | nothing matches when the URL has no http(s) scheme or no host character follows it; otherwise the match is the scheme plus the host run up to the first '/' or the end |
| `CacheKey.StripDomain` | app/composables/useApiCache.ts:40 | the result is a suffix of the URL, equal to the URL when it has no http(s) scheme; it is shorter exactly when a host follows the scheme, and a removed domain leaves an empty path or one starting with '/' |
| `CacheKey.StripDomainOfAbsolute` | app/composables/useApiCache.ts:40 | an http(s) URL with a host and a path keeps exactly the path |
| `CacheKey.StripDomainKeepsRelative` | app/composables/useApiCache.ts:40 | a URL that does not start with an http(s) scheme is kept as it is |
| `CacheKey.KeyLtIrreflexive` | app/composables/useApiCache.ts:44-55 | neither key order ranks a key before itself |
| `CacheKey.KeyLtTransitive` | app/composables/useApiCache.ts:44-55 | both key orders are transitive |
| `CacheKey.KeyLtAsymmetric` | app/composables/useApiCache.ts:44-55 | no two keys precede each other |
| `CacheKey.KeyLtTotal` | app/composables/useApiCache.ts:44-55 | both key orders rank any two distinct keys |
| `CacheKey.StrictlySortedDistinct` | app/composables/useApiCache.ts:44-45 | a strictly sorted parameter list has no repeated name |
| `CacheKey.Insert` | app/composables/useApiCache.ts:44-45 | inserting a new name into a sorted list adds exactly that parameter and keeps the list sorted |
| `CacheKey.SortBy` | app/composables/useApiCache.ts:44-45 | sorting a list with distinct names is a permutation that is strictly sorted |
| `CacheKey.StrictlySortedUnique` | app/composables/useApiCache.ts:44-45 | two strictly sorted lists with the same members are identical, so the order of the input parameters does not matter |
| `CacheKey.Select` | app/composables/useApiCache.ts:46-55 | filtering keeps exactly the members the selector accepts |
| `CacheKey.SelectSorted` | app/composables/useApiCache.ts:46-55 | filtering a sorted list leaves it sorted |
| `CacheKey.PropertyOrder` | app/composables/useApiCache.ts:46-57 | the object built in `reduce` enumerates the same parameters: array-index names first in numeric order, then the rest in insertion order |
| `CacheKey.EmittedParams` | app/composables/useApiCache.ts:46-55 | a parameter is serialized exactly when its value is not undefined, null or the empty string |
| `CacheKey.Serialize` | app/composables/useApiCache.ts:57 | the query string is empty exactly when there is nothing to serialize |
| `CacheKey.GenerateCacheKey` | app/composables/useApiCache.ts:36-59 | no parameters give the domain-free path; otherwise the key is that path, plus '?' and the query when something is kept; the bare path appears exactly when no value is kept |
| `CacheKey.KeyDependsOnlyOnKeptParams` | app/composables/useApiCache.ts:36-59 | two parameter objects with the same kept entries give the same key |
| `CacheKey.KeyIgnoresParamOrder` | app/composables/useApiCache.ts:43-45 | reordering the parameters never changes the key |
| `CacheKey.EmptyParamIgnored` | app/composables/useApiCache.ts:47-51 | adding an undefined, null or empty parameter leaves the key unchanged |
| `CacheKey.AllEmptyParamsGiveBarePath` | app/composables/useApiCache.ts:57-58 | parameters that are all empty give the same key as no parameters |
| `Http.EffectiveMethod` | app/plugins/api.client.ts:33 | a missing or empty method means GET; otherwise the method is upper-cased |
| `ApiCache.IsValid` | app/composables/useApiCache.ts:64-66 | a read accepts an entry strictly before its expiry instant; it disagrees with the sweep rule only at that instant |
| `ApiCache.IsStale` | app/composables/useApiCache.ts:95-101 | the sweeps remove an entry strictly after its expiry instant |
| `ApiCache.GetFromCache` | app/composables/useApiCache.ts:71-82 | a read hits exactly when the key holds an entry younger than its lifetime; it returns that entry's data and evicts only the key it read when that entry is expired |
| `ApiCache.Sweep` | app/composables/useApiCache.ts:215-225 | the sweep keeps exactly the entries that are not past their lifetime, unchanged |
| `ApiCache.SweepKeepsValid` | app/composables/useApiCache.ts:215-225 | a sweep never removes an entry a read would still return |
| `ApiCache.BoundaryEntryInvalidButNotSwept` | app/composables/useApiCache.ts:64-103 | an entry exactly its lifetime old is already invalid for reads but survives a sweep |
| `ApiCache.SetCache` | app/composables/useApiCache.ts:87-103 | the write stores the entry stamped now; up to 100 entries nothing else changes, and above 100 the store is swept |
| `ApiCache.SetThenGet` | app/composables/useApiCache.ts:71-103 | data written with a positive lifetime is read back at the same instant |
| `ApiCache.GetAfterExpiry` | app/composables/useApiCache.ts:64-103 | once the lifetime has elapsed, a read misses and deletes the entry |
| `ApiCache.GetTTL` | app/composables/useApiCache.ts:108-118 | a non-zero custom lifetime wins; otherwise the endpoint table decides, defaulting to seven minutes |
| `ApiCache.GetTTLFollowsTable` | app/composables/useApiCache.ts:108-118 | without a custom value the lifetime is the first matching entry of the endpoint table, and it is positive |
| `ApiCache.KeyFor` | app/composables/useApiCache.ts:136 | a non-empty custom key is the key; otherwise the key derived from the URL and parameters |
| `ApiCache.CustomKeyOverridesUrl` | app/composables/useApiCache.ts:128-136 | a non-empty custom key gives the same key for any URL and parameters, and an empty custom key counts as absent |
| `ApiCache.CachedFetch` | app/composables/useApiCache.ts:123-161 | non-GET bypasses the cache; the transport is skipped exactly for a non-forced GET with a valid truthy entry; a response is returned and written with the endpoint lifetime to the store the read left; a failure serves the entry still present, or propagates |
| `ApiCache.ForceAlwaysCallsTransport` | app/composables/useApiCache.ts:139-145 | a forced fetch always reaches the network |
| `ApiCache.StaleFallbackWithoutForce` | app/composables/useApiCache.ts:139-160 | without force a failed GET is answered from the cache exactly when the entry was still valid, since the read already evicted an expired one |
| `ApiCache.StaleFallbackWithForce` | app/composables/useApiCache.ts:139-160 | with force a failed GET serves any entry under the key, however old |
| `ApiCache.SecondFetchServedFromCache` | app/composables/useApiCache.ts:123-161 | after a successful first fetch, a second one within the lifetime is served from the cache without a network call |
| `ApiCache.EscapeRegExp` | app/composables/useApiCache.ts:174 | escaping never shortens the pattern |
| `ApiCache.EscapedPatternIsLiteral` | app/composables/useApiCache.ts:172-178 | the escaped pattern, read as a regular expression, matches exactly the original text |
| `ApiCache.ClearCache` | app/composables/useApiCache.ts:166-182 | no pattern or an empty one clears everything; otherwise exactly the keys containing the pattern are removed, and the rest are untouched |
| `ApiCache.InvalidateCache` | app/composables/useApiCache.ts:187-189 | invalidation removes exactly the keys containing the endpoint text |
| `ApiCache.IncludesEmptyEverywhere` | app/composables/useApiCache.ts:166-178 | an empty pattern would match every key, the case the guard sends to a full clear |
| `ApiCache.GetCacheStats` | app/composables/useApiCache.ts:194-213 | valid and expired entries partition the store and are counted by the read rule |
| `DebouncedFilters.Assign` | app/composables/useDebouncedFilters.ts:240 | `Object.assign` overwrites exactly the fields the patch carries; an extension field takes the patch's value when the patch has it, else keeps the target's |
| `DebouncedFilters.ResolveConfig` | app/composables/useDebouncedFilters.ts:25-30 | missing delays default to 500 ms and 1500 ms, an explicit value (0 included) is kept, and the callback is registered exactly when one was passed |
| `DebouncedFilters.Create` | app/composables/useDebouncedFilters.ts:33-47 | a new controller has the resolved timeouts, the defaults overlaid with the initial filters as both current and last-notified state, and no timer armed |
| `DebouncedFilters.EveryMatchesIff` | app/composables/useDebouncedFilters.ts:71-73 | the element-wise `every` comparison holds exactly when the keyword lists are equal |
| `DebouncedFilters.HasFiltersChanged` | app/composables/useDebouncedFilters.ts:52-74 | a change is detected exactly when one of the five core fields differs, keyword order included |
| `DebouncedFilters.ExtensionFieldsIgnored` | app/composables/useDebouncedFilters.ts:52-74 | extra fields never count as a change |
| `DebouncedFilters.ExecuteFilterChange` | app/composables/useDebouncedFilters.ts:79-95 | without a change nothing happens; with one, the callback receives the current filters and the last-notified copy catches up |
| `DebouncedFilters.Delay` | app/composables/useDebouncedFilters.ts:123-135 | a non-negative delay is used as given and a negative one acts as 0 |
| `DebouncedFilters.ClearTimers` | app/composables/useDebouncedFilters.ts:100-109 | both timers are cancelled and nothing else changes |
| `DebouncedFilters.ScheduleFilterChange` | app/composables/useDebouncedFilters.ts:114-137 | every change restarts the debounce deadline and marks changes pending; the max-wait deadline is set only if none is armed |
| `DebouncedFilters.NextDeadline` | app/composables/useDebouncedFilters.ts:123-135 | the next timer to fire is the earlier of the two armed deadlines |
| `DebouncedFilters.Fire` | app/composables/useDebouncedFilters.ts:123-135 | a timer firing calls `onFilterChange` exactly when it is registered and the filters changed, with the current filters; the shadow copy takes the filters exactly on change; both timers and the pending flag are cleared, the configuration kept |
| `DebouncedFilters.Tick` | app/composables/useDebouncedFilters.ts:114-137 | before any deadline is due nothing happens; once one is due the controller fires |
| `DebouncedFilters.BurstFiresByBatchDeadline` | app/composables/useDebouncedFilters.ts:114-137 | however many changes follow the first, the next deadline is no later than the max-wait deadline set by the first, and the last-notified filters are those from before the burst |
| `DebouncedFilters.BurstDelivers` | app/composables/useDebouncedFilters.ts:79-137 | once a burst's deadline has passed the controller has fired, notifying exactly when a callback is registered and the latest filters differ from the last notified ones, with the latest filters |
| `DebouncedFilters.FiresOnce` | app/composables/useDebouncedFilters.ts:123-135 | after firing, no timer remains, so a later tick does nothing |
| `DebouncedFilters.SetSearchQuery` | app/composables/useDebouncedFilters.ts:142-145 | only the query changes and a notification is scheduled |
| `DebouncedFilters.SetCategory` | app/composables/useDebouncedFilters.ts:150-153 | only the category changes and a notification is scheduled |
| `DebouncedFilters.SetPrice` | app/composables/useDebouncedFilters.ts:158-161 | only the price changes and a notification is scheduled |
| `DebouncedFilters.SetSortBy` | app/composables/useDebouncedFilters.ts:166-169 | only the sort order changes and a notification is scheduled |
| `DebouncedFilters.AddKeyword` | app/composables/useDebouncedFilters.ts:174-182 | a present keyword changes nothing, not even the timers; a new one is appended and scheduled; the list never gains a duplicate |
| `DebouncedFilters.Without` | app/composables/useDebouncedFilters.ts:188-190 | the filter removes every copy of the keyword and keeps every other element with its multiplicity |
| `DebouncedFilters.WithoutConcat` | app/composables/useDebouncedFilters.ts:188-190 | filtering distributes over concatenation, so the relative order of the kept keywords is preserved |
| `DebouncedFilters.RemoveKeyword` | app/composables/useDebouncedFilters.ts:187-192 | the keyword is gone afterwards and a notification is scheduled even if it was absent |
| `DebouncedFilters.ToggleKeyword` | app/composables/useDebouncedFilters.ts:197-203 | toggling removes a selected keyword and adds an unselected one, exactly as the two operations do |
| `DebouncedFilters.ClearKeywords` | app/composables/useDebouncedFilters.ts:208-211 | only the keyword list is emptied and a notification is scheduled |
| `DebouncedFilters.ClearAllFilters` | app/composables/useDebouncedFilters.ts:216-225 | the filters become the defaults, with nothing active |
| `DebouncedFilters.SetFilters` | app/composables/useDebouncedFilters.ts:239-242 | the patch is merged and a notification is scheduled |
| `DebouncedFilters.ApplyFiltersNow` | app/composables/useDebouncedFilters.ts:230-234 | timers are cancelled, the configuration is kept, and the callback runs exactly when it is registered and the filters changed since the last notification |
| `DebouncedFilters.ApplyFiltersNowIsFire` | app/composables/useDebouncedFilters.ts:230-234 | applying at once leaves the same state and notification as a timer firing, though the source clears the timers first |
| `DebouncedFilters.HasActiveFilters` | app/composables/useDebouncedFilters.ts:247-254 | filters are active exactly when some filter group is set; the sort order is not a group |
| `DebouncedFilters.ActiveGroups` | app/composables/useDebouncedFilters.ts:261-264 | the groups that are set: search text, category, price, keywords |
| `DebouncedFilters.FlagGroupsSize` | app/composables/useDebouncedFilters.ts:259-266 | the four groups are distinct, so the set of set groups has one member per set flag |
| `DebouncedFilters.ActiveFiltersCount` | app/composables/useDebouncedFilters.ts:259-266 | the count is the number of set groups: at most four, positive exactly when a filter is active, four exactly when all are set |
| `DebouncedFilters.GetQueryParams` | app/composables/useDebouncedFilters.ts:271-283 | each query parameter is present exactly when its filter is non-empty, or for sort, not the default, and carries that filter's value; keywords as a list |
| `DebouncedFilters.KeywordsOf` | app/composables/useDebouncedFilters.ts:296-300 | a list is taken as is, a non-empty single value becomes a one-element list, and a falsy value is ignored |
| `DebouncedFilters.InitFromQuery` | app/composables/useDebouncedFilters.ts:288-305 | each truthy parameter sets its filter and every other filter keeps its value; keywords follow the list reading; the last-notified copy is synchronised, so no notification follows; timers are untouched |
| `DebouncedFilters.QueryRoundTrip` | app/composables/useDebouncedFilters.ts:271-305 | reading back the query parameters of any filter state into a fresh controller reproduces its five core fields |
| `DebouncedFilters.ScalarKeywordCoerced` | app/composables/useDebouncedFilters.ts:296-300 | a single keyword in the URL becomes a one-element list |
| `DebouncedFilters.TypingBurstScenario` | app/composables/useDebouncedFilters.ts:114-145 | three keystrokes 300 ms apart give one notification 500 ms after the last, carrying the final text |
| `DebouncedFilters.ContinuousChangesScenario` | app/composables/useDebouncedFilters.ts:114-137 | changes every 400 ms are still delivered by the 1500 ms max-wait deadline |
| `DebouncedFilters.DoubleAddScenario` | app/composables/useDebouncedFilters.ts:174-182 | adding one keyword twice keeps one copy and gives one notification |
| `DebouncedFilters.InitFromQueryScenario` | app/composables/useDebouncedFilters.ts:288-305 | initialising from the URL never notifies |
| `Security.RemoveInjectionChars` | app/composables/useSecurity.ts:39-42 | the removal leaves no quote, backslash, semicolon, dollar, brace or angle bracket, keeps every other character as often as it occurs, and changes clean text not at all |
| `Security.RemoveInjectionCharsConcat` | app/composables/useSecurity.ts:39-42 | the removal distributes over concatenation, so the kept characters stay in order |
| `Security.RemoveInjectionCharsOfJunk` | app/composables/useSecurity.ts:39-42 | text made only of injection characters is removed entirely |
| `Security.SanitizeSearch` | app/composables/useSecurity.ts:36-45 | the result is the first 100 characters of the trimmed, filtered query: no injection character, at most 100 characters, only input characters, no leading whitespace; empty input gives empty output |
| `Security.SanitizeKeepsCleanText` | app/composables/useSecurity.ts:36-45 | a short, already trimmed query without injection characters is returned unchanged |
| `Security.SanitizeIgnoresInjectedChars` | app/composables/useSecurity.ts:36-45 | injection characters inserted anywhere in a query do not change its sanitised form |
| `Security.IndexOfAt` | app/composables/useSecurity.ts:101 | finds the first '@' |
| `Security.MatchesEmailHasShape` | app/composables/useSecurity.ts:101 | a string the scanner accepts splits as local part, `@`, domain, `.` and suffix, each part free of whitespace and `@` |
| `Security.ShapeIsMatched` | app/composables/useSecurity.ts:101 | any split the pattern allows is found by the scanner, because the pattern's `@` must be the first one |
| `Security.MatchesEmailIff` | app/composables/useSecurity.ts:101 | the scanner accepts exactly the strings of the form local@domain.tld, with no whitespace or '@' in any of the three parts |
| `Security.EmailHasOneAt` | app/composables/useSecurity.ts:101 | an accepted address contains exactly one '@' |
| `Security.ValidateEmail` | app/composables/useSecurity.ts:94-107 | an empty address is "required"; it is valid exactly when it matches the pattern and is at most 254 UTF-16 code units long; otherwise the error is "Invalid email format" |
| `Security.WindowAt` | app/composables/useSecurity.ts:117-128 | an unseen key, or a window older than `windowMs`, starts afresh at now |
| `Security.CheckRateLimit` | app/composables/useSecurity.ts:112-159 | only the caller's key changes; a blocked key inside its window is refused without counting; otherwise the call is counted (attempts grow by exactly one, allowed or not) and it is allowed exactly when that count stays within the limit; every denial blocks the key and reports the end of the window |
| `Security.CheckRateLimitWellFormed` | app/composables/useSecurity.ts:142-156 | a key is blocked only after exceeding the limit |
| `Security.BlockedUntilWindowEnds` | app/composables/useSecurity.ts:121-156 | once blocked, a key is refused until its window has passed |
| `Security.AtMostLimitPerWindow` | app/composables/useSecurity.ts:112-159 | calls inside one window are allowed at most the remaining allowance times |
| `Security.AtMostLimitFromFirstCall` | app/composables/useSecurity.ts:112-159 | from a fresh key, at most `limit` calls in the window opened by the first are allowed |
| `Security.ExactlyAllowancePerWindow` | app/composables/useSecurity.ts:112-159 | calls inside one window from a state the limiter produced are allowed exactly up to the remaining allowance |
| `Security.ExactlyLimitFromFirstCall` | app/composables/useSecurity.ts:112-159 | from a fresh key, the first `limit` calls in the window opened by the first call are allowed and no more |
| `Security.DefaultsAllowFivePerMinute` | app/composables/useSecurity.ts:112-159 | with the default arguments a fresh key gets five allowed calls per minute |
| `Security.Checks` | app/composables/useSecurity.ts:181-230 | each field is checked seven ways, in source order, with string lengths in UTF-16 code units |
| `Security.BlankIffTrimsToEmpty` | app/composables/useSecurity.ts:184 | a string is all whitespace exactly when `trim()` leaves the empty string |
| `Security.FirstFailure` | app/composables/useSecurity.ts:181-230 | the reported message is that of a failing check, and there is none exactly when every check passes |
| `Security.FieldError` | app/composables/useSecurity.ts:181-230 | the `continue` chain for one field reports exactly the message of the first failing check of the seven |
| `Security.RequiredTakesPrecedence` | app/composables/useSecurity.ts:182-188 | a missing required field always reports "is required", whatever other rules say |
| `Security.ValidateFormData` | app/composables/useSecurity.ts:171-237 | errors are reported exactly for fields present in both data and schema that fail a rule; the form is valid exactly when there are none |
| `Security.FailingFieldInvalidatesForm` | app/composables/useSecurity.ts:233-236 | one failing field invalidates the whole form |
| `Security.AstralTooLongRule` | app/composables/useSecurity.ts:198-206 | one character above U+FFFF is two code units, so it exceeds a `maxLength` of 1, while a `minLength` of 0 is switched off |
| `Security.AstralCharTooLong` | app/composables/useSecurity.ts:181-230 | that field reports "name must be no more than 1 characters" |
| `Security.AstralCharFormInvalid` | app/composables/useSecurity.ts:171-237 | `{name: "\u{1F600}"}` against `{name: {maxLength: 1}}` is an invalid form with that error |
| `ApiClient.ResolveToken` | app/plugins/api.client.ts:9-18 | the cookie token wins when set; otherwise the localStorage token is used, so a token is present exactly when either store holds one |
| `ApiClient.RequestHeaders` | app/plugins/api.client.ts:20-50 | the two fixed headers are always present; the bearer header exactly with a token; the CSRF header exactly for POST, PUT, PATCH or DELETE with a stored token; the three cache-busting headers exactly for GET with caching off |
| `ApiClient.CacheBustingExcludesCsrf` | app/plugins/api.client.ts:30-50 | no request carries both the CSRF header and the cache-busting headers |
| `ApiClient.OnRequest` | app/plugins/api.client.ts:52-56 | the plugin's headers override the caller's, and caller headers it does not set pass through |
| `ApiClient.OnResponse` | app/plugins/api.client.ts:58-66 | a non-empty CSRF header replaces the stored token; otherwise nothing changes |
| `ApiClient.OnResponseError` | app/plugins/api.client.ts:67-98 | 401 clears every token and redirects to the admin login only from other admin pages; 403 clears only the CSRF token; 429 raises; other statuses change nothing |
| `ApiClient.UnauthorizedDropsCredentials` | app/plugins/api.client.ts:8-85 | after a 401, the next request carries neither a bearer token nor a CSRF token |
| `ApiClient.ForbiddenDropsCsrfOnly` | app/plugins/api.client.ts:8-89 | after a 403, the next request still carries its bearer token but no CSRF token |
| `ApiClient.CapturedCsrfIsSent` | app/plugins/api.client.ts:8-66 | a CSRF token captured from a response is sent by the next state-changing request |

## Left out

- Networking, `$fetch` retries and timeouts, `console.warn`, `process.client` and server-side rendering: the transport is an abstract outcome, and every operation is modelled as it runs in the browser.
- `isSearching` and its 100 ms reset timer only drive a loading spinner, so they are not modelled. The `onUnmounted` cleanup is `ClearTimers`.
- Concurrency: each `cachedFetch` is one atomic step. Interleaving with other calls while a request is awaited is not modelled.
- `sanitizeHtml`, `validateUrl`, `generateCSRFToken` (random), `secureStorage` and the `useAdminAuth` composable are outside this model.
- `clearCache` with a `RegExp` argument is not modelled; only string patterns are. Regular-expression matching is modelled by the reader `LiteralOf`, for escaped literals only.
- Non-integer numbers are left out, because `JsValue` numbers are integers.
- `JsValues.ToString`: a number is any integer and is written in plain decimal. JavaScript numbers beyond 2^53 lose precision, and `String` writes magnitudes of 1e21 and above in exponent form; neither is modelled.
- `JsStrings.StrLt`: characters are compared as Unicode code points. `Array.prototype.sort` compares UTF-16 code units, so a parameter name with a character above U+FFFF can sort differently from one with a character in U+E000 to U+FFFF. `CacheKey.SortBy` inherits this.
- `ApiCache.GetCacheStats`: `cacheKeys` is the set of keys. The source lists them in `Map` insertion order, which the store (a Dafny `map`) does not record.
- The five-minute `setInterval` schedule of the background sweep is not modelled as a timer; `ApiCache.Sweep` is one run of its body.
- `DebouncedFilters.Fire`: a callback that itself calls a setter is not modelled, because the notification is returned as a value. In the source such a setter arms a new debounce timer that the firing timer's own `clearTimers` then cancels, so that change waits for the next mutation.
- `DebouncedFilters.Fire`: a callback that throws is not modelled. In the source the exception leaves the timer callback before `pendingChanges.value = false` and `clearTimers()`, so the other timer stays armed, `pendingChanges` stays true, and the next burst inherits the stale max-wait deadline; `applyFiltersNow` likewise skips its final `pendingChanges.value = false`. The model's callback always returns.
- Percent-encoding is left out: `URLSearchParams` encoding is the parameter `escape`.
- `CacheKey.GenerateCacheKey`: requires distinct parameter names, which a JavaScript object always has.
- `ApiClient.OnRequest`: only a plain-object `options.headers` is modelled, not a `Headers` instance or an array of pairs.
- `Security.SanitizeSearch`: the cut to 100 counts characters, not UTF-16 code units, so text outside the Basic Multilingual Plane counts once rather than twice. A string of characters cannot hold the lone surrogate that `substring` leaves when it cuts a pair in half.
- `Http.EffectiveMethod`: `toUpperCase` is modelled for ASCII letters only. Non-ASCII letters never occur in method names.
- `Security.CheckRateLimit`: the "Try again in N seconds" text is not modelled, only `resetTime`.
- `Security.ValidateFormData`: a custom validator is a total function; one that throws is not modelled.
- `DebouncedFilters.InitFromQuery`: requires that `search`, `category`, `price` and `sort` are not repeated query parameters (arrays). In the source, such an array is stored unchanged in a string field.
- `DebouncedFilters.Assign`: a patch cannot carry an explicit `undefined`, which `Object.assign` would copy.
- `DebouncedFilters.Delay`: delays above 2^31-1 ms and nested-timer clamping are not modelled.
- `DebouncedFilters.Tick`: it fires the earlier deadline. Equal deadlines fire once, as the source's `clearTimers` cancels the other.
