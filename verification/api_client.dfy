/**
 * The request plugin (`api.client`): the headers `onRequest` adds, the CSRF
 * token `onResponse` captures, and how `onResponseError` reacts to 401, 403
 * and 429. Cookies, `localStorage` and `sessionStorage` are one immutable
 * `Storage` record; navigation is reported as a redirect target.
 */
module ApiClient {
  import opened Wrappers
  import opened JsStrings
  import opened Http

  type Headers = map<string, string>

  /** The client-side stores the plugin reads and clears. */
  datatype Storage = Storage(cookieToken: Option<string>, localToken: Option<string>, csrfToken: Option<string>)

  /** A stored string is used only if it is non-empty (JavaScript truthiness). */
  predicate Present(v: Option<string>) {
    v.Some? && v.value != ""
  }

  /** `cookieToken.value || localStorage.getItem("adminToken")`. */
  function ResolveToken(st: Storage): (t: Option<string>)
    ensures Present(t) <==> Present(st.cookieToken) || Present(st.localToken)
    ensures Present(st.cookieToken) ==> t == st.cookieToken
    ensures !Present(st.cookieToken) ==> t == st.localToken
  {
    if Present(st.cookieToken) then st.cookieToken else st.localToken
  }

  const StateChangingMethods: set<string> := {"POST", "PUT", "PATCH", "DELETE"}

  const CacheBustingHeaders: set<string> := {"Cache-Control", "Pragma", "Expires"}

  /** The headers `onRequest` computes before merging with the caller's. */
  function RequestHeaders(verb: Option<string>, token: Option<string>, csrf: Option<string>, cacheOff: bool): (h: Headers)
    ensures "X-Requested-With" in h && h["X-Requested-With"] == "XMLHttpRequest"
    ensures "Content-Type" in h && h["Content-Type"] == "application/json"
    ensures "Authorization" in h <==> Present(token)
    ensures "Authorization" in h ==> h["Authorization"] == "Bearer " + token.value
    ensures "X-CSRF-Token" in h <==> EffectiveMethod(verb) in StateChangingMethods && Present(csrf)
    ensures "X-CSRF-Token" in h ==> h["X-CSRF-Token"] == csrf.value
    ensures forall name :: name in CacheBustingHeaders ==> (name in h <==> EffectiveMethod(verb) == "GET" && cacheOff)
    ensures "Cache-Control" in h ==>
              (h["Cache-Control"] == "no-cache, no-store, must-revalidate" && h["Pragma"] == "no-cache" && h["Expires"] == "0")
    ensures h.Keys <= {"X-Requested-With", "Content-Type", "Authorization", "X-CSRF-Token"} + CacheBustingHeaders
  {
    var h0: Headers := map["X-Requested-With" := "XMLHttpRequest", "Content-Type" := "application/json"];
    var h1 := if Present(token) then h0["Authorization" := "Bearer " + token.value] else h0;
    var h2 := if EffectiveMethod(verb) in StateChangingMethods && Present(csrf) then h1["X-CSRF-Token" := csrf.value] else h1;
    if EffectiveMethod(verb) == "GET" && cacheOff then
      h2["Cache-Control" := "no-cache, no-store, must-revalidate"]["Pragma" := "no-cache"]["Expires" := "0"]
    else h2
  }

  /** The cache-busting trio and the CSRF header are never sent together. */
  lemma CacheBustingExcludesCsrf(verb: Option<string>, token: Option<string>, csrf: Option<string>, cacheOff: bool)
    ensures var h := RequestHeaders(verb, token, csrf, cacheOff);
            !("Cache-Control" in h && "X-CSRF-Token" in h)
  {
  }

  /**
   * `onRequest`: `{ ...callerHeaders, ...computed }` with the token read from
   * storage (`cacheOff` is `options.cache === false`).
   */
  function OnRequest(st: Storage, verb: Option<string>, cacheOff: bool, callerHeaders: Headers): (h: Headers)
    ensures var computed := RequestHeaders(verb, ResolveToken(st), st.csrfToken, cacheOff);
            && h.Keys == callerHeaders.Keys + computed.Keys
            && (forall name :: name in computed ==> h[name] == computed[name])
            && (forall name :: name in callerHeaders && name !in computed ==> h[name] == callerHeaders[name])
  {
    callerHeaders + RequestHeaders(verb, ResolveToken(st), st.csrfToken, cacheOff)
  }

  /** `onResponse`: a non-empty `X-CSRF-Token` response header replaces the stored token; otherwise nothing changes. */
  function OnResponse(st: Storage, csrfHeader: Option<string>): (r: Storage)
    ensures Present(csrfHeader) ==> r == st.(csrfToken := csrfHeader)
    ensures !Present(csrfHeader) ==> r == st
  {
    if Present(csrfHeader) then st.(csrfToken := csrfHeader) else st
  }

  /** What `onResponseError` leaves behind: storage, a navigation target, and a raised error's status code. */
  datatype ErrorOutcome = ErrorOutcome(storage: Storage, redirectTo: Option<string>, raised: Option<int>)

  const LoginPath: string := "/admin/login"

  /** `onResponseError` for a response with `status`, on the page at `path`. */
  function OnResponseError(st: Storage, status: int, path: string): (r: ErrorOutcome)
    ensures status == 401 ==>
              && r.storage == Storage(None, None, None)
              && r.raised.None?
              && (r.redirectTo.Some? <==> StartsWith(path, "/admin") && path != LoginPath)
              && (r.redirectTo.Some? ==> r.redirectTo.value == LoginPath)
    ensures status == 403 ==> r == ErrorOutcome(st.(csrfToken := None), None, None)
    ensures status == 429 ==> r == ErrorOutcome(st, None, Some(429))
    ensures status !in {401, 403, 429} ==> r == ErrorOutcome(st, None, None)
  {
    if status == 401 then
      var cleared := Storage(None, None, None);
      if StartsWith(path, "/admin") && path != LoginPath then ErrorOutcome(cleared, Some(LoginPath), None)
      else ErrorOutcome(cleared, None, None)
    else if status == 403 then ErrorOutcome(st.(csrfToken := None), None, None)
    else if status == 429 then ErrorOutcome(st, None, Some(429))
    else ErrorOutcome(st, None, None)
  }

  /** After a 401, the next request carries neither credentials nor a CSRF token of the plugin's own. */
  lemma UnauthorizedDropsCredentials(st: Storage, path: string, verb: Option<string>, cacheOff: bool, callerHeaders: Headers)
    requires "Authorization" !in callerHeaders && "X-CSRF-Token" !in callerHeaders
    ensures var after := OnResponseError(st, 401, path).storage;
            var h := OnRequest(after, verb, cacheOff, callerHeaders);
            "Authorization" !in h && "X-CSRF-Token" !in h
  {
  }

  /** After a 403, a state-changing request keeps its bearer token but sends no CSRF token until one is captured again. */
  lemma ForbiddenDropsCsrfOnly(st: Storage, path: string, verb: Option<string>, cacheOff: bool, callerHeaders: Headers)
    requires "X-CSRF-Token" !in callerHeaders
    ensures var after := OnResponseError(st, 403, path).storage;
            var h := OnRequest(after, verb, cacheOff, callerHeaders);
            && "X-CSRF-Token" !in h
            && ("Authorization" in h <==> "Authorization" in OnRequest(st, verb, cacheOff, callerHeaders))
  {
  }

  /** A token captured by `onResponse` is the one the next state-changing request sends. */
  lemma CapturedCsrfIsSent(st: Storage, header: string, verb: Option<string>, cacheOff: bool, callerHeaders: Headers)
    requires header != "" && EffectiveMethod(verb) in StateChangingMethods
    ensures OnRequest(OnResponse(st, Some(header)), verb, cacheOff, callerHeaders)["X-CSRF-Token"] == header
  {
  }
}
