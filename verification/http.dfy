/** The request-method convention both the cache and the request plugin follow. */
module Http {
  import opened Wrappers
  import opened JsStrings

  /** `(method || "GET").toUpperCase()`: an absent or empty method means GET. */
  function EffectiveMethod(verb: Option<string>): (r: string)
    ensures |r| > 0
    ensures verb.None? || verb.value == "" ==> r == "GET"
    ensures verb.Some? && verb.value != "" ==> r == ToUpper(verb.value)
  {
    match verb
    case Some(m) => if m == "" then "GET" else ToUpper(m)
    case None => "GET"
  }
}
