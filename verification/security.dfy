/**
 * Input helpers of the front end (`useSecurity`): search-text sanitising,
 * the e-mail format check, a per-key fixed-window rate limiter with an
 * explicit clock, and schema-driven form validation.
 */
module Security {
  import opened Wrappers
  import opened JsStrings
  import opened JsValues

  // ---------------------------------------------------------------------
  // sanitizeSearch
  // ---------------------------------------------------------------------

  const MaxSearchLength: nat := 100

  /** The characters removed from search text: `' " \ ;`, then `$ { }`, then `< >`. */
  predicate IsInjectionChar(c: char) {
    c in "'\"\\;${}<>"
  }

  /** The three global character-class replacements, applied together. */
  function RemoveInjectionChars(s: string): (r: string)
    ensures |r| <= |s|
    ensures forall i :: 0 <= i < |r| ==> !IsInjectionChar(r[i]) && r[i] in s
    ensures (forall i :: 0 <= i < |s| ==> !IsInjectionChar(s[i])) ==> r == s
    // Every other character survives as often as it occurs.
    ensures forall c :: !IsInjectionChar(c) ==> multiset(r)[c] == multiset(s)[c]
  {
    if |s| == 0 then ""
    else
      var rest := RemoveInjectionChars(s[1..]);
      assert forall c :: c in rest ==> c in s;
      assert s == [s[0]] + s[1..];
      assert multiset(s) == multiset{s[0]} + multiset(s[1..]);
      if IsInjectionChar(s[0]) then rest
      else
        assert multiset([s[0]] + rest) == multiset{s[0]} + multiset(rest);
        [s[0]] + rest
  }

  /** The removal works character by character: it distributes over concatenation, so the survivors keep their order. */
  lemma {:induction false} RemoveInjectionCharsConcat(a: string, b: string)
    ensures RemoveInjectionChars(a + b) == RemoveInjectionChars(a) + RemoveInjectionChars(b)
    decreases |a|
  {
    if |a| > 0 {
      assert (a + b)[1..] == a[1..] + b;
      RemoveInjectionCharsConcat(a[1..], b);
    } else {
      assert a + b == b;
    }
  }

  /** Text made only of injection characters disappears entirely. */
  lemma {:induction false} RemoveInjectionCharsOfJunk(junk: string)
    requires forall i :: 0 <= i < |junk| ==> IsInjectionChar(junk[i])
    ensures RemoveInjectionChars(junk) == ""
    decreases |junk|
  {
    if |junk| > 0 {
      RemoveInjectionCharsOfJunk(junk[1..]);
    }
  }

  /** What the chain of replacements, `trim` and the 100-character cut leaves. */
  lemma SanitizedFacts(query: string)
    ensures var r := Truncate(Trim(RemoveInjectionChars(query)), MaxSearchLength);
            && (forall i :: 0 <= i < |r| ==> !IsInjectionChar(r[i]) && r[i] in query)
            && (r == [] || !IsWhitespace(r[0]))
  {
    var filtered := RemoveInjectionChars(query);
    var trimmed := Trim(filtered);
    PrefixOfCleanSurvivor(query, filtered, trimmed, Truncate(trimmed, MaxSearchLength));
  }

  /** A prefix of a whitespace-led survivor of the filtered text is clean and drawn from the query. */
  lemma PrefixOfCleanSurvivor(query: string, filtered: string, trimmed: string, r: string)
    requires forall i :: 0 <= i < |filtered| ==> !IsInjectionChar(filtered[i]) && filtered[i] in query
    requires forall i :: 0 <= i < |trimmed| ==> trimmed[i] in filtered
    requires trimmed == [] || !IsWhitespace(trimmed[0])
    requires |r| <= |trimmed| && r == trimmed[..|r|]
    ensures forall i :: 0 <= i < |r| ==> !IsInjectionChar(r[i]) && r[i] in query
    ensures r == [] || !IsWhitespace(r[0])
  {
    forall i | 0 <= i < |r| ensures !IsInjectionChar(r[i]) && r[i] in query {
      assert r[i] == trimmed[i];
      var j :| 0 <= j < |filtered| && filtered[j] == r[i];
    }
  }

  /** `sanitizeSearch`: drop the injection characters, trim, keep the first 100 characters. */
  function SanitizeSearch(query: string): (r: string)
    ensures forall i :: 0 <= i < |r| ==> !IsInjectionChar(r[i])
    ensures |r| <= MaxSearchLength
    ensures query == "" ==> r == ""
    ensures forall i :: 0 <= i < |r| ==> r[i] in query
    ensures r == [] || !IsWhitespace(r[0])
    // The three replacements, then `trim`, then the 100-character prefix.
    ensures r == Truncate(Trim(RemoveInjectionChars(query)), MaxSearchLength)
  {
    SanitizedFacts(query);
    if query == "" then ""
    else Truncate(Trim(RemoveInjectionChars(query)), MaxSearchLength)
  }

  /** Text that is already clean, trimmed and short enough comes back unchanged. */
  lemma SanitizeKeepsCleanText(query: string)
    requires forall i :: 0 <= i < |query| ==> !IsInjectionChar(query[i])
    requires |query| <= MaxSearchLength
    requires query == [] || (!IsWhitespace(query[0]) && !IsWhitespace(query[|query| - 1]))
    ensures SanitizeSearch(query) == query
  {
    if query != "" {
      assert TrimStart(query) == query;
      assert TrimEnd(query) == query;
    }
  }

  /** Injection characters inserted anywhere in a query do not change what it sanitises to. */
  lemma SanitizeIgnoresInjectedChars(before: string, junk: string, after: string)
    requires forall i :: 0 <= i < |junk| ==> IsInjectionChar(junk[i])
    ensures SanitizeSearch(before + junk + after) == SanitizeSearch(before + after)
  {
    RemoveInjectionCharsConcat(before + junk, after);
    RemoveInjectionCharsConcat(before, junk);
    RemoveInjectionCharsConcat(before, after);
    RemoveInjectionCharsOfJunk(junk);
    assert RemoveInjectionChars(before + junk) == RemoveInjectionChars(before);
  }

  // ---------------------------------------------------------------------
  // validateEmail
  // ---------------------------------------------------------------------

  const MaxEmailLength: nat := 254

  /** `[^\s@]`: neither whitespace nor `@`. */
  predicate AddressChar(c: char) {
    !IsWhitespace(c) && c != '@'
  }

  predicate AllAddressChars(s: string) {
    forall i :: 0 <= i < |s| ==> AddressChar(s[i])
  }

  /**
   * `s` splits as `a@b.c` with `@` at `i` and `.` at `j`, where `a`, `b`, `c`
   * are non-empty runs of `[^\s@]`: one way `^[^\s@]+@[^\s@]+\.[^\s@]+$` can match.
   */
  predicate EmailSplitAt(s: string, i: int, j: int) {
    && 0 < i && i + 1 < j && j + 1 < |s|
    && s[i] == '@' && s[j] == '.'
    && AllAddressChars(s[..i]) && AllAddressChars(s[i + 1..j]) && AllAddressChars(s[j + 1..])
  }

  /** The regular expression's language, stated as the existence of a split. */
  ghost predicate EmailShape(s: string) {
    exists i, j :: EmailSplitAt(s, i, j)
  }

  /** Index of the first `@`, or `|s|` if there is none. */
  function IndexOfAt(s: string): (n: nat)
    ensures n <= |s|
    ensures n < |s| ==> s[n] == '@'
    ensures forall k :: 0 <= k < n ==> s[k] != '@'
  {
    if |s| == 0 then 0
    else if s[0] == '@' then 0
    else 1 + IndexOfAt(s[1..])
  }

  /** A `.` somewhere strictly inside `d` (not first, not last). */
  predicate HasInnerDot(d: string) {
    exists j :: 1 <= j < |d| - 1 && d[j] == '.'
  }

  /** A single left-to-right reading of the pattern: local part up to the first `@`, then a dotted domain. */
  predicate MatchesEmail(s: string) {
    var i := IndexOfAt(s);
    && 0 < i < |s|
    && AllAddressChars(s[..i])
    && AllAddressChars(s[i + 1..])
    && HasInnerDot(s[i + 1..])
  }

  /** An accepted string splits as the pattern requires, at the first `@` and an inner dot after it. */
  lemma MatchesEmailHasShape(s: string)
    requires MatchesEmail(s)
    ensures EmailShape(s)
  {
    var i := IndexOfAt(s);
    var d := s[i + 1..];
    var jj :| 1 <= jj < |d| - 1 && d[jj] == '.';
    var j := i + 1 + jj;
    assert s[i + 1..j] == d[..jj];
    assert s[j + 1..] == d[jj + 1..];
    assert EmailSplitAt(s, i, j);
  }

  /** Any split the pattern allows puts its `@` first, so the scan accepts. */
  lemma ShapeIsMatched(s: string)
    requires EmailShape(s)
    ensures MatchesEmail(s)
  {
    var i, j :| EmailSplitAt(s, i, j);
    assert forall k :: 0 <= k < i ==> s[..i][k] == s[k];
    assert IndexOfAt(s) == i;
    var d := s[i + 1..];
    assert forall k :: 0 <= k < j - i - 1 ==> d[k] == s[i + 1..j][k];
    assert forall k :: j - i <= k < |d| ==> d[k] == s[j + 1..][k - (j - i)];
    assert d[j - i - 1] == '.';
    assert AllAddressChars(d);
    assert HasInnerDot(d);
  }

  /** The scan accepts exactly the strings of the regular expression's shape. */
  lemma MatchesEmailIff(s: string)
    ensures MatchesEmail(s) <==> EmailShape(s)
  {
    if MatchesEmail(s) {
      MatchesEmailHasShape(s);
    }
    if EmailShape(s) {
      ShapeIsMatched(s);
    }
  }

  /** A format-valid address has exactly one `@`. */
  lemma EmailHasOneAt(s: string)
    requires MatchesEmail(s)
    ensures multiset(s)['@'] == 1
  {
    var i := IndexOfAt(s);
    assert s == s[..i] + [s[i]] + s[i + 1..];
    assert '@' !in s[..i];
    var d := s[i + 1..];
    assert '@' !in d by {
      assert forall k :: 0 <= k < |d| ==> AddressChar(d[k]);
    }
    assert multiset(s) == multiset(s[..i]) + multiset{s[i]} + multiset(s[i + 1..]);
  }

  /** `{ isValid, error? }` as returned by the validators. */
  datatype Validation = Validation(isValid: bool, error: Option<string>)

  /** `validateEmail`: required, then the pattern and the bound of 254 UTF-16 code units. */
  function ValidateEmail(email: string): (r: Validation)
    ensures email == "" ==> r == Validation(false, Some("Email is required"))
    ensures r.isValid <==> EmailShape(email) && Utf16Length(email) <= MaxEmailLength
    ensures r.isValid <==> r.error.None?
    ensures email != "" && !r.isValid ==> r.error == Some("Invalid email format")
  {
    MatchesEmailIff(email);
    if email == "" then Validation(false, Some("Email is required"))
    else if !MatchesEmail(email) || Utf16Length(email) > MaxEmailLength then Validation(false, Some("Invalid email format"))
    else Validation(true, None)
  }

  // ---------------------------------------------------------------------
  // checkRateLimit
  // ---------------------------------------------------------------------

  const DefaultLimit: int := 5
  const DefaultWindowMs: int := 60000

  /** Per-key window: attempts counted since `lastReset`, and whether the key is blocked. */
  datatype RateState = RateState(attempts: int, lastReset: int, blocked: bool)

  type RateStore = map<string, RateState>

  /** `{ allowed, resetTime? }` (the message text is not modelled). */
  datatype RateDecision = RateDecision(allowed: bool, resetTime: Option<int>)

  datatype RateStep = RateStep(decision: RateDecision, store: RateStore)

  /** The state a call starts from: a fresh window for an unseen key or after `windowMs` has passed. */
  function WindowAt(store: RateStore, key: string, windowMs: int, now: int): (s: RateState)
    ensures key !in store || now - store[key].lastReset > windowMs ==> s == RateState(0, now, false)
    ensures key in store && now - store[key].lastReset <= windowMs ==> s == store[key]
  {
    if key !in store || now - store[key].lastReset > windowMs then RateState(0, now, false) else store[key]
  }

  /** `checkRateLimit(key, limit, windowMs)` at time `now`. */
  function CheckRateLimit(store: RateStore, key: string, limit: int, windowMs: int, now: int): (r: RateStep)
    // Only the caller's key is read or written.
    ensures key in r.store
    ensures forall k :: k != key ==> (k in r.store <==> k in store)
    ensures forall k :: k != key && k in store ==> r.store[k] == store[k]
    // The window is kept or restarted, never moved otherwise.
    ensures r.store[key].lastReset == WindowAt(store, key, windowMs, now).lastReset
    // An allowed call counts exactly one attempt and stays within the limit.
    ensures r.decision.allowed ==>
              && r.store[key].attempts == WindowAt(store, key, windowMs, now).attempts + 1
              && r.store[key].attempts <= limit
              && r.decision.resetTime.None?
              && r.store[key].blocked == WindowAt(store, key, windowMs, now).blocked
    // Every denial blocks the key and reports the end of its window.
    ensures !r.decision.allowed ==>
              r.store[key].blocked && r.decision.resetTime == Some(r.store[key].lastReset + windowMs)
    // A blocked key inside its window is refused without counting.
    ensures var s := WindowAt(store, key, windowMs, now);
            s.blocked && now - s.lastReset < windowMs ==> !r.decision.allowed && r.store[key] == s
    ensures r.store[key].attempts >= WindowAt(store, key, windowMs, now).attempts
    // Any other call is counted, allowed or not.
    ensures var s := WindowAt(store, key, windowMs, now);
            !(s.blocked && now - s.lastReset < windowMs) ==> r.store[key].attempts == s.attempts + 1
    // Otherwise the call is allowed exactly when counting it stays within the limit.
    ensures var s := WindowAt(store, key, windowMs, now);
            !(s.blocked && now - s.lastReset < windowMs) ==> (r.decision.allowed <==> s.attempts + 1 <= limit)
  {
    var s := WindowAt(store, key, windowMs, now);
    if s.blocked && now - s.lastReset < windowMs then
      RateStep(RateDecision(false, Some(s.lastReset + windowMs)), store[key := s])
    else
      var counted := s.(attempts := s.attempts + 1);
      if counted.attempts > limit then
        var blocked := counted.(blocked := true);
        RateStep(RateDecision(false, Some(blocked.lastReset + windowMs)), store[key := blocked])
      else
        RateStep(RateDecision(true, None), store[key := counted])
  }

  /** A state the limiter can produce for this limit: blocked only after exceeding it. */
  predicate WellFormedFor(s: RateState, limit: int) {
    s.blocked ==> s.attempts > limit
  }

  /** Every call keeps its key well formed for the limit in use. */
  lemma CheckRateLimitWellFormed(store: RateStore, key: string, limit: int, windowMs: int, now: int)
    requires key in store ==> WellFormedFor(store[key], limit)
    ensures WellFormedFor(CheckRateLimit(store, key, limit, windowMs, now).store[key], limit)
  {
  }

  /** Once blocked, a key is refused until more than `windowMs` has passed since `lastReset`. */
  lemma BlockedUntilWindowEnds(store: RateStore, key: string, limit: int, windowMs: int, now: int)
    requires key in store && store[key].blocked && WellFormedFor(store[key], limit)
    requires now - store[key].lastReset <= windowMs
    ensures !CheckRateLimit(store, key, limit, windowMs, now).decision.allowed
  {
  }

  /** Successive calls for one key at the given times; returns how many were allowed. */
  function CallsAt(store: RateStore, key: string, limit: int, windowMs: int, times: seq<int>): (RateStore, nat)
    decreases |times|
  {
    if |times| == 0 then (store, 0)
    else
      var step := CheckRateLimit(store, key, limit, windowMs, times[0]);
      var (final, n) := CallsAt(step.store, key, limit, windowMs, times[1..]);
      (final, n + if step.decision.allowed then 1 else 0)
  }

  /**
   * Within one window (no call more than `windowMs` after `lastReset`), at most
   * `limit - attempts` further calls are allowed.
   */
  lemma {:induction false} AtMostLimitPerWindow(store: RateStore, key: string, limit: int, windowMs: int, times: seq<int>)
    requires key in store
    requires forall t :: t in times ==> t - store[key].lastReset <= windowMs
    ensures var allowance := limit - store[key].attempts;
            CallsAt(store, key, limit, windowMs, times).1 <= (if allowance > 0 then allowance else 0)
    decreases |times|
  {
    if |times| > 0 {
      var step := CheckRateLimit(store, key, limit, windowMs, times[0]);
      assert times[0] in times;
      assert step.store[key].lastReset == store[key].lastReset;
      assert forall t :: t in times[1..] ==> t in times;
      AtMostLimitPerWindow(step.store, key, limit, windowMs, times[1..]);
    }
  }

  /** From an unseen key, at most `limit` calls inside the window opened by the first are allowed. */
  lemma AtMostLimitFromFirstCall(store: RateStore, key: string, limit: int, windowMs: int, times: seq<int>)
    requires key !in store && |times| > 0
    requires forall t :: t in times ==> t - times[0] <= windowMs
    ensures CallsAt(store, key, limit, windowMs, times).1 <= (if limit > 0 then limit else 0)
  {
    var step := CheckRateLimit(store, key, limit, windowMs, times[0]);
    assert step.store[key].lastReset == times[0];
    assert step.decision.allowed ==> step.store[key].attempts == 1;
    assert forall t :: t in times[1..] ==> t in times;
    AtMostLimitPerWindow(step.store, key, limit, windowMs, times[1..]);
  }

  /** The smaller of `n` and the non-negative part of `allowance`. */
  function Capped(n: nat, allowance: int): nat {
    if allowance <= 0 then 0 else if n < allowance then n else allowance
  }

  /**
   * Within one window, from a well-formed state, exactly `limit - attempts`
   * further calls are allowed (or every call, if there are fewer).
   */
  lemma {:induction false} ExactlyAllowancePerWindow(store: RateStore, key: string, limit: int, windowMs: int, times: seq<int>)
    requires key in store && WellFormedFor(store[key], limit)
    requires forall t :: t in times ==> t - store[key].lastReset <= windowMs
    ensures CallsAt(store, key, limit, windowMs, times).1 == Capped(|times|, limit - store[key].attempts)
    decreases |times|
  {
    if |times| > 0 {
      var step := CheckRateLimit(store, key, limit, windowMs, times[0]);
      assert times[0] in times;
      assert step.decision.allowed <==> store[key].attempts + 1 <= limit;
      assert step.store[key].lastReset == store[key].lastReset;
      assert step.decision.allowed ==> step.store[key].attempts == store[key].attempts + 1;
      assert !step.decision.allowed ==> step.store[key].attempts > limit;
      CheckRateLimitWellFormed(store, key, limit, windowMs, times[0]);
      assert forall t :: t in times[1..] ==> t in times;
      ExactlyAllowancePerWindow(step.store, key, limit, windowMs, times[1..]);
    }
  }

  /** From an unseen key, the first `limit` calls inside the window opened by the first call are allowed, and no more. */
  lemma ExactlyLimitFromFirstCall(store: RateStore, key: string, limit: int, windowMs: int, times: seq<int>)
    requires key !in store && |times| > 0
    requires forall t :: t in times ==> t - times[0] <= windowMs
    ensures CallsAt(store, key, limit, windowMs, times).1 == Capped(|times|, limit)
  {
    var step := CheckRateLimit(store, key, limit, windowMs, times[0]);
    assert step.store[key].lastReset == times[0];
    assert step.decision.allowed <==> 1 <= limit;
    assert step.store[key].attempts == 1;
    assert forall t :: t in times[1..] ==> t in times;
    ExactlyAllowancePerWindow(step.store, key, limit, windowMs, times[1..]);
  }

  /** With the default arguments a fresh key gets five calls per minute. */
  lemma DefaultsAllowFivePerMinute(store: RateStore, key: string, times: seq<int>)
    requires key !in store && |times| > 0
    requires forall t :: t in times ==> t - times[0] <= 60000
    ensures CallsAt(store, key, DefaultLimit, DefaultWindowMs, times).1 == if |times| < 5 then |times| else 5
  {
    ExactlyLimitFromFirstCall(store, key, DefaultLimit, DefaultWindowMs, times);
  }

  // ---------------------------------------------------------------------
  // validateFormData
  // ---------------------------------------------------------------------

  /** What a custom validator returns; an empty `error` falls back to the default message. */
  datatype CustomResult = CustomResult(isValid: bool, error: string)

  /**
   * A field's rules. Numbers use 0 for "absent", as the source's truthiness
   * tests do; `typeName` is "" when no type is required.
   */
  datatype Rules = Rules(
    required: bool,
    typeName: string,
    minLength: int,
    maxLength: int,
    maxItems: int,
    minItems: int,
    validate: Option<JsValue -> CustomResult>)

  /** One rule's verdict on a value: whether it fails, and the message recorded if it does. */
  datatype Check = Check(fails: bool, message: string)

  /** `s.trim() === ""` is stated as `AllWhitespace(s)`: a string is blank exactly when trimming leaves nothing. */
  lemma BlankIffTrimsToEmpty(s: string)
    ensures AllWhitespace(s) <==> Trim(s) == ""
  {
  }

  /** `required` fails: a falsy value, or a string that trims to nothing. */
  predicate MissingRequired(value: JsValue, rules: Rules) {
    rules.required && (!Truthy(value) || (value.Str? && AllWhitespace(value.s)))
  }

  /** `type` fails: a truthy value whose `typeof` is not the required name. */
  predicate WrongType(value: JsValue, rules: Rules) {
    Truthy(value) && rules.typeName != "" && TypeOf(value) != rules.typeName
  }

  /** `minLength` fails: a string with fewer UTF-16 code units than the bound. */
  predicate TooShort(value: JsValue, rules: Rules) {
    value.Str? && rules.minLength != 0 && Utf16Length(value.s) < rules.minLength
  }

  /** `maxLength` fails: a string with more UTF-16 code units than the bound. */
  predicate TooLong(value: JsValue, rules: Rules) {
    value.Str? && rules.maxLength != 0 && Utf16Length(value.s) > rules.maxLength
  }

  predicate TooManyItems(value: JsValue, rules: Rules) {
    value.Arr? && rules.maxItems != 0 && |value.items| > rules.maxItems
  }

  predicate TooFewItems(value: JsValue, rules: Rules) {
    value.Arr? && rules.minItems != 0 && |value.items| < rules.minItems
  }

  /** The custom validator's verdict; without one, a pass. */
  function CustomOutcome(value: JsValue, rules: Rules): CustomResult {
    if rules.validate.Some? then rules.validate.value(value) else CustomResult(true, "")
  }

  /** The rules in the order they are tried. */
  function Checks(field: string, value: JsValue, rules: Rules): (cs: seq<Check>)
    ensures |cs| == 7
  {
    var custom := CustomOutcome(value, rules);
    [ Check(MissingRequired(value, rules), field + " is required"),
      Check(WrongType(value, rules), field + " must be a " + rules.typeName),
      Check(TooShort(value, rules), field + " must be at least " + IntToString(rules.minLength) + " characters"),
      Check(TooLong(value, rules), field + " must be no more than " + IntToString(rules.maxLength) + " characters"),
      Check(TooManyItems(value, rules), field + " can have at most " + IntToString(rules.maxItems) + " items"),
      Check(TooFewItems(value, rules), field + " must have at least " + IntToString(rules.minItems) + " items"),
      Check(rules.validate.Some? && !custom.isValid, if custom.error != "" then custom.error else field + " is invalid") ]
  }

  /** The message of the first failing check. */
  function FirstFailure(cs: seq<Check>): (r: Option<string>)
    ensures r.None? <==> forall i :: 0 <= i < |cs| ==> !cs[i].fails
    ensures r.Some? ==> exists i :: 0 <= i < |cs| && cs[i].fails && r.value == cs[i].message
                                   && forall k :: 0 <= k < i ==> !cs[k].fails
  {
    if |cs| == 0 then None
    else if cs[0].fails then Some(cs[0].message)
    else
      var r := FirstFailure(cs[1..]);
      assert forall k :: 1 <= k < |cs| ==> cs[k] == cs[1..][k - 1];
      r
  }

  /** On seven checks, the first failure unrolls into seven tests in order. */
  lemma FirstOfSeven(cs: seq<Check>)
    requires |cs| == 7
    ensures FirstFailure(cs)
         == if cs[0].fails then Some(cs[0].message)
            else if cs[1].fails then Some(cs[1].message)
            else if cs[2].fails then Some(cs[2].message)
            else if cs[3].fails then Some(cs[3].message)
            else if cs[4].fails then Some(cs[4].message)
            else if cs[5].fails then Some(cs[5].message)
            else if cs[6].fails then Some(cs[6].message)
            else None
  {
    var c1 := cs[1..];
    var c2 := c1[1..];
    var c3 := c2[1..];
    var c4 := c3[1..];
    var c5 := c4[1..];
    var c6 := c5[1..];
    assert c6[1..] == [];
    assert FirstFailure(c6) == if c6[0].fails then Some(c6[0].message) else None;
    assert FirstFailure(c5) == if c5[0].fails then Some(c5[0].message) else FirstFailure(c6);
    assert FirstFailure(c4) == if c4[0].fails then Some(c4[0].message) else FirstFailure(c5);
    assert FirstFailure(c3) == if c3[0].fails then Some(c3[0].message) else FirstFailure(c4);
    assert FirstFailure(c2) == if c2[0].fails then Some(c2[0].message) else FirstFailure(c3);
    assert FirstFailure(c1) == if c1[0].fails then Some(c1[0].message) else FirstFailure(c2);
  }

  /** The loop body for one field: each rule is tried in turn and the first failure is recorded. */
  function FieldError(field: string, value: JsValue, rules: Rules): (r: Option<string>)
    // Rule precedence: the error is the first failing rule's message, and there is none only if every rule passes.
    ensures r == FirstFailure(Checks(field, value, rules))
  {
    var cs := Checks(field, value, rules);
    FirstOfSeven(cs);
    assert cs[0].fails == MissingRequired(value, rules) && cs[1].fails == WrongType(value, rules);
    assert cs[2].fails == TooShort(value, rules) && cs[3].fails == TooLong(value, rules);
    assert cs[4].fails == TooManyItems(value, rules) && cs[5].fails == TooFewItems(value, rules);
    if MissingRequired(value, rules) then
      Some(field + " is required")
    else if WrongType(value, rules) then
      Some(field + " must be a " + rules.typeName)
    else if TooShort(value, rules) then
      Some(field + " must be at least " + IntToString(rules.minLength) + " characters")
    else if TooLong(value, rules) then
      Some(field + " must be no more than " + IntToString(rules.maxLength) + " characters")
    else if TooManyItems(value, rules) then
      Some(field + " can have at most " + IntToString(rules.maxItems) + " items")
    else if TooFewItems(value, rules) then
      Some(field + " must have at least " + IntToString(rules.minItems) + " items")
    else if rules.validate.Some? then
      var result := rules.validate.value(value);
      if !result.isValid then Some(if result.error != "" then result.error else field + " is invalid") else None
    else None
  }

  /** A value that fails `required` gets the required message, whatever the other rules say. */
  lemma RequiredTakesPrecedence(field: string, value: JsValue, rules: Rules)
    requires rules.required && !Truthy(value)
    ensures FieldError(field, value, rules) == Some(field + " is required")
  {
  }

  /** `{ isValid, errors }` of `validateFormData`. */
  datatype FormResult = FormResult(isValid: bool, errors: map<string, string>)

  /**
   * `validateFormData(data, schema)`: every field of `data` that has rules is
   * checked; fields that only the schema names are not.
   */
  function ValidateFormData(data: map<string, JsValue>, schema: map<string, Rules>): (r: FormResult)
    ensures r.isValid <==> |r.errors| == 0
    ensures forall f :: f in r.errors ==> f in data && f in schema
    ensures forall f :: f in data && f in schema ==>
              (f in r.errors <==> FieldError(f, data[f], schema[f]).Some?)
    ensures forall f :: f in r.errors ==> r.errors[f] == FieldError(f, data[f], schema[f]).value
  {
    var errors := map f | f in data && f in schema && FieldError(f, data[f], schema[f]).Some?
                    :: FieldError(f, data[f], schema[f]).value;
    FormResult(|errors| == 0, errors)
  }

  /** A single astral character is two code units, so a one-unit `maxLength` rejects it. */
  lemma AstralCharTooLong()
    ensures FieldError("name", Str("\U{1F600}"), Rules(false, "", 0, 1, 0, 0, None))
         == Some("name must be no more than 1 characters")
  {
    var value := Str("\U{1F600}");
    var rules := Rules(false, "", 0, 1, 0, 0, None);
    AstralTooLongRule();
    assert !MissingRequired(value, rules) && !WrongType(value, rules);
    assert "name" + " must be no more than " + IntToString(1) + " characters" == "name must be no more than 1 characters" by {
      assert IntToString(1) == NatToString(1) == [Digit(1)] == "1";
    }
  }

  /** The length rules on one astral character against a bound of one unit. */
  lemma AstralTooLongRule()
    ensures TooLong(Str("\U{1F600}"), Rules(false, "", 0, 1, 0, 0, None))
    ensures !TooShort(Str("\U{1F600}"), Rules(false, "", 0, 1, 0, 0, None))
  {
    assert Utf16Length("\U{1F600}") == 2;
  }

  /** The same character as a whole form: `{name: "\u{1F600}"}` against `{name: {maxLength: 1}}` is invalid. */
  lemma AstralCharFormInvalid()
    ensures var r := ValidateFormData(map["name" := Str("\U{1F600}")], map["name" := Rules(false, "", 0, 1, 0, 0, None)]);
            !r.isValid && "name" in r.errors && r.errors["name"] == "name must be no more than 1 characters"
  {
    AstralCharTooLong();
  }

  /** A field that fails a rule makes the whole form invalid. */
  lemma FailingFieldInvalidatesForm(data: map<string, JsValue>, schema: map<string, Rules>, f: string)
    requires f in data && f in schema && FieldError(f, data[f], schema[f]).Some?
    ensures !ValidateFormData(data, schema).isValid
  {
    assert f in ValidateFormData(data, schema).errors;
  }
}
