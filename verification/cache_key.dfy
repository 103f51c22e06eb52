/**
 * Cache-key derivation of the response cache (`generateCacheKey`):
 * strip `http(s)://host`, sort the parameter names, drop `undefined`,
 * `null` and `""` values, build a plain object from what is left and
 * serialise it as a query string.
 *
 * Building an object reorders its keys: integer-like names ("0", "9",
 * "10") are enumerated first, in numeric order, and only then the other
 * names in insertion order. `EmittedParams` reproduces that order.
 * The percent-encoding of `URLSearchParams` is the parameter `escape`.
 */
module CacheKey {
  import opened JsStrings
  import opened JsValues
  import opened Wrappers

  type Param = (string, JsValue)

  // ---------------------------------------------------------------------
  // Domain stripping: url.replace(/^https?:\/\/[^\/]+/, "")
  // ---------------------------------------------------------------------

  /** Length of the `http://` or `https://` prefix of `url`, or 0 if it has neither. */
  function SchemeLength(url: string): (n: nat)
    ensures n == 0 || n == 7 || n == 8
    ensures n == 7 ==> StartsWith(url, "http://")
    ensures n == 8 ==> StartsWith(url, "https://")
    ensures n == 0 ==> !StartsWith(url, "http://") && !StartsWith(url, "https://")
  {
    if StartsWith(url, "https://") then 8
    else if StartsWith(url, "http://") then 7
    else 0
  }

  /** Length of the longest prefix of `s` that contains no `/` (the greedy `[^\/]+`). */
  function HostLength(s: string): (n: nat)
    ensures n <= |s|
    ensures forall i :: 0 <= i < n ==> s[i] != '/'
    ensures n == |s| || s[n] == '/'
  {
    if |s| == 0 || s[0] == '/' then 0 else 1 + HostLength(s[1..])
  }

  /** Number of leading characters the domain-stripping regular expression removes. */
  function DomainLength(url: string): (m: nat)
    ensures m <= |url|
    // The pattern matches exactly when a scheme is followed by at least one non-'/' character.
    ensures var n := SchemeLength(url);
            m == 0 <==> n == 0 || n == |url| || url[n] == '/'
    // A match runs from the scheme to the first '/' after it, or to the end.
    ensures var n := SchemeLength(url);
            m > 0 ==> n < m && (forall i :: n <= i < m ==> url[i] != '/') && (m == |url| || url[m] == '/')
  {
    var n := SchemeLength(url);
    var h := HostLength(url[n..]);
    if n > 0 && h > 0 then n + h else 0
  }

  /**
   * The request path with any leading `http://host` or `https://host` removed.
   * A scheme followed directly by `/` (or by nothing) has no host and is kept.
   */
  function StripDomain(url: string): (r: string)
    ensures |r| <= |url|
    ensures r == url[|url| - |r|..]
    ensures !StartsWith(url, "http://") && !StartsWith(url, "https://") ==> r == url
    ensures |r| < |url| ==> r == [] || r[0] == '/'
    ensures var n := SchemeLength(url);
            |r| < |url| <==> n > 0 && n < |url| && url[n] != '/'
    ensures |r| < |url| ==>
              var n := if StartsWith(url, "https://") then 8 else 7;
              n < |url| - |r| && forall i :: n <= i < |url| - |r| ==> url[i] != '/'
  {
    url[DomainLength(url)..]
  }

  /** Stripping an absolute URL built from a scheme, a host and a path gives back exactly the path. */
  lemma StripDomainOfAbsolute(scheme: string, host: string, path: string)
    requires scheme == "http://" || scheme == "https://"
    requires |host| > 0 && '/' !in host
    requires path == [] || path[0] == '/'
    ensures StripDomain(scheme + host + path) == path
  {
    var url := scheme + host + path;
    var n := |scheme|;
    assert url[..n] == scheme;
    assert SchemeLength(url) == n by {
      assert scheme == "http://" ==> url[4] == ':';
    }
    var rest := url[n..];
    assert rest == host + path;
    assert |path| > 0 ==> rest[|host|] == '/';
    assert url[n + |host|..] == path;
  }

  /** A relative URL (no http or https scheme) is its own key path. */
  lemma StripDomainKeepsRelative(url: string)
    requires !StartsWith(url, "http://") && !StartsWith(url, "https://")
    ensures StripDomain(url) == url
  {
  }

  // ---------------------------------------------------------------------
  // Key orders and sorting
  // ---------------------------------------------------------------------

  /** `Lexicographic` is the order of `Array.prototype.sort`; `Numeric` orders canonical integer names by value. */
  datatype KeyOrder = Lexicographic | Numeric

  /**
   * Strict order on names. For canonical decimal numerals (no leading zero),
   * comparing by length and then lexicographically is comparing by value.
   */
  predicate KeyLt(o: KeyOrder, a: string, b: string) {
    match o
    case Lexicographic => StrLt(a, b)
    case Numeric => |a| < |b| || (|a| == |b| && StrLt(a, b))
  }

  lemma KeyLtIrreflexive(o: KeyOrder, a: string)
    ensures !KeyLt(o, a, a)
  {
    StrLtIrreflexive(a);
  }

  lemma KeyLtTransitive(o: KeyOrder, a: string, b: string, c: string)
    requires KeyLt(o, a, b) && KeyLt(o, b, c)
    ensures KeyLt(o, a, c)
  {
    if StrLt(a, b) && StrLt(b, c) {
      StrLtTransitive(a, b, c);
    }
  }

  lemma KeyLtAsymmetric(o: KeyOrder, a: string, b: string)
    ensures !(KeyLt(o, a, b) && KeyLt(o, b, a))
  {
    if KeyLt(o, a, b) && KeyLt(o, b, a) {
      KeyLtTransitive(o, a, b, a);
      KeyLtIrreflexive(o, a);
    }
  }

  lemma KeyLtTotal(o: KeyOrder, a: string, b: string)
    requires a != b
    ensures KeyLt(o, a, b) || KeyLt(o, b, a)
  {
    StrLtTotal(a, b);
  }

  /** The parameters appear in strictly increasing name order. */
  predicate StrictlySorted(o: KeyOrder, s: seq<Param>) {
    forall i, j :: 0 <= i < j < |s| ==> KeyLt(o, s[i].0, s[j].0)
  }

  /** No parameter name occurs twice: true of every list taken from a JavaScript object. */
  predicate DistinctKeys(s: seq<Param>) {
    forall i, j :: 0 <= i < j < |s| ==> s[i].0 != s[j].0
  }

  /** `k` is the name of some parameter of `s`. */
  predicate HasKey(s: seq<Param>, k: string) {
    exists i :: 0 <= i < |s| && s[i].0 == k
  }

  lemma StrictlySortedDistinct(o: KeyOrder, s: seq<Param>)
    requires StrictlySorted(o, s)
    ensures DistinctKeys(s)
  {
    forall i, j | 0 <= i < j < |s| ensures s[i].0 != s[j].0 {
      KeyLtIrreflexive(o, s[i].0);
    }
  }

  /** A parameter named below every member of a sorted list can head it. */
  lemma ConsSorted(o: KeyOrder, x: Param, s: seq<Param>)
    requires StrictlySorted(o, s)
    requires forall y :: y in s ==> KeyLt(o, x.0, y.0)
    ensures StrictlySorted(o, [x] + s)
  {
    var r := [x] + s;
    forall i, j | 0 <= i < j < |r| ensures KeyLt(o, r[i].0, r[j].0) {
      assert r[j] == s[j - 1];
      if i > 0 {
        assert r[i] == s[i - 1];
      } else {
        assert s[j - 1] in s;
      }
    }
  }

  /** A name below a sorted list's head is below all of it. */
  lemma BelowHeadBelowAll(o: KeyOrder, x: Param, s: seq<Param>)
    requires StrictlySorted(o, s) && |s| > 0 && KeyLt(o, x.0, s[0].0)
    ensures forall y :: y in s ==> KeyLt(o, x.0, y.0)
  {
    forall y | y in s ensures KeyLt(o, x.0, y.0) {
      var j :| 0 <= j < |s| && s[j] == y;
      if j > 0 {
        KeyLtTransitive(o, x.0, s[0].0, s[j].0);
      }
    }
  }

  /** A sorted list's head is below every later member, and below `x` when `x` is above it. */
  lemma HeadBelowRest(o: KeyOrder, s: seq<Param>, x: Param, t: seq<Param>)
    requires StrictlySorted(o, s) && |s| > 0 && KeyLt(o, s[0].0, x.0)
    requires forall y :: y in t <==> y == x || y in s[1..]
    ensures forall y :: y in t ==> KeyLt(o, s[0].0, y.0)
  {
    forall y | y in t ensures KeyLt(o, s[0].0, y.0) {
      if y != x {
        var k :| 0 <= k < |s[1..]| && s[1..][k] == y;
        assert y == s[k + 1];
      }
    }
  }

  /** Dropping the head keeps a missing name missing. */
  lemma TailLacksKey(s: seq<Param>, k: string)
    requires |s| > 0 && !HasKey(s, k)
    ensures !HasKey(s[1..], k)
  {
    forall i | 0 <= i < |s[1..]| ensures s[1..][i].0 != k {
      assert s[1..][i] == s[i + 1];
    }
  }

  /** Inserts `x` into a strictly sorted list whose names differ from `x`'s. */
  function Insert(o: KeyOrder, x: Param, s: seq<Param>): (r: seq<Param>)
    requires StrictlySorted(o, s)
    requires !HasKey(s, x.0)
    ensures |r| == |s| + 1
    ensures multiset(r) == multiset(s) + multiset{x}
    ensures forall y :: y in r <==> y == x || y in s
    ensures StrictlySorted(o, r)
  {
    if |s| == 0 then [x]
    else if KeyLt(o, x.0, s[0].0) then
      BelowHeadBelowAll(o, x, s);
      ConsSorted(o, x, s);
      [x] + s
    else
      assert s[0].0 != x.0;
      KeyLtTotal(o, x.0, s[0].0);
      TailLacksKey(s, x.0);
      var t := Insert(o, x, s[1..]);
      assert s == [s[0]] + s[1..];
      HeadBelowRest(o, s, x, t);
      ConsSorted(o, s[0], t);
      [s[0]] + t
  }

  /** Dropping the head keeps names distinct. */
  lemma TailDistinct(s: seq<Param>)
    requires |s| > 0 && DistinctKeys(s)
    ensures DistinctKeys(s[1..])
  {
    forall i, j | 0 <= i < j < |s[1..]| ensures s[1..][i].0 != s[1..][j].0 {
      assert s[1..][i] == s[i + 1] && s[1..][j] == s[j + 1];
    }
  }

  /** A list with the members of the tail does not carry the head's name. */
  lemma HeadNameNotInTail(s: seq<Param>, t: seq<Param>)
    requires |s| > 0 && DistinctKeys(s)
    requires forall y :: y in t <==> y in s[1..]
    ensures !HasKey(t, s[0].0)
  {
    forall i | 0 <= i < |t| ensures t[i].0 != s[0].0 {
      assert t[i] in t;
      var k :| 0 <= k < |s[1..]| && s[1..][k] == t[i];
      assert t[i] == s[k + 1];
    }
  }

  /** Insertion sort of a list of parameters with pairwise distinct names. */
  function SortBy(o: KeyOrder, s: seq<Param>): (r: seq<Param>)
    requires DistinctKeys(s)
    ensures |r| == |s|
    ensures multiset(r) == multiset(s)
    ensures forall y :: y in r <==> y in s
    ensures StrictlySorted(o, r)
  {
    if |s| == 0 then []
    else
      TailDistinct(s);
      var t := SortBy(o, s[1..]);
      HeadNameNotInTail(s, t);
      assert s == [s[0]] + s[1..];
      Insert(o, s[0], t)
  }

  /** Two strictly sorted lists holding the same parameters are the same list. */
  lemma {:induction false} StrictlySortedUnique(o: KeyOrder, a: seq<Param>, b: seq<Param>)
    requires StrictlySorted(o, a) && StrictlySorted(o, b)
    requires forall y :: y in a <==> y in b
    ensures a == b
    decreases |a|
  {
    assert |a| > 0 ==> a[0] in b;
    assert |b| > 0 ==> b[0] in a;
    if |a| > 0 && |b| > 0 {
      var i :| 0 <= i < |a| && a[i] == b[0];
      var j :| 0 <= j < |b| && b[j] == a[0];
      KeyLtAsymmetric(o, a[0].0, b[0].0);
      assert i == 0 || j == 0;
      assert a[0] == b[0];
      forall y ensures y in a[1..] <==> y in b[1..] {
        if y in a[1..] {
          var k :| 0 <= k < |a[1..]| && a[1..][k] == y;
          assert y == a[k + 1];
          KeyLtIrreflexive(o, a[0].0);
          assert y != a[0];
          assert y in b;
          assert y == b[0] || y in b[1..] by { assert b == [b[0]] + b[1..]; }
        }
        if y in b[1..] {
          var k :| 0 <= k < |b[1..]| && b[1..][k] == y;
          assert y == b[k + 1];
          KeyLtIrreflexive(o, b[0].0);
          assert y != b[0];
          assert y in a;
          assert y == a[0] || y in a[1..] by { assert a == [a[0]] + a[1..]; }
        }
      }
      StrictlySortedUnique(o, a[1..], b[1..]);
      assert a == [a[0]] + a[1..] && b == [b[0]] + b[1..];
    }
  }

  // ---------------------------------------------------------------------
  // Filtering and the object's own-property order
  // ---------------------------------------------------------------------

  /** The `reduce` keeps a value unless it is `undefined`, `null` or the empty string. */
  predicate Kept(v: JsValue) {
    !(v.Undefined? || v.Null? || v == Str(""))
  }

  /** An array index in ECMAScript's sense: the canonical numeral of an integer below 2^32 - 1. */
  predicate IsArrayIndex(k: string) {
    && |k| > 0
    && (forall i :: 0 <= i < |k| ==> IsDigit(k[i]))
    && (k == "0" || k[0] != '0')
    && DecimalValue(k) < 0xFFFF_FFFF
  }

  /** The three ways the key derivation picks parameters out of a list. */
  datatype Selector = KeptValues | IndexNames | OtherNames

  predicate Selects(f: Selector, y: Param) {
    match f
    case KeptValues => Kept(y.1)
    case IndexNames => IsArrayIndex(y.0)
    case OtherNames => !IsArrayIndex(y.0)
  }

  /** The parameters `f` picks, in their original order. */
  function Select(s: seq<Param>, f: Selector): (r: seq<Param>)
    ensures forall y :: y in r <==> y in s && Selects(f, y)
  {
    if |s| == 0 then []
    else
      var t := Select(s[1..], f);
      assert s == [s[0]] + s[1..];
      if Selects(f, s[0]) then [s[0]] + t else t
  }

  /** Selecting keeps a strictly sorted list strictly sorted. */
  lemma {:induction false} SelectSorted(o: KeyOrder, s: seq<Param>, f: Selector)
    requires StrictlySorted(o, s)
    ensures StrictlySorted(o, Select(s, f))
  {
    if |s| > 0 {
      SelectSorted(o, s[1..], f);
      var t := Select(s[1..], f);
      forall j | 0 <= j < |t| ensures KeyLt(o, s[0].0, t[j].0) {
        assert t[j] in t;
        var k :| 0 <= k < |s[1..]| && s[1..][k] == t[j];
        assert t[j] == s[k + 1];
      }
    }
  }

  /** The order shape `PropertyOrder` promises: index names ascending by value, then the rest ascending by text. */
  predicate IndexNamesFirst(r: seq<Param>, n: int) {
    && 0 <= n <= |r|
    && (forall i :: 0 <= i < n ==> IsArrayIndex(r[i].0))
    && (forall i :: n <= i < |r| ==> !IsArrayIndex(r[i].0))
    && StrictlySorted(Numeric, r[..n])
    && StrictlySorted(Lexicographic, r[n..])
  }

  lemma ConcatIndexNamesFirst(idx: seq<Param>, rest: seq<Param>)
    requires forall y :: y in idx ==> IsArrayIndex(y.0)
    requires forall y :: y in rest ==> !IsArrayIndex(y.0)
    requires StrictlySorted(Numeric, idx) && StrictlySorted(Lexicographic, rest)
    ensures IndexNamesFirst(idx + rest, |idx|)
  {
    var r := idx + rest;
    assert r[..|idx|] == idx && r[|idx|..] == rest;
    forall i | 0 <= i < |idx| ensures IsArrayIndex(r[i].0) {
      assert r[i] == idx[i] && idx[i] in idx;
    }
    forall i | |idx| <= i < |r| ensures !IsArrayIndex(r[i].0) {
      assert r[i] == rest[i - |idx|] && rest[i - |idx|] in rest;
    }
  }

  /**
   * Enumeration order of an object built by inserting `s` in order:
   * array-index names first, ascending by value, then the rest as inserted.
   */
  function PropertyOrder(s: seq<Param>): (r: seq<Param>)
    requires StrictlySorted(Lexicographic, s)
    ensures forall y :: y in r <==> y in s
    ensures exists n :: IndexNamesFirst(r, n)
  {
    var idx := Select(s, IndexNames);
    var rest := Select(s, OtherNames);
    SelectSorted(Lexicographic, s, IndexNames);
    SelectSorted(Lexicographic, s, OtherNames);
    StrictlySortedDistinct(Lexicographic, idx);
    var sorted := SortBy(Numeric, idx);
    ConcatIndexNamesFirst(sorted, rest);
    sorted + rest
  }

  /** The parameters the key is built from, in the order they are serialised. */
  function EmittedParams(params: seq<Param>): (r: seq<Param>)
    requires DistinctKeys(params)
    ensures forall y :: y in r <==> y in params && Kept(y.1)
  {
    var sorted := SortBy(Lexicographic, params);
    SelectSorted(Lexicographic, sorted, KeptValues);
    PropertyOrder(Select(sorted, KeptValues))
  }

  /** `URLSearchParams(record).toString()`: `name=value` pairs joined by `&`. */
  function Serialize(s: seq<Param>, escape: string -> string): (r: string)
    ensures r == "" <==> |s| == 0
  {
    if |s| == 0 then ""
    else
      var pair := escape(s[0].0) + "=" + escape(ToString(s[0].1));
      assert pair[|escape(s[0].0)|] == '=';
      if |s| == 1 then pair else pair + "&" + Serialize(s[1..], escape)
  }

  /**
   * `generateCacheKey(url, params)`. Without `params` the stripped path is the
   * key; otherwise the serialised kept parameters follow a `?`, unless none is kept.
   */
  function GenerateCacheKey(url: string, params: Option<seq<Param>>, escape: string -> string): (r: string)
    requires params.Some? ==> DistinctKeys(params.value)
    ensures params.None? ==> r == StripDomain(url)
    ensures params.Some? ==>
              r == (if EmittedParams(params.value) == [] then StripDomain(url)
                    else StripDomain(url) + "?" + Serialize(EmittedParams(params.value), escape))
    ensures params.Some? ==>
              (r == StripDomain(url) <==> forall y :: y in params.value ==> !Kept(y.1))
  {
    var base := StripDomain(url);
    match params
    case None => base
    case Some(p) =>
      var query := Serialize(EmittedParams(p), escape);
      if query != "" then
        assert |base + "?" + query| > |base|;
        assert EmittedParams(p)[0] in EmittedParams(p);
        base + "?" + query
      else base
  }

  /**
   * The key depends only on the set of kept (name, value) pairs: reordering the
   * parameters, or adding and removing `undefined`, `null` or `""` ones, gives the same key.
   */
  lemma KeyDependsOnlyOnKeptParams(url: string, p1: seq<Param>, p2: seq<Param>, escape: string -> string)
    requires DistinctKeys(p1) && DistinctKeys(p2)
    requires forall y :: (y in p1 && Kept(y.1)) <==> (y in p2 && Kept(y.1))
    ensures GenerateCacheKey(url, Some(p1), escape) == GenerateCacheKey(url, Some(p2), escape)
  {
    var k1 := Select(SortBy(Lexicographic, p1), KeptValues);
    var k2 := Select(SortBy(Lexicographic, p2), KeptValues);
    SelectSorted(Lexicographic, SortBy(Lexicographic, p1), KeptValues);
    SelectSorted(Lexicographic, SortBy(Lexicographic, p2), KeptValues);
    StrictlySortedUnique(Lexicographic, k1, k2);
  }

  /** Corollary: two lists that are permutations of each other give the same key. */
  lemma KeyIgnoresParamOrder(url: string, p1: seq<Param>, p2: seq<Param>, escape: string -> string)
    requires DistinctKeys(p1) && DistinctKeys(p2)
    requires multiset(p1) == multiset(p2)
    ensures GenerateCacheKey(url, Some(p1), escape) == GenerateCacheKey(url, Some(p2), escape)
  {
    assert forall y :: y in p1 <==> y in p2 by {
      forall y ensures y in p1 <==> y in p2 {
        assert y in p1 <==> y in multiset(p1);
        assert y in p2 <==> y in multiset(p2);
      }
    }
    KeyDependsOnlyOnKeptParams(url, p1, p2, escape);
  }

  /** An empty-string, `null` or `undefined` parameter never changes the key. */
  lemma EmptyParamIgnored(url: string, p: seq<Param>, name: string, v: JsValue, escape: string -> string)
    requires DistinctKeys(p)
    requires !HasKey(p, name)
    requires !Kept(v)
    ensures DistinctKeys(p + [(name, v)])
    ensures GenerateCacheKey(url, Some(p + [(name, v)]), escape) == GenerateCacheKey(url, Some(p), escape)
  {
    var q := p + [(name, v)];
    assert DistinctKeys(q) by {
      forall i, j | 0 <= i < j < |q| ensures q[i].0 != q[j].0 {
        if j == |p| {
          assert q[i] == p[i];
        }
      }
    }
    KeyDependsOnlyOnKeptParams(url, q, p, escape);
  }

  /** With no parameter kept, the key is the stripped path, exactly as if no parameters were passed. */
  lemma AllEmptyParamsGiveBarePath(url: string, p: seq<Param>, escape: string -> string)
    requires DistinctKeys(p)
    requires forall y :: y in p ==> !Kept(y.1)
    ensures GenerateCacheKey(url, Some(p), escape) == GenerateCacheKey(url, None, escape)
  {
  }
}
