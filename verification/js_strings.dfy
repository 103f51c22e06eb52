/**
 * The parts of JavaScript's string library the model relies on: the
 * whitespace class shared by `\s` and `String.prototype.trim`, `trim`,
 * `includes`, `startsWith`, `substring(0, n)`, `length` in UTF-16 code
 * units, ASCII upper-casing,
 * lexicographic comparison as `Array.prototype.sort` uses it, and
 * decimal rendering of integers.
 */
module JsStrings {

  /** ECMAScript WhiteSpace and LineTerminator code points (the `\s` class and what `trim` strips). */
  predicate IsWhitespace(c: char) {
    var n := c as int;
    n == 0x09 || n == 0x0A || n == 0x0B || n == 0x0C || n == 0x0D || n == 0x20
    || n == 0xA0 || n == 0x1680 || (0x2000 <= n <= 0x200A) || n == 0x2028 || n == 0x2029
    || n == 0x202F || n == 0x205F || n == 0x3000 || n == 0xFEFF
  }

  /** Every character is whitespace (the empty string included). */
  predicate AllWhitespace(s: string) {
    forall i :: 0 <= i < |s| ==> IsWhitespace(s[i])
  }

  /** Drops leading whitespace. */
  function TrimStart(s: string): (r: string)
    ensures |r| <= |s| && r == s[|s| - |r|..]
    ensures r == [] || !IsWhitespace(r[0])
    ensures forall i :: 0 <= i < |s| - |r| ==> IsWhitespace(s[i])
  {
    if |s| > 0 && IsWhitespace(s[0]) then
      var r := TrimStart(s[1..]);
      assert forall i :: 1 <= i < |s| ==> s[i] == s[1..][i - 1];
      r
    else s
  }

  /** Drops trailing whitespace. */
  function TrimEnd(s: string): (r: string)
    ensures |r| <= |s| && r == s[..|r|]
    ensures r == [] || !IsWhitespace(r[|r| - 1])
    ensures forall i :: |r| <= i < |s| ==> IsWhitespace(s[i])
  {
    if |s| > 0 && IsWhitespace(s[|s| - 1]) then TrimEnd(s[..|s| - 1]) else s
  }

  /** A prefix of the suffix from `k` sits at index `k`. */
  lemma PrefixOfSuffixOccurs(s: string, a: string, b: string, k: nat)
    requires k <= |s| && a == s[k..] && |b| <= |a| && b == a[..|b|]
    ensures OccursAt(s, b, k)
  {
    assert s[k..k + |b|] == b by {
      forall i | 0 <= i < |b| ensures s[k..k + |b|][i] == b[i] {
        assert b[i] == a[i] == s[k + i];
      }
    }
  }

  /** Trimming both ends leaves the infix starting where the leading whitespace ends. */
  lemma TrimBothInfix(s: string)
    ensures OccursAt(s, TrimEnd(TrimStart(s)), |s| - |TrimStart(s)|)
  {
    var a := TrimStart(s);
    PrefixOfSuffixOccurs(s, a, TrimEnd(a), |s| - |a|);
  }

  /** `r` sits at index `k` of `s`, and everything before and after it is whitespace. */
  predicate TrimmedAt(s: string, r: string, k: int) {
    && OccursAt(s, r, k)
    && (forall i :: 0 <= i < k ==> IsWhitespace(s[i]))
    && (forall i :: k + |r| <= i < |s| ==> IsWhitespace(s[i]))
  }

  /** A whitespace-flanked prefix of a whitespace-preceded suffix is trimmed at `k`. */
  lemma FlankedPrefixTrimmedAt(s: string, a: string, r: string, k: nat)
    requires k <= |s| && a == s[k..] && |r| <= |a| && r == a[..|r|]
    requires forall i :: 0 <= i < k ==> IsWhitespace(s[i])
    requires forall j :: |r| <= j < |a| ==> IsWhitespace(a[j])
    ensures TrimmedAt(s, r, k)
  {
    PrefixOfSuffixOccurs(s, a, r, k);
    forall i | k + |r| <= i < |s| ensures IsWhitespace(s[i]) {
      assert s[i] == a[i - k];
    }
  }

  /** Trimming both ends removes whitespace only: the survivor is flanked by whitespace alone. */
  lemma TrimBothTrimmedAt(s: string)
    ensures TrimmedAt(s, TrimEnd(TrimStart(s)), |s| - |TrimStart(s)|)
  {
    var a := TrimStart(s);
    FlankedPrefixTrimmedAt(s, a, TrimEnd(a), |s| - |a|);
  }

  /** Neither end of the survivor is whitespace. */
  lemma TrimBothEnds(s: string, r: string)
    requires r == TrimEnd(TrimStart(s))
    ensures r == [] || (!IsWhitespace(r[0]) && !IsWhitespace(r[|r| - 1]))
  {
    var a := TrimStart(s);
    assert r == [] || r[0] == a[0];
  }

  /**
   * A trimmed infix with non-whitespace ends is made of characters of `s`,
   * and it is empty exactly when `s` is all whitespace.
   */
  lemma TrimmedAtFacts(s: string, r: string, k: int)
    requires TrimmedAt(s, r, k)
    requires r == [] || (!IsWhitespace(r[0]) && !IsWhitespace(r[|r| - 1]))
    ensures |r| <= |s|
    ensures forall i :: 0 <= i < |r| ==> r[i] in s
    ensures AllWhitespace(s) <==> r == []
  {
    forall i | 0 <= i < |r| ensures r[i] in s {
      assert r[i] == s[k..k + |r|][i] == s[k + i];
    }
    if |r| > 0 {
      assert s[k] == r[0];
    }
  }

  /** `String.prototype.trim`: the longest infix with no whitespace at either end. */
  function Trim(s: string): (r: string)
    ensures |r| <= |s|
    ensures exists k :: TrimmedAt(s, r, k)
    ensures forall i :: 0 <= i < |r| ==> r[i] in s
    ensures r == [] || (!IsWhitespace(r[0]) && !IsWhitespace(r[|r| - 1]))
    ensures AllWhitespace(s) <==> r == []
  {
    var k := |s| - |TrimStart(s)|;
    var r := TrimEnd(TrimStart(s));
    TrimBothTrimmedAt(s);
    TrimBothEnds(s, r);
    TrimmedAtFacts(s, r, k);
    r
  }

  /** `String.prototype.substring(0, n)` for `n >= 0`. */
  function Truncate(s: string, n: nat): (r: string)
    ensures |r| == if |s| <= n then |s| else n
    ensures r == s[..|r|]
  {
    if |s| <= n then s else s[..n]
  }

  /** A character outside the Basic Multilingual Plane is a surrogate pair in UTF-16. */
  predicate IsAstral(c: char) {
    c as int > 0xFFFF
  }

  /** `s.length`: the number of UTF-16 code units, two for each astral character. */
  function Utf16Length(s: string): (n: nat)
    ensures |s| <= n <= 2 * |s|
    ensures n == |s| <==> forall i :: 0 <= i < |s| ==> !IsAstral(s[i])
  {
    if |s| == 0 then 0
    else
      var n := (if IsAstral(s[0]) then 2 else 1) + Utf16Length(s[1..]);
      assert forall i :: 1 <= i < |s| ==> s[i] == s[1..][i - 1];
      n
  }

  /** Code units add up over concatenation. */
  lemma {:induction false} Utf16LengthConcat(a: string, b: string)
    ensures Utf16Length(a + b) == Utf16Length(a) + Utf16Length(b)
  {
    if |a| > 0 {
      Utf16LengthConcat(a[1..], b);
      assert (a + b)[0] == a[0] && (a + b)[1..] == a[1..] + b;
    } else {
      assert a + b == b;
    }
  }

  /** `s.startsWith(p)`. */
  predicate StartsWith(s: string, p: string) {
    |p| <= |s| && s[..|p|] == p
  }

  /** `p` occurs in `s` starting at index `i`. */
  predicate OccursAt(s: string, p: string, i: int) {
    0 <= i && i + |p| <= |s| && s[i..i + |p|] == p
  }

  /** `s.includes(p)`, by scanning the start positions from left to right. */
  predicate Includes(s: string, p: string)
    decreases |s|
  {
    StartsWith(s, p) || (|s| > 0 && Includes(s[1..], p))
  }

  /** `Includes` holds exactly when some position of `s` starts an occurrence of `p`. */
  lemma {:induction false} IncludesIff(s: string, p: string)
    ensures Includes(s, p) <==> exists i :: OccursAt(s, p, i)
    decreases |s|
  {
    if Includes(s, p) {
      IncludesWitness(s, p);
    }
    forall i | OccursAt(s, p, i) ensures Includes(s, p) {
      OccursAtIncludes(s, p, i);
    }
  }

  lemma {:induction false} IncludesWitness(s: string, p: string)
    requires Includes(s, p)
    ensures exists i :: OccursAt(s, p, i)
    decreases |s|
  {
    if StartsWith(s, p) {
      assert OccursAt(s, p, 0);
    } else {
      IncludesWitness(s[1..], p);
      var i :| OccursAt(s[1..], p, i);
      assert s[1..][i..i + |p|] == s[i + 1..i + 1 + |p|];
      assert OccursAt(s, p, i + 1);
    }
  }

  lemma {:induction false} OccursAtIncludes(s: string, p: string, i: int)
    requires OccursAt(s, p, i)
    ensures Includes(s, p)
    decreases i
  {
    if i > 0 {
      assert s[1..][i - 1..i - 1 + |p|] == s[i..i + |p|];
      OccursAtIncludes(s[1..], p, i - 1);
    }
  }

  /** The empty string occurs in every string. */
  lemma IncludesEmpty(s: string)
    ensures Includes(s, "")
  {
    assert StartsWith(s, "");
  }

  /** ASCII upper-casing of one character. */
  function UpperChar(c: char): (u: char)
    ensures 'a' <= c <= 'z' ==> 'A' <= u <= 'Z' && u as int - c as int == 'A' as int - 'a' as int
    ensures !('a' <= c <= 'z') ==> u == c
  {
    if 'a' <= c <= 'z' then (c as int - 'a' as int + 'A' as int) as char else c
  }

  /** `String.prototype.toUpperCase`, restricted to the ASCII letters. */
  function ToUpper(s: string): (r: string)
    ensures |r| == |s|
    ensures forall i :: 0 <= i < |s| ==> r[i] == UpperChar(s[i])
  {
    seq(|s|, i requires 0 <= i < |s| => UpperChar(s[i]))
  }

  /**
   * Lexicographic order on characters. `Array.prototype.sort` compares UTF-16 code units,
   * which agrees with this order except between characters above U+FFFF and those from
   * U+E000 to U+FFFF.
   */
  predicate StrLt(a: string, b: string) {
    if |a| == 0 then |b| > 0
    else if |b| == 0 then false
    else if a[0] != b[0] then a[0] < b[0]
    else StrLt(a[1..], b[1..])
  }

  lemma {:induction false} StrLtIrreflexive(a: string)
    ensures !StrLt(a, a)
  {
    if |a| > 0 {
      StrLtIrreflexive(a[1..]);
    }
  }

  lemma {:induction false} StrLtTransitive(a: string, b: string, c: string)
    requires StrLt(a, b) && StrLt(b, c)
    ensures StrLt(a, c)
  {
    if |a| > 0 && |b| > 0 && |c| > 0 && a[0] == b[0] && b[0] == c[0] {
      StrLtTransitive(a[1..], b[1..], c[1..]);
    }
  }

  lemma {:induction false} StrLtTotal(a: string, b: string)
    requires a != b
    ensures StrLt(a, b) || StrLt(b, a)
  {
    if |a| > 0 && |b| > 0 && a[0] == b[0] {
      assert a == [a[0]] + a[1..] && b == [b[0]] + b[1..];
      StrLtTotal(a[1..], b[1..]);
    }
  }

  /** Decimal digit for `0 <= d < 10`. */
  function Digit(d: nat): (c: char)
    requires d < 10
    ensures '0' <= c <= '9' && c as int - '0' as int == d
  {
    ('0' as int + d) as char
  }

  predicate IsDigit(c: char) {
    '0' <= c <= '9'
  }

  /** The number a string of decimal digits denotes (most significant digit first). */
  function DecimalValue(s: string): nat
    requires forall i :: 0 <= i < |s| ==> IsDigit(s[i])
  {
    if |s| == 0 then 0
    else
      var last := s[|s| - 1];
      assert IsDigit(last);
      10 * DecimalValue(s[..|s| - 1]) + (last as int - '0' as int)
  }

  /** Decimal rendering of a natural number, as `String(n)` gives it: the canonical numeral denoting `n`. */
  function NatToString(n: nat): (r: string)
    ensures |r| > 0 && (forall i :: 0 <= i < |r| ==> IsDigit(r[i]))
    ensures DecimalValue(r) == n
    ensures r[0] == '0' ==> n == 0 && r == "0"
  {
    if n < 10 then
      var r := [Digit(n)];
      assert r[..0] == [];
      r
    else
      var r := NatToString(n / 10) + [Digit(n % 10)];
      assert r[..|r| - 1] == NatToString(n / 10);
      r
  }

  /** Decimal rendering of an integer: a leading `-` for negatives, then the numeral of the magnitude. */
  function IntToString(n: int): (r: string)
    ensures |r| > 0
    ensures n < 0 <==> r[0] == '-'
    ensures var digits := if n < 0 then r[1..] else r;
            && |digits| > 0
            && (forall i :: 0 <= i < |digits| ==> IsDigit(digits[i]))
            && DecimalValue(digits) == (if n < 0 then -n else n)
            && (digits[0] == '0' ==> digits == "0")
  {
    if n < 0 then
      var r := "-" + NatToString(-n);
      assert r[1..] == NatToString(-n);
      r
    else NatToString(n)
  }
}
