/**
 * The ECMAScript built-ins the converter leans on, over exact rationals:
 * `Math.round`, `String.prototype.toLowerCase` (ASCII letters), `trim`,
 * `split(/\s+/)`, `startsWith`/`endsWith` and `parseFloat`.
 */
module Builtins {
  import opened Wrappers

  // ----- Math.round -----

  /** `Math.round`: the nearest integer, halves rounded up. */
  function Round(x: real): (r: int)
    ensures x - 0.5 < r as real <= x + 0.5
  {
    (x + 0.5).Floor
  }

  lemma RoundMonotone(x: real, y: real)
    requires x <= y
    ensures Round(x) <= Round(y)
  {
  }

  lemma RoundOfInteger(n: int)
    ensures Round(n as real) == n
  {
  }

  // ----- characters -----

  /** The characters `\s` and `trim` treat as white space (WhiteSpace and LineTerminator). */
  predicate IsSpace(c: char)
  {
    var n := c as int;
    n == 0x20 || 0x09 <= n <= 0x0D || n == 0xA0 || n == 0x1680 || 0x2000 <= n <= 0x200A
    || n == 0x2028 || n == 0x2029 || n == 0x202F || n == 0x205F || n == 0x3000 || n == 0xFEFF
  }

  predicate IsDigit(c: char) { '0' <= c <= '9' }

  function DigitValue(c: char): (d: nat)
    requires IsDigit(c)
    ensures d < 10
  {
    c as int - '0' as int
  }

  function LowerChar(c: char): (l: char)
    ensures 'A' <= c <= 'Z' ==> 'a' <= l <= 'z' && l as int == c as int + 32
    ensures !('A' <= c <= 'Z') ==> l == c
  {
    if 'A' <= c <= 'Z' then (c as int + 32) as char else c
  }

  // ----- strings -----

  /** `toLowerCase`, for the ASCII letters MIME types and file extensions are written in. */
  function ToLower(s: string): (r: string)
    ensures |r| == |s|
    ensures forall i :: 0 <= i < |s| ==> r[i] == LowerChar(s[i])
  {
    seq(|s|, i requires 0 <= i < |s| => LowerChar(s[i]))
  }

  predicate HasNoUpper(s: string)
  {
    forall i :: 0 <= i < |s| ==> !('A' <= s[i] <= 'Z')
  }

  lemma ToLowerLeavesLowerAlone(s: string)
    requires HasNoUpper(s)
    ensures ToLower(s) == s
  {
  }

  lemma ToLowerIdempotent(s: string)
    ensures HasNoUpper(ToLower(s))
    ensures ToLower(ToLower(s)) == ToLower(s)
  {
    ToLowerLeavesLowerAlone(ToLower(s));
  }

  predicate StartsWith(s: string, prefix: string)
  {
    |prefix| <= |s| && s[..|prefix|] == prefix
  }

  predicate EndsWith(s: string, suffix: string)
  {
    |suffix| <= |s| && s[|s| - |suffix|..] == suffix
  }

  /** Drops leading white space. */
  function TrimStart(s: string): (r: string)
    ensures |r| <= |s| && r == s[|s| - |r|..]
    ensures forall i :: 0 <= i < |s| - |r| ==> IsSpace(s[i])
    ensures r == [] || !IsSpace(r[0])
    decreases |s|
  {
    if s != [] && IsSpace(s[0]) then TrimStart(s[1..]) else s
  }

  /** Drops trailing white space. */
  function TrimEnd(s: string): (r: string)
    ensures |r| <= |s| && r == s[..|r|]
    ensures forall i :: |r| <= i < |s| ==> IsSpace(s[i])
    ensures r == [] || !IsSpace(r[|r| - 1])
    decreases |s|
  {
    if s != [] && IsSpace(s[|s| - 1]) then TrimEnd(s[..|s| - 1]) else s
  }

  /** `trim`: no white space at either end of the result, and only white space removed. */
  function Trim(s: string): (r: string)
    ensures r == [] || (!IsSpace(r[0]) && !IsSpace(r[|r| - 1]))
    ensures exists a :: IsTrimmedSlice(s, a, r)
  {
    var t := TrimStart(s);
    var r := TrimEnd(t);
    assert IsTrimmedSlice(s, |s| - |t|, r);
    r
  }

  /** `r` is `s` from `a` on, with only white space before and after it. */
  predicate IsTrimmedSlice(s: string, a: nat, r: string)
  {
    && a + |r| <= |s| && s[a..a + |r|] == r
    && (forall i :: 0 <= i < a ==> IsSpace(s[i]))
    && (forall i :: a + |r| <= i < |s| ==> IsSpace(s[i]))
  }

  /** Index of the first white-space character at or after `from`, or `|s|`. */
  function NextSpace(s: string, from: nat): (i: nat)
    requires from <= |s|
    ensures from <= i <= |s|
    ensures i < |s| ==> IsSpace(s[i])
    ensures forall k :: from <= k < i ==> !IsSpace(s[k])
    decreases |s| - from
  {
    if from == |s| || IsSpace(s[from]) then from else NextSpace(s, from + 1)
  }

  /** Index just past the run of white space starting at `from`. */
  function SkipSpace(s: string, from: nat): (j: nat)
    requires from <= |s|
    ensures from <= j <= |s|
    ensures j < |s| ==> !IsSpace(s[j])
    ensures forall k :: from <= k < j ==> IsSpace(s[k])
    decreases |s| - from
  {
    if from == |s| || !IsSpace(s[from]) then from else SkipSpace(s, from + 1)
  }

  /** `p` holds no white space. */
  predicate NoSpace(p: string)
  {
    forall i :: 0 <= i < |p| ==> !IsSpace(p[i])
  }

  /** `split(/\s+/)`: the pieces between maximal runs of white space. */
  function SplitOnSpace(s: string): (parts: seq<string>)
    ensures |parts| >= 1
    ensures forall k :: 0 <= k < |parts| ==> NoSpace(parts[k])
    decreases |s|
  {
    var i := NextSpace(s, 0);
    if i == |s| then [s]
    else
      var j := SkipSpace(s, i);
      [s[..i]] + SplitOnSpace(s[j..])
  }

  /** A string with no white space splits into itself alone. */
  lemma {:induction false} SplitWithoutSpace(s: string)
    requires NoSpace(s)
    ensures SplitOnSpace(s) == [s]
  {
    assert NextSpace(s, 0) == |s|;
  }

  /** Splitting `a + " " + b` with `a` free of white space yields `a` first, then the pieces of `b`. */
  lemma {:induction false} SplitAtSpace(a: string, sp: char, b: string)
    requires NoSpace(a)
    requires IsSpace(sp)
    requires b == [] || !IsSpace(b[0])
    ensures SplitOnSpace(a + [sp] + b) == [a] + SplitOnSpace(b)
  {
    var s := a + [sp] + b;
    assert s[|a|] == sp;
    assert forall k :: 0 <= k < |a| ==> s[k] == a[k];
    if |b| > 0 { assert s[|a| + 1] == b[0]; }
    var i := NextSpace(s, 0);
    assert i == |a|;
    var j := SkipSpace(s, i);
    assert j == |a| + 1;
    assert s[..i] == a;
    assert s[j..] == b;
  }

  // ----- numbers -----

  function Pow10(n: nat): (p: nat)
    ensures p >= 1
  {
    if n == 0 then 1 else 10 * Pow10(n - 1)
  }

  /** Index just past the run of decimal digits starting at `from`. */
  function DigitRunEnd(s: string, from: nat): (j: nat)
    requires from <= |s|
    ensures from <= j <= |s|
    ensures j < |s| ==> !IsDigit(s[j])
    ensures forall k :: from <= k < j ==> IsDigit(s[k])
    decreases |s| - from
  {
    if from == |s| || !IsDigit(s[from]) then from else DigitRunEnd(s, from + 1)
  }

  /** The value of a string of decimal digits (0 for the empty string). */
  function DigitsValue(d: string): nat
    requires forall k :: 0 <= k < |d| ==> IsDigit(d[k])
  {
    if d == [] then 0 else 10 * DigitsValue(d[..|d| - 1]) + DigitValue(d[|d| - 1])
  }

  /** The exponent `[eE][+-]?digits` at `from`, if one is there: its value and where it ends. */
  function Exponent(s: string, from: nat): (e: (int, nat))
    requires from <= |s|
    ensures from <= e.1 <= |s|
  {
    if from < |s| && (s[from] == 'e' || s[from] == 'E') then
      var signed := from + 1 < |s| && (s[from + 1] == '+' || s[from + 1] == '-');
      var start := if signed then from + 2 else from + 1;
      var end := DigitRunEnd(s, start);
      if end == start then (0, from)
      else
        var v := DigitsValue(s[start..end]);
        (if signed && s[from + 1] == '-' then -(v as int) else v as int, end)
    else (0, from)
  }

  /** `m · 10^e`, for a power of ten of either sign. */
  function ScaleByPow10(m: real, e: int): (r: real)
    requires m >= 0.0
    ensures r >= 0.0
  {
    if e >= 0 then m * Pow10(e) as real else m / Pow10(-e) as real
  }

  /** The value of `intPart.frac` where the fraction has `fracLen` digits. */
  function Mantissa(intPart: nat, frac: nat, fracLen: nat): (r: real)
    ensures r >= 0.0
  {
    intPart as real + frac as real / Pow10(fracLen) as real
  }

  /** A decimal literal `digits [. digits] [exponent]` or `. digits [exponent]` at the front of `s`, unsigned. */
  function UnsignedDecimal(s: string): (v: Option<real>)
    ensures v.Some? ==> v.value >= 0.0
    ensures v.Some? <==> (|s| > 0 && (IsDigit(s[0]) || (|s| > 1 && s[0] == '.' && IsDigit(s[1]))))
  {
    var intEnd := DigitRunEnd(s, 0);
    var hasDot := intEnd < |s| && s[intEnd] == '.';
    var fracStart := if hasDot then intEnd + 1 else intEnd;
    var fracEnd := DigitRunEnd(s, fracStart);
    if intEnd == 0 && fracEnd == fracStart then None
    else
      var mantissa := Mantissa(DigitsValue(s[..intEnd]), DigitsValue(s[fracStart..fracEnd]), fracEnd - fracStart);
      Some(ScaleByPow10(mantissa, Exponent(s, fracEnd).0))
  }

  /** `parseFloat`: leading white space, an optional sign and the longest decimal literal; `None` is NaN. */
  function ParseFloat(s: string): (v: Option<real>)
  {
    var t := TrimStart(s);
    if |t| > 0 && (t[0] == '+' || t[0] == '-') then
      match UnsignedDecimal(t[1..])
      case None => None
      case Some(x) => Some(if t[0] == '-' then -x else x)
    else UnsignedDecimal(t)
  }

  /** The decimal numeral of `n` (no leading zeros). */
  function Numeral(n: nat): (s: string)
    ensures |s| >= 1
    ensures forall k :: 0 <= k < |s| ==> IsDigit(s[k])
  {
    if n < 10 then [('0' as int + n) as char] else Numeral(n / 10) + [('0' as int + n % 10) as char]
  }

  lemma {:induction false} NumeralValue(n: nat)
    ensures DigitsValue(Numeral(n)) == n
  {
    var s := Numeral(n);
    if n >= 10 {
      NumeralValue(n / 10);
      assert s[..|s| - 1] == Numeral(n / 10);
    }
  }

  /** `parseFloat` reads back the numeral of any natural number. */
  lemma ParseFloatOfNumeral(n: nat)
    ensures ParseFloat(Numeral(n)) == Some(n as real)
  {
    var s := Numeral(n);
    AllDigits(s);
    NumeralValue(n);
    assert s[..|s|] == s;
  }

  /** `parseInt(s)` in base 10: leading white space, an optional sign and a run of digits; `None` is NaN. */
  function ParseInt(s: string): (v: Option<int>)
    ensures TrimStart(s) == [] ==> v.None?
    ensures |TrimStart(s)| > 0 && IsDigit(TrimStart(s)[0]) ==> v.Some? && v.value >= 0
  {
    SignedDigits(TrimStart(s))
  }

  /** An optional sign and the run of digits after it, read in base 10; `None` when the run is empty. */
  function SignedDigits(t: string): (v: Option<int>)
    ensures t == [] ==> v.None?
    ensures |t| > 0 && IsDigit(t[0]) ==> v.Some? && v.value >= 0
  {
    var signed := |t| > 0 && (t[0] == '+' || t[0] == '-');
    var start := if signed then 1 else 0;
    var end := DigitRunEnd(t, start);
    if end == start then None
    else
      var n := DigitsValue(t[start..end]);
      Some(if signed && t[0] == '-' then -(n as int) else n as int)
  }

  /** `parseInt` reads back the numeral of any natural number. */
  lemma ParseIntOfNumeral(n: nat)
    ensures ParseInt(Numeral(n)) == Some(n)
  {
    var s := Numeral(n);
    AllDigits(s);
    NumeralValue(n);
    assert s[0..|s|] == s;
  }

  /** A non-empty run of digits has no leading white space and is one digit run from end to end. */
  lemma AllDigits(s: string)
    requires |s| >= 1 && forall k :: 0 <= k < |s| ==> IsDigit(s[k])
    ensures TrimStart(s) == s && DigitRunEnd(s, 0) == |s|
  {
  }

  predicate OccursAt(s: string, pat: string, k: nat)
  {
    k + |pat| <= |s| && s[k..k + |pat|] == pat
  }

  /** The first index at or after `from` where `pat` occurs in `s`. */
  function IndexOf(s: string, pat: string, from: nat): (r: Option<nat>)
    requires from <= |s|
    ensures r.Some? ==> from <= r.value && OccursAt(s, pat, r.value)
    ensures r.Some? ==> forall k: nat :: from <= k < r.value ==> !OccursAt(s, pat, k)
    ensures r.None? ==> forall k: nat :: from <= k ==> !OccursAt(s, pat, k)
    decreases |s| - from
  {
    if from + |pat| > |s| then None
    else if s[from..from + |pat|] == pat then Some(from)
    else IndexOf(s, pat, from + 1)
  }

  /** `s.replace(pat, rep)` with a string pattern: only the first occurrence is replaced. */
  function ReplaceFirst(s: string, pat: string, rep: string): (r: string)
    ensures IndexOf(s, pat, 0).None? ==> r == s
  {
    match IndexOf(s, pat, 0)
    case None => s
    case Some(i) => s[..i] + rep + s[i + |pat|..]
  }
}
