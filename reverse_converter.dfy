/// The code-to-token converter (ReversePhoneticStringToIntConverter::toInt):
/// trim, keep the decimal digits, reverse them and read the result as a
/// base-10 integer. Reversal turns "the query code is a prefix of the stored
/// code" into "the stored token agrees with the query token modulo
/// 10^length", which PrefixIffModulo below states in both directions.
module ReverseConverter {
  import opened Text

  predicate IsDigit(c: char) { '0' <= c <= '9' }

  predicate AllDigits(s: string) {
    forall k :: 0 <= k < |s| ==> IsDigit(s[k])
  }

  function DigitValue(c: char): (v: nat)
    requires IsDigit(c)
    ensures v < 10
  {
    c as int - '0' as int
  }

  function DigitChar(v: nat): (c: char)
    requires v < 10
    ensures IsDigit(c) && DigitValue(c) == v
  {
    ('0' as int + v) as char
  }

  function Pow10(k: nat): (p: nat)
    ensures p >= 1
  {
    if k == 0 then 1 else 10 * Pow10(k - 1)
  }

  /** preg_replace('/[^0-9]/', '', $s): the digits of `s`, in order. */
  function DigitsOf(s: string): (d: string)
    ensures AllDigits(d)
  {
    Filter(s, IsDigit)
  }

  /** strrev() */
  function Reverse(s: string): (r: string)
    ensures |r| == |s| && forall k :: 0 <= k < |s| ==> r[k] == s[|s| - 1 - k]
  {
    seq(|s|, k requires 0 <= k < |s| => s[|s| - 1 - k])
  }

  /** (int)$s for a string of decimal digits; leading zeros are allowed. */
  function DecimalValue(s: string): nat
    requires AllDigits(s)
  {
    if s == [] then 0 else 10 * DecimalValue(s[..|s| - 1]) + DigitValue(s[|s| - 1])
  }

  /** toInt(): '' after trim, or no digit at all, gives 0; otherwise the
      reversed digit string read as a decimal number. */
  function ToInt(code: string): (token: nat)
  {
    var t := Trim(code);
    if t == [] then 0
    else
      var d := DigitsOf(t);
      if d == [] then 0 else DecimalValue(Reverse(d))
  }

  /** The reference value: digit i of `d` weighs 10^i, i.e. the sum of d[i]*10^i. */
  function WeightedValue(d: string): nat
    requires AllDigits(d)
  {
    if d == [] then 0 else DigitValue(d[0]) + 10 * WeightedValue(d[1..])
  }

  /** (string)$n: the decimal representation of `n`, without leading zeros. */
  function DecimalString(n: nat): (s: string)
    ensures s != [] && AllDigits(s)
  {
    if n < 10 then [DigitChar(n)] else DecimalString(n / 10) + [DigitChar(n % 10)]
  }

  /** strlen((string)$n) */
  function NumDigits(n: nat): nat {
    |DecimalString(n)|
  }

  // ---------------------------------------------------------------------
  // Arithmetic helpers
  // ---------------------------------------------------------------------

  lemma ModUnique(a: int, b: int, q: int, r: int)
    requires b > 0 && 0 <= r < b && a == q * b + r
    ensures a % b == r && a / b == q
  {
    var q', r' := a / b, a % b;
    assert (q - q') * b == r' - r;
    MultipleInOpenInterval(q - q', b, r' - r);
  }

  /** The only multiple of `b` strictly between -b and b is 0. */
  lemma MultipleInOpenInterval(d: int, b: int, e: int)
    requires b > 0 && d * b == e && -b < e < b
    ensures d == 0
  {
    if d > 0 {
      MultipleAtLeast(d, b);
    } else if d < 0 {
      MultipleAtLeast(-d, b);
    }
  }

  lemma MultipleAtLeast(d: int, b: int)
    requires d >= 1 && b > 0
    ensures d * b >= b
  {
    assert d * b == (d - 1) * b + b;
  }

  lemma ModSplit(a: nat, x: nat, m: nat)
    requires a < 10 && m > 0
    ensures (a + 10 * x) % (10 * m) == a + 10 * (x % m)
  {
    var q, r := x / m, x % m;
    assert x == q * m + r;
    assert a + 10 * x == q * (10 * m) + (a + 10 * r);
    ModUnique(a + 10 * x, 10 * m, q, a + 10 * r);
  }

  lemma {:induction false} Pow10Monotone(i: nat, j: nat)
    requires i <= j
    ensures Pow10(i) <= Pow10(j)
    decreases j
  {
    if i < j {
      Pow10Monotone(i, j - 1);
    }
  }

  // ---------------------------------------------------------------------
  // toInt is the weighted digit sum
  // ---------------------------------------------------------------------

  lemma {:induction false} ReversedDecimalIsWeighted(d: string)
    requires AllDigits(d)
    ensures DecimalValue(Reverse(d)) == WeightedValue(d)
  {
    if d != [] {
      var r := Reverse(d);
      assert r[..|r| - 1] == Reverse(d[1..]);
      ReversedDecimalIsWeighted(d[1..]);
    }
  }

  /** toInt(s) is the sum of d[i]*10^i over the digits d of s; so a string
      without digits (in particular '' or white space only) gives 0. */
  lemma ToIntIsWeightedSum(s: string)
    ensures ToInt(s) == WeightedValue(DigitsOf(s))
    ensures DigitsOf(s) == [] ==> ToInt(s) == 0
  {
    FilterTrim(s, IsDigit);
    if Trim(s) != [] && DigitsOf(Trim(s)) != [] {
      ReversedDecimalIsWeighted(DigitsOf(Trim(s)));
    }
  }

  /** Non-digit characters do not matter: toInt(s) == toInt(digitsOf(s)). */
  lemma ToIntIgnoresNonDigits(s: string)
    ensures ToInt(s) == ToInt(DigitsOf(s))
  {
    ToIntIsWeightedSum(s);
    ToIntIsWeightedSum(DigitsOf(s));
    FilterAll(DigitsOf(s), IsDigit);
  }

  /** On a digit string toInt is exactly the weighted sum. */
  lemma ToIntOfDigits(d: string)
    requires AllDigits(d)
    ensures ToInt(d) == WeightedValue(d)
  {
    ToIntIsWeightedSum(d);
    FilterAll(d, IsDigit);
  }

  // ---------------------------------------------------------------------
  // Prefix / modulo law
  // ---------------------------------------------------------------------

  /** The weighted value of k digits is below 10^k. */
  lemma {:induction false} WeightedBound(d: string)
    requires AllDigits(d)
    ensures WeightedValue(d) < Pow10(|d|)
  {
    if d != [] {
      WeightedBound(d[1..]);
    }
  }

  /** A digit string whose last digit is not '0' weighs at least 10^(k-1). */
  lemma {:induction false} WeightedLower(d: string)
    requires AllDigits(d) && d != [] && d[|d| - 1] != '0'
    ensures WeightedValue(d) >= Pow10(|d| - 1)
  {
    if |d| > 1 {
      WeightedLower(d[1..]);
    }
  }

  /** Reduction modulo 10^k keeps exactly the first k digits of the code. */
  lemma {:induction false} WeightedModPrefix(d: string, k: nat)
    requires AllDigits(d) && k <= |d|
    ensures WeightedValue(d) % Pow10(k) == WeightedValue(d[..k])
  {
    if k == 0 {
      assert d[..0] == [];
    } else {
      WeightedModPrefix(d[1..], k - 1);
      ModSplit(DigitValue(d[0]), WeightedValue(d[1..]), Pow10(k - 1));
      assert d[..k][1..] == d[1..][..k - 1];
    }
  }

  /** Equal-length digit strings with equal weighted values are equal. */
  lemma {:induction false} WeightedInjective(d: string, e: string)
    requires AllDigits(d) && AllDigits(e) && |d| == |e|
    requires WeightedValue(d) == WeightedValue(e)
    ensures d == e
  {
    if d != [] {
      var a, b := DigitValue(d[0]), DigitValue(e[0]);
      var x, y := WeightedValue(d[1..]), WeightedValue(e[1..]);
      ModUnique(a + 10 * x, 10, x, a);
      ModUnique(b + 10 * y, 10, y, b);
      WeightedInjective(d[1..], e[1..]);
      assert d == [d[0]] + d[1..] && e == [e[0]] + e[1..];
    }
  }

  /** The matching law. For a digit string `q` that does not end in '0'
      (so that its reversal has no leading zero), a stored code `c` has `q`
      as a prefix if and only if toInt(c) and toInt(q) agree modulo 10^|q|. */
  lemma PrefixIffModulo(c: string, q: string)
    requires AllDigits(c) && AllDigits(q)
    requires q != [] && q[|q| - 1] != '0'
    ensures ToInt(c) % Pow10(|q|) == ToInt(q) <==> |q| <= |c| && c[..|q|] == q
  {
    ToIntOfDigits(c);
    ToIntOfDigits(q);
    if |q| <= |c| {
      LongCodeModulo(c, q);
    } else {
      ShortCodeModulo(c, q);
    }
  }

  lemma LongCodeModulo(c: string, q: string)
    requires AllDigits(c) && AllDigits(q) && |q| <= |c|
    ensures WeightedValue(c) % Pow10(|q|) == WeightedValue(q) <==> c[..|q|] == q
  {
    WeightedModPrefix(c, |q|);
    if WeightedValue(c[..|q|]) == WeightedValue(q) {
      WeightedInjective(c[..|q|], q);
    }
  }

  /** A code shorter than `q` never matches: its value is below the smallest value of |q| digits ending in a non-zero digit. */
  lemma ShortCodeModulo(c: string, q: string)
    requires AllDigits(c) && AllDigits(q) && |c| < |q| && q[|q| - 1] != '0'
    ensures WeightedValue(c) % Pow10(|q|) != WeightedValue(q)
  {
    WeightedBound(c);
    WeightedLower(q);
    Pow10Monotone(|c|, |q| - 1);
    Pow10Monotone(|q| - 1, |q|);
    ModUnique(WeightedValue(c), Pow10(|q|), 0, WeightedValue(c));
  }

  // ---------------------------------------------------------------------
  // Round trip through (string)$token
  // ---------------------------------------------------------------------

  lemma {:induction false} DecimalValuePositive(s: string)
    requires AllDigits(s) && s != [] && s[0] != '0'
    ensures DecimalValue(s) >= 1
  {
    if |s| > 1 {
      DecimalValuePositive(s[..|s| - 1]);
    }
  }

  /** Reading a digit string without leading zero and printing it back gives it again. */
  lemma {:induction false} DecimalStringOfValue(s: string)
    requires AllDigits(s) && s != [] && s[0] != '0'
    ensures DecimalString(DecimalValue(s)) == s
  {
    var p, c := s[..|s| - 1], s[|s| - 1];
    assert DigitChar(DigitValue(c)) == c;
    if |s| > 1 {
      DecimalValuePositive(p);
      DecimalStringOfValue(p);
      var v := DecimalValue(s);
      ModUnique(v, 10, DecimalValue(p), DigitValue(c));
      assert s == p + [c];
    }
  }

  /** Round trip: a digit string that does not end in '0' is recovered by
      printing its token and reversing the digits. */
  lemma ReverseDecimalRoundTrip(d: string)
    requires AllDigits(d) && d != [] && d[|d| - 1] != '0'
    ensures Reverse(DecimalString(ToInt(d))) == d
  {
    var r := Reverse(d);
    ToIntOfDigits(d);
    ReversedDecimalIsWeighted(d);
    DecimalStringOfValue(r);
    assert Reverse(r) == d;
  }

  /** Trailing zeros of a code are lost: "120" and "12" give the same token. */
  lemma {:induction false} TrailingZeroLost(d: string)
    requires AllDigits(d)
    ensures ToInt(d + "0") == ToInt(d)
  {
    ToIntOfDigits(d);
    ToIntOfDigits(d + "0");
    WeightedTrailingZero(d);
  }

  lemma {:induction false} WeightedTrailingZero(d: string)
    requires AllDigits(d)
    ensures WeightedValue(d + "0") == WeightedValue(d)
  {
    if d != [] {
      assert (d + "0")[1..] == d[1..] + "0";
      WeightedTrailingZero(d[1..]);
    }
  }

  /** The shape of an encoder output: non-empty, '0' at most at index 0, not "0". */
  predicate IsCodeShaped(d: string) {
    && AllDigits(d) && d != [] && d != "0"
    && forall k :: 1 <= k < |d| ==> d[k] != '0'
  }

  /** For an encoder-shaped code the token is positive and has exactly as
      many decimal digits as the code has characters. */
  lemma CodeShapedToken(d: string)
    requires IsCodeShaped(d)
    ensures ToInt(d) > 0 && NumDigits(ToInt(d)) == |d|
  {
    assert d[|d| - 1] != '0' by {
      if |d| == 1 { assert d == [d[0]]; }
    }
    ReverseDecimalRoundTrip(d);
    ToIntOfDigits(d);
    WeightedLower(d);
    assert |DecimalString(ToInt(d))| == |Reverse(DecimalString(ToInt(d)))|;
  }
}
