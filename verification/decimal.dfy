/** Decimal numerals: Python's `str(n)`, `f"{n:0w}"` and `int(s)` on natural numbers. */
module Decimal {
  import opened Wrappers
  import opened Strings

  predicate IsDigit(c: char) {
    '0' <= c <= '9'
  }

  predicate AllDigits(s: string) {
    forall k :: 0 <= k < |s| ==> IsDigit(s[k])
  }

  function DigitValue(c: char): nat
    requires IsDigit(c)
  {
    c as int - '0' as int
  }

  function DigitChar(d: nat): (c: char)
    requires d < 10
    ensures IsDigit(c) && DigitValue(c) == d
  {
    ('0' as int + d) as char
  }

  function Pow10(k: nat): (p: nat)
    ensures p >= 1
  {
    if k == 0 then 1 else 10 * Pow10(k - 1)
  }

  /** The number a digit string denotes, read most significant digit first. */
  function Value(s: string): nat
    requires AllDigits(s)
  {
    if |s| == 0 then 0 else DigitValue(s[0]) * Pow10(|s| - 1) + Value(s[1..])
  }

  /** `str(n)`: the canonical numeral of `n`, with no leading zeros. */
  function Digits(n: nat): (s: string)
    ensures |s| >= 1 && AllDigits(s)
    ensures s[0] == '0' ==> n == 0
  {
    if n < 10 then [DigitChar(n)] else Digits(n / 10) + [DigitChar(n % 10)]
  }

  function Zeros(k: nat): (s: string)
    ensures |s| == k && AllDigits(s)
  {
    seq(k, _ => '0')
  }

  /** `f"{n:0w}"`: the numeral of `n` padded on the left with zeros to at least `w` characters. */
  function ZeroPad(n: nat, w: nat): (s: string)
    ensures AllDigits(s) && Value(s) == n
    ensures |s| >= w
    ensures |s| > w ==> s == Digits(n)
  {
    var d := Digits(n);
    ValueOfDigits(n);
    if |d| < w then
      ValueLeadingZeros(w - |d|, d);
      Zeros(w - |d|) + d
    else d
  }

  /** `int(s)` restricted to plain digit strings; anything else is rejected. */
  function ParseNat(s: string): (r: Option<nat>)
    ensures r.Some? <==> |s| > 0 && AllDigits(s)
  {
    if |s| > 0 && AllDigits(s) then Some(Value(s)) else None
  }

  lemma {:induction false} ValueBound(s: string)
    requires AllDigits(s)
    ensures Value(s) < Pow10(|s|)
    decreases |s|
  {
    if |s| > 0 {
      ValueBound(s[1..]);
      var p, d := Pow10(|s| - 1), DigitValue(s[0]);
      assert Value(s) == d * p + Value(s[1..]);
      assert Pow10(|s|) == 10 * p;
      MulMonotone(d, 9, p);
    }
  }

  lemma MulMonotone(a: nat, b: nat, p: nat)
    requires a <= b
    ensures a * p <= b * p
  {
  }

  /** Appending a digit multiplies the value by ten and adds the digit. */
  lemma {:induction false} ValueSnoc(s: string, c: char)
    requires AllDigits(s) && IsDigit(c)
    ensures AllDigits(s + [c])
    ensures Value(s + [c]) == 10 * Value(s) + DigitValue(c)
    decreases |s|
  {
    var t := s + [c];
    assert AllDigits(t) by {
      forall k | 0 <= k < |t| ensures IsDigit(t[k]) {
        if k < |s| { assert t[k] == s[k]; }
      }
    }
    if |s| > 0 {
      assert t[1..] == s[1..] + [c];
      ValueSnoc(s[1..], c);
      var d := DigitValue(s[0]);
      assert d * Pow10(|s|) == 10 * (d * Pow10(|s| - 1));
    }
  }

  lemma {:induction false} ValueOfDigits(n: nat)
    ensures Value(Digits(n)) == n
    decreases n
  {
    if n >= 10 {
      ValueOfDigits(n / 10);
      ValueSnoc(Digits(n / 10), DigitChar(n % 10));
    }
  }

  /** Leading zeros do not change the value of a numeral. */
  lemma {:induction false} ValueLeadingZeros(k: nat, s: string)
    requires AllDigits(s)
    ensures AllDigits(Zeros(k) + s)
    ensures Value(Zeros(k) + s) == Value(s)
    decreases k
  {
    var t := Zeros(k) + s;
    assert AllDigits(t) by {
      forall j | 0 <= j < |t| ensures IsDigit(t[j]) {
        if j >= k { assert t[j] == s[j - k]; }
      }
    }
    if k > 0 {
      assert t[1..] == Zeros(k - 1) + s;
      ValueLeadingZeros(k - 1, s);
      assert t[0] == '0';
      assert Value(t) == 0 * Pow10(|t| - 1) + Value(t[1..]);
    } else {
      assert t == s;
    }
  }

  /** A number below 10^k has a numeral of at most k digits. */
  lemma {:induction false} DigitsLength(n: nat, k: nat)
    requires 1 <= k && n < Pow10(k)
    ensures |Digits(n)| <= k
    decreases n
  {
    if n >= 10 {
      DigitsLength(n / 10, k - 1);
    }
  }

  /** Below 10^w the padded numeral has exactly w characters. */
  lemma ZeroPadWidth(n: nat, w: nat)
    requires 1 <= w && n < Pow10(w)
    ensures |ZeroPad(n, w)| == w
  {
    DigitsLength(n, w);
  }

  /** Positional comparison: a leading digit outweighs everything after it. */
  lemma LeadingDigitDominates(a: nat, x: nat, b: nat, y: nat, p: nat)
    requires x < p && y < p
    ensures a * p + x < b * p + y <==> a < b || (a == b && x < y)
  {
    if a < b {
      assert (a + 1) * p <= b * p;
    } else if a > b {
      assert (b + 1) * p <= a * p;
    }
  }

  /** For numerals of equal length, string order is numeric order. */
  lemma {:induction false} LexLessIsNumeric(s: string, t: string)
    requires AllDigits(s) && AllDigits(t) && |s| == |t|
    ensures LexLess(s, t) <==> Value(s) < Value(t)
    decreases |s|
  {
    if |s| > 0 {
      ValueBound(s[1..]);
      ValueBound(t[1..]);
      LexLessIsNumeric(s[1..], t[1..]);
      LeadingDigitDominates(DigitValue(s[0]), Value(s[1..]), DigitValue(t[0]), Value(t[1..]), Pow10(|s| - 1));
    }
  }

  /** The numeral parses back to the number it was made from. */
  lemma ParseDigits(n: nat)
    ensures ParseNat(Digits(n)) == Some(n)
  {
    ValueOfDigits(n);
  }
}
