/** Decimal numerals as strings. */
module Decimal {
  import opened Text

  function Power10(exponent: nat): (power: nat)
    ensures power > 0
  {
    if exponent == 0 then 1 else 10 * Power10(exponent - 1)
  }

  predicate IsDigit(c: char) {
    '0' <= c <= '9'
  }

  predicate IsDigits(text: string) {
    forall k | 0 <= k < |text| :: IsDigit(text[k])
  }

  function DigitValue(c: char): (value: nat)
    requires IsDigit(c)
    ensures value < 10
  {
    c as nat - '0' as nat
  }

  lemma DigitIs(c: char, value: nat)
    ensures IsDigit(c) && DigitValue(c) == value <==> value < 10 && c == "0123456789"[value]
  {}

  /** The integer a digit string denotes, leading zeros allowed. */
  function Value(digits: string): nat
    requires IsDigits(digits)
  {
    if digits == [] then 0 else 10 * Value(digits[..|digits| - 1]) + DigitValue(digits[|digits| - 1])
  }

  /** The numeral of `n` without leading zeros. */
  function Numeral(n: nat): (digits: string)
    ensures digits != [] && IsDigits(digits)
  {
    (if n < 10 then [] else Numeral(n / 10)) + [('0' as nat + n % 10) as char]
  }

  lemma {:induction false} ValueOfNumeral(n: nat)
    ensures Value(Numeral(n)) == n
  {
    var digits := Numeral(n);
    if n >= 10 {
      ValueOfNumeral(n / 10);
      assert digits[..|digits| - 1] == Numeral(n / 10);
    }
  }

  // A numeral has no leading zero, but for that of zero itself.
  lemma {:induction false} NumeralStarts(n: nat)
    ensures if n == 0 then Numeral(n) == "0" else Numeral(n)[0] != '0'
  {
    if n >= 10 {
      NumeralStarts(n / 10);
    }
  }

  lemma {:induction false} ValueBound(digits: string)
    requires IsDigits(digits)
    ensures Value(digits) < Power10(|digits|)
  {
    if digits != [] {
      ValueBound(digits[..|digits| - 1]);
    }
  }

  lemma {:induction false} ValueFromFront(digits: string)
    requires digits != [] && IsDigits(digits)
    ensures Value(digits) == DigitValue(digits[0]) * Power10(|digits| - 1) + Value(digits[1..])
  {
    var n := |digits| - 1;
    if n > 0 {
      ValueFromFront(digits[..n]);
      assert digits[..n][1..] == digits[1..][..n - 1];
      assert Value(digits[1..]) == 10 * Value(digits[1..][..n - 1]) + DigitValue(digits[n]);
      assert Power10(n) == 10 * Power10(n - 1);
      hide Value, Power10;
      TenTimes(DigitValue(digits[0]), Power10(n - 1));
    }
  }

  lemma TenTimes(digit: nat, weight: nat)
    ensures 10 * (digit * weight) == digit * (10 * weight)
  {}

  /** The order of strings of one length: lexicographic. */
  predicate Greater(a: string, b: string)
    requires |a| == |b|
  {
    a != [] && (a[0] > b[0] || (a[0] == b[0] && Greater(a[1..], b[1..])))
  }

  lemma {:induction false} GreaterIsNumeric(a: string, b: string)
    requires |a| == |b| && IsDigits(a) && IsDigits(b)
    ensures Greater(a, b) <==> Value(a) > Value(b)
  {
    if a != [] {
      ValueFromFront(a);
      ValueFromFront(b);
      GreaterIsNumeric(a[1..], b[1..]);
      ValueBound(a[1..]);
      ValueBound(b[1..]);
      DigitDecides(DigitValue(a[0]), DigitValue(b[0]), Value(a[1..]), Value(b[1..]), Power10(|a| - 1));
    }
  }

  lemma {:induction false} PowerMonotone(a: nat, b: nat)
    requires a <= b
    ensures Power10(a) <= Power10(b)
    decreases b - a
  {
    if a < b {
      PowerMonotone(a + 1, b);
    }
  }

  // A numeral without a leading zero is at least the power of ten of its length.
  lemma NoLeadingZero(digits: string)
    requires digits != [] && IsDigits(digits) && digits[0] != '0'
    ensures Value(digits) >= Power10(|digits| - 1)
  {
    hide Value, Power10;
    ValueFromFront(digits);
    AtLeastOne(DigitValue(digits[0]), Power10(|digits| - 1));
  }

  lemma AtLeastOne(factor: nat, weight: nat)
    requires factor >= 1
    ensures factor * weight >= weight
  {}

  // The numeral of n has more than k digits once n reaches 10^k.
  lemma NumeralLength(n: nat, k: nat)
    requires n >= Power10(k)
    ensures |Numeral(n)| > k
  {
    hide Power10, Value, Numeral;
    ValueOfNumeral(n);
    ValueBound(Numeral(n));
    if |Numeral(n)| <= k {
      PowerMonotone(|Numeral(n)|, k);
    }
  }
}
