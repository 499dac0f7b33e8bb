/**
  Decimal text for natural numbers, as the page uses it:
  - `Number.prototype.toString()` on a non-negative integer (`ToDecimal`),
  - `String.prototype.padStart(width, c)` with a one-character pad (`PadStart`),
  - `parseInt` applied to a string made only of ASCII digits (`ParseDigits`).
 */
module Decimal {

  import opened Options

  predicate IsDigit(c: char) {
    '0' <= c <= '9'
  }

  predicate AllDigits(s: string) {
    forall i :: 0 <= i < |s| ==> IsDigit(s[i])
  }

  /** Digits as JavaScript prints them: no leading zero, except "0" itself. */
  predicate Canonical(s: string) {
    && |s| > 0
    && AllDigits(s)
    && (s[0] == '0' ==> |s| == 1)
  }

  function DigitValue(c: char): (d: nat)
    requires IsDigit(c)
    ensures d < 10
  {
    (c as int) - ('0' as int)
  }

  function DigitChar(d: nat): (c: char)
    requires d < 10
    ensures IsDigit(c)
    ensures DigitValue(c) == d
  {
    (('0' as int) + d) as char
  }

  /** Value of a digit string, most significant digit first; "" has value 0. */
  function DigitsValue(s: string): nat
    requires AllDigits(s)
  {
    if |s| == 0 then 0 else DigitsValue(s[..|s| - 1]) * 10 + DigitValue(s[|s| - 1])
  }

  /** The number of decimal digits `toString` prints for `n`. */
  function NumDigits(n: nat): (k: nat)
    ensures k >= 1
    ensures k == 1 <==> n <= 9
  {
    if n < 10 then 1 else NumDigits(n / 10) + 1
  }

  /** `n.toString()` for a non-negative integer. */
  function ToDecimal(n: nat): (s: string)
    ensures Canonical(s)
    ensures |s| == NumDigits(n)
    ensures s[0] == '0' <==> n == 0
  {
    if n < 10 then [DigitChar(n)] else ToDecimal(n / 10) + [DigitChar(n % 10)]
  }

  function Repeat(c: char, k: nat): (s: string)
    ensures |s| == k
    ensures forall i :: 0 <= i < k ==> s[i] == c
  {
    if k == 0 then [] else [c] + Repeat(c, k - 1)
  }

  /** `s.padStart(width, [c])`: prefix copies of `c` until the string is `width` long;
      a string that is already long enough is returned unchanged. */
  function PadStart(s: string, width: nat, c: char): (r: string)
    ensures |r| == if |s| >= width then |s| else width
    ensures r[|r| - |s|..] == s
    ensures forall i :: 0 <= i < |r| - |s| ==> r[i] == c
  {
    if |s| >= width then s else Repeat(c, width - |s|) + s
  }

  /** `parseInt(s)` for a string of ASCII digits: `NaN` (here `None`) when the
      string is empty, otherwise its decimal value, leading zeros ignored. */
  function ParseDigits(s: string): (r: Option<nat>)
    requires AllDigits(s)
    ensures r.None? <==> |s| == 0
  {
    if |s| == 0 then None else Some(DigitsValue(s))
  }

  // ---------------------------------------------------------------------------
  // Round trips between printing and parsing

  /** Parsing what `toString` prints gives back the number. */
  lemma {:induction false} ParseToDecimal(n: nat)
    ensures ParseDigits(ToDecimal(n)) == Some(n)
    decreases n
  {
    if n >= 10 {
      var s := ToDecimal(n);
      ParseToDecimal(n / 10);
      assert s[..|s| - 1] == ToDecimal(n / 10);
      assert s[|s| - 1] == DigitChar(n % 10);
      assert DigitsValue(s) == DigitsValue(ToDecimal(n / 10)) * 10 + n % 10;
    }
  }

  lemma {:induction false} ZerosHaveNoValue(k: nat)
    ensures AllDigits(Repeat('0', k))
    ensures DigitsValue(Repeat('0', k)) == 0
  {
    if k > 0 {
      var z := Repeat('0', k);
      ZerosHaveNoValue(k - 1);
      assert z[..k - 1] == Repeat('0', k - 1);
    }
  }

  /** Leading zeros do not change a digit string's value. */
  lemma {:induction false} LeadingZerosIgnored(k: nat, s: string)
    requires AllDigits(s)
    ensures AllDigits(Repeat('0', k) + s)
    ensures DigitsValue(Repeat('0', k) + s) == DigitsValue(s)
    decreases |s|
  {
    var z := Repeat('0', k);
    ZerosHaveNoValue(k);
    if |s| == 0 {
      assert z + s == z;
    } else {
      var p := s[..|s| - 1];
      LeadingZerosIgnored(k, p);
      assert (z + s)[..|z + s| - 1] == z + p;
    }
  }

  /** A digit string whose first digit is not zero has a positive value. */
  lemma {:induction false} LeadingNonZeroPositive(s: string)
    requires |s| > 0 && AllDigits(s) && s[0] != '0'
    ensures DigitsValue(s) > 0
    decreases |s|
  {
    if |s| > 1 {
      LeadingNonZeroPositive(s[..|s| - 1]);
    }
  }

  /** Printing what was parsed from canonical digits gives back the same text. */
  lemma {:induction false} ToDecimalOfCanonical(s: string)
    requires Canonical(s)
    ensures ToDecimal(DigitsValue(s)) == s
    decreases |s|
  {
    if |s| > 1 {
      var p := s[..|s| - 1];
      var d := DigitValue(s[|s| - 1]);
      LeadingNonZeroPositive(p);
      ToDecimalOfCanonical(p);
      var v := DigitsValue(s);
      assert v == DigitsValue(p) * 10 + d;
      assert v / 10 == DigitsValue(p) && v % 10 == d;
      assert DigitChar(d) == s[|s| - 1];
      assert s == p + [s[|s| - 1]];
    }
  }

  /** `toString` and `parseInt` are inverse bijections between the naturals and
      the canonical digit strings. */
  lemma DecimalBijection(n: nat, s: string)
    requires Canonical(s)
    ensures ParseDigits(s) == Some(n) <==> ToDecimal(n) == s
  {
    ParseToDecimal(n);
    ToDecimalOfCanonical(s);
  }
}
