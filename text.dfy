/**
 * Strings as the library sees them: ASCII case mapping for unit and weekday
 * names, decimal rendering of integers (String.valueOf, String.format("%d"))
 * and the value of a decimal text (Integer.parseInt, new BigDecimal(String)).
 */
module Text {

  function LowerChar(c: char): char {
    if 'A' <= c <= 'Z' then (c as int + 32) as char else c
  }

  function UpperChar(c: char): char {
    if 'a' <= c <= 'z' then (c as int - 32) as char else c
  }

  /** String.toLowerCase, on the ASCII letters. */
  function ToLower(s: string): (r: string)
    ensures |r| == |s|
    ensures forall i :: 0 <= i < |s| ==> r[i] == LowerChar(s[i])
  {
    seq(|s|, i requires 0 <= i < |s| => LowerChar(s[i]))
  }

  /** String.toUpperCase, on the ASCII letters. */
  function ToUpper(s: string): (r: string)
    ensures |r| == |s|
    ensures forall i :: 0 <= i < |s| ==> r[i] == UpperChar(s[i])
  {
    seq(|s|, i requires 0 <= i < |s| => UpperChar(s[i]))
  }

  predicate IsDigit(c: char) { '0' <= c <= '9' }

  predicate AllDigits(s: string) { forall i :: 0 <= i < |s| ==> IsDigit(s[i]) }

  function DigitChar(d: int): char
    requires 0 <= d < 10
  {
    ('0' as int + d) as char
  }

  /** The decimal digits of n, with no leading zero ("0" for zero). */
  function Digits(n: nat): (s: string)
    ensures |s| >= 1 && AllDigits(s)
    ensures n < 10 <==> |s| == 1
  {
    if n < 10 then [DigitChar(n)] else Digits(n / 10) + [DigitChar(n % 10)]
  }

  /** String.valueOf of an int or long. */
  function IntToString(n: int): (s: string)
    ensures |s| >= 1
  {
    if n < 0 then "-" + Digits(-n) else Digits(n)
  }

  /** The value of a string of decimal digits, as Integer.parseInt reads it. */
  function DigitsValue(s: string): (v: nat)
    requires AllDigits(s)
  {
    if s == [] then 0 else 10 * DigitsValue(s[..|s| - 1]) + (s[|s| - 1] as int - '0' as int)
  }

  /** Rendering and reading back are inverse. */
  lemma {:induction false} DigitsRoundTrip(n: nat)
    ensures DigitsValue(Digits(n)) == n
  {
    var s := Digits(n);
    if n >= 10 {
      DigitsRoundTrip(n / 10);
      assert s[..|s| - 1] == Digits(n / 10);
    }
  }

  function Pow10(k: nat): (p: nat)
    ensures p >= 1
  {
    if k == 0 then 1 else 10 * Pow10(k - 1)
  }

  /** n has at most k digits. */
  lemma {:induction false} DigitsLength(n: nat, k: nat)
    requires k >= 1 && n < Pow10(k)
    ensures |Digits(n)| <= k
  {
    if n >= 10 {
      assert k >= 2 && n / 10 < Pow10(k - 1);
      DigitsLength(n / 10, k - 1);
    }
  }

  /** Leading zeros do not change the value of a digit string. */
  lemma {:induction false} LeadingZeros(z: string, s: string)
    requires AllDigits(s) && forall i :: 0 <= i < |z| ==> z[i] == '0'
    ensures AllDigits(z + s) && DigitsValue(z + s) == DigitsValue(s)
  {
    if s == [] {
      assert z + s == z;
      AllZeros(z);
    } else {
      var t := z + s;
      assert t[..|t| - 1] == z + s[..|s| - 1];
      LeadingZeros(z, s[..|s| - 1]);
    }
  }

  lemma {:induction false} AllZeros(z: string)
    requires forall i :: 0 <= i < |z| ==> z[i] == '0'
    ensures AllDigits(z) && DigitsValue(z) == 0
  {
    if z != [] {
      AllZeros(z[..|z| - 1]);
    }
  }

  function Zeros(k: nat): (z: string)
    ensures |z| == k && forall i :: 0 <= i < k ==> z[i] == '0'
  {
    seq(k, i => '0')
  }

  /** The digits of n left-padded with zeros to width k. */
  function PaddedDigits(n: nat, k: nat): (s: string)
    requires k >= 1 && n < Pow10(k)
    ensures |s| == k && AllDigits(s) && DigitsValue(s) == n
  {
    DigitsLength(n, k);
    DigitsRoundTrip(n);
    LeadingZeros(Zeros(k - |Digits(n)|), Digits(n));
    Zeros(k - |Digits(n)|) + Digits(n)
  }

  /** Index of the first '.' in s, or |s| when there is none. */
  function DotIndex(s: string): (i: nat)
    ensures i <= |s|
    ensures forall j :: 0 <= j < i ==> s[j] != '.'
    ensures i < |s| ==> s[i] == '.'
  {
    if s == [] then 0 else if s[0] == '.' then 0 else 1 + DotIndex(s[1..])
  }

  /** "digits" or "digits.digits". */
  predicate IsDecimalText(s: string) {
    var i := DotIndex(s);
    AllDigits(s[..i]) && (i < |s| ==> AllDigits(s[i + 1..]))
  }

  /** The value of the digits after a decimal point. */
  function FractionValue(f: string): real
    requires AllDigits(f)
  {
    DigitsValue(f) as real / Pow10(|f|) as real
  }

  /**
   * The value of a decimal text, as new BigDecimal(String) reads it: the digits
   * after the point are a fraction of 10 to the number of those digits.
   */
  function DecimalValue(s: string): real
    requires IsDecimalText(s)
  {
    var i := DotIndex(s);
    DigitsValue(s[..i]) as real + (if i < |s| then FractionValue(s[i + 1..]) else 0.0)
  }

  /** The value of "a.b" for digit strings a and b. */
  lemma DecimalValueOfParts(a: string, b: string)
    requires AllDigits(a) && AllDigits(b)
    ensures IsDecimalText(a + "." + b)
    ensures DecimalValue(a + "." + b) == DigitsValue(a) as real + FractionValue(b)
  {
    var s := a + "." + b;
    DotOfParts(a, b);
    assert s[..|a|] == a;
    assert s[|a| + 1..] == b;
  }

  lemma DotOfParts(a: string, b: string)
    requires AllDigits(a)
    ensures DotIndex(a + "." + b) == |a|
  {
    var s := a + "." + b;
    assert forall j :: 0 <= j < |a| ==> s[j] == a[j];
    DotOf(s, |a|);
  }

  /** The value of a plain digit string. */
  lemma DecimalValueOfDigits(a: string)
    requires AllDigits(a)
    ensures IsDecimalText(a) && DecimalValue(a) == DigitsValue(a) as real
  {
    DotOf(a, |a|);
    assert a[..|a|] == a;
  }

  lemma {:induction false} DotOf(s: string, k: nat)
    requires k <= |s| && (forall j :: 0 <= j < k ==> s[j] != '.') && (k < |s| ==> s[k] == '.')
    ensures DotIndex(s) == k
  {
    if s != [] && k > 0 {
      DotOf(s[1..], k - 1);
    }
  }
}
