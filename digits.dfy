/** Decimal digit strings: the characters the page's `[0-9]` pattern keeps,
    the natural number such a string denotes, and the decimal text of a
    natural number. Shared by the validator, the text-to-number conversion
    and the markup encoder. */
module Digits {

  /** An ASCII decimal digit, the class `[0-9]` of a JavaScript regular expression. */
  predicate IsDigit(c: char) {
    '0' <= c <= '9'
  }

  predicate AllDigits(s: string) {
    forall i :: 0 <= i < |s| ==> IsDigit(s[i])
  }

  function DigitValue(c: char): (d: nat)
    requires IsDigit(c)
    ensures d < 10
  {
    c as int - '0' as int
  }

  function DigitChar(d: nat): (c: char)
    requires d < 10
    ensures IsDigit(c) && DigitValue(c) == d
  {
    ('0' as int + d) as char
  }

  /** The number a string of digits denotes in base ten; the empty string
      denotes 0, as JavaScript's `Number('')` does. */
  function DecimalValue(s: string): nat
    requires AllDigits(s)
  {
    if s == [] then 0 else 10 * DecimalValue(s[..|s| - 1]) + DigitValue(s[|s| - 1])
  }

  /** The shortest base-ten text of `n`, as JavaScript's `String(n)` writes a
      non-negative integer below 10^21. */
  function DecimalString(n: nat): (s: string)
    ensures AllDigits(s) && |s| > 0
  {
    if n < 10 then [DigitChar(n)] else DecimalString(n / 10) + [DigitChar(n % 10)]
  }

  lemma {:induction false} DecimalRoundTrip(n: nat)
    ensures DecimalValue(DecimalString(n)) == n
  {
    var s := DecimalString(n);
    if n >= 10 {
      DecimalRoundTrip(n / 10);
      assert s[..|s| - 1] == DecimalString(n / 10);
    }
  }

  /** The text has no superfluous leading zero. */
  lemma {:induction false} DecimalStringCanonical(n: nat)
    ensures DecimalString(n)[0] == '0' <==> n == 0
  {
    if n >= 10 {
      DecimalStringCanonical(n / 10);
    }
  }

  /** Leading zeros do not change the value. */
  lemma {:induction false} LeadingZero(s: string)
    requires AllDigits(s)
    ensures AllDigits("0" + s) && DecimalValue("0" + s) == DecimalValue(s)
  {
    if s != [] {
      var z := "0" + s;
      assert z[..|z| - 1] == "0" + s[..|s| - 1];
      LeadingZero(s[..|s| - 1]);
    }
  }

  lemma {:induction false} AllDigitsConcat(a: string, b: string)
    ensures AllDigits(a + b) <==> AllDigits(a) && AllDigits(b)
  {
    if AllDigits(a + b) {
      assert forall i :: 0 <= i < |a| ==> (a + b)[i] == a[i];
      assert forall i :: 0 <= i < |b| ==> (a + b)[|a| + i] == b[i];
    }
  }

  /** A decimal text as `String(n)` writes it: digits only, not empty, and
      no leading zero unless the number is zero. */
  predicate Canonical(s: string) {
    AllDigits(s) && s != [] && (s[0] == '0' ==> |s| == 1)
  }

  lemma DecimalStringIsCanonical(n: nat)
    ensures Canonical(DecimalString(n))
  {
    DecimalStringCanonical(n);
  }

  /** A canonical text with a leading digit other than zero denotes a positive number. */
  lemma {:induction false} PositiveValue(s: string)
    requires AllDigits(s) && s != [] && s[0] != '0'
    ensures DecimalValue(s) >= 1
  {
    if |s| > 1 {
      var p := s[..|s| - 1];
      assert p[0] == s[0];
      PositiveValue(p);
    }
  }

  /** Every canonical text is the decimal text of the number it denotes. */
  lemma {:induction false} CanonicalRoundTrip(s: string)
    requires Canonical(s)
    ensures DecimalString(DecimalValue(s)) == s
  {
    var c := s[|s| - 1];
    if |s| == 1 {
      assert DigitChar(DigitValue(c)) == c;
      assert s[..0] == [];
      assert s == [c];
    } else {
      var p := s[..|s| - 1];
      assert p[0] == s[0] && s[0] != '0';
      PositiveValue(p);
      CanonicalRoundTrip(p);
      var n := DecimalValue(s);
      assert n == 10 * DecimalValue(p) + DigitValue(c);
      assert n / 10 == DecimalValue(p) && n % 10 == DigitValue(c);
      assert DigitChar(DigitValue(c)) == c;
      assert s == p + [c];
    }
  }
}
