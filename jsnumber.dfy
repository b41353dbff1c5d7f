/** JavaScript's conversion of text to a Number (StringToNumber, section
    7.1.4.1.1 of ECMA-262), the relational comparison of such a Number with an
    integer, `x - 1`, and ToIntegerOrInfinity (section 7.1.5). Numbers are
    exact decimal rationals here rather than IEEE doubles. */
module JsNumber {
  import opened Digits
  import opened Wrappers

  /** `Finite(num, scale)` is the value num / 10^scale. */
  datatype Number = NaN | Infinite(negative: bool) | Finite(num: int, scale: nat)

  function Pow10(k: nat): (p: nat)
    ensures p >= 1
  {
    if k == 0 then 1 else 10 * Pow10(k - 1)
  }

  function Int(n: int): Number {
    Finite(n, 0)
  }

  /** WhiteSpace and LineTerminator code points of ECMA-262 sections 12.2 and 12.3. */
  predicate IsWhite(c: char) {
    c == '\t' || c == '\U{000B}' || c == '\U{000C}' || c == ' ' || c == '\U{00A0}' || c == '\U{FEFF}'
    || c == '\n' || c == '\r' || c == '\U{2028}' || c == '\U{2029}'
    || c == '\U{1680}' || ('\U{2000}' <= c <= '\U{200A}') || c == '\U{202F}' || c == '\U{205F}' || c == '\U{3000}'
  }

  function TrimStart(s: string): (r: string)
    ensures |s| > 0 && !IsWhite(s[0]) ==> r == s
  {
    if s != [] && IsWhite(s[0]) then TrimStart(s[1..]) else s
  }

  function TrimEnd(s: string): (r: string)
    ensures |s| > 0 && !IsWhite(s[|s| - 1]) ==> r == s
  {
    if s != [] && IsWhite(s[|s| - 1]) then TrimEnd(s[..|s| - 1]) else s
  }

  /** Length of the longest prefix of `s` made of decimal digits. */
  function DigitRun(s: string): (n: nat)
    ensures n <= |s| && AllDigits(s[..n])
    ensures n < |s| ==> !IsDigit(s[n])
  {
    if s == [] || !IsDigit(s[0]) then 0
    else
      var n := 1 + DigitRun(s[1..]);
      assert s[..n] == [s[0]] + s[1..][..n - 1];
      n
  }

  predicate IsRadixDigit(c: char, radix: nat) {
    if radix == 16 then IsDigit(c) || 'a' <= c <= 'f' || 'A' <= c <= 'F'
    else IsDigit(c) && DigitValue(c) < radix
  }

  function RadixDigitValue(c: char, radix: nat): nat
    requires radix == 2 || radix == 8 || radix == 16
    requires IsRadixDigit(c, radix)
  {
    if IsDigit(c) then DigitValue(c)
    else if 'a' <= c <= 'f' then c as int - 'a' as int + 10
    else c as int - 'A' as int + 10
  }

  predicate AllRadixDigits(s: string, radix: nat) {
    forall i :: 0 <= i < |s| ==> IsRadixDigit(s[i], radix)
  }

  function RadixValue(s: string, radix: nat): nat
    requires radix == 2 || radix == 8 || radix == 16
    requires AllRadixDigits(s, radix)
  {
    if s == [] then 0 else radix * RadixValue(s[..|s| - 1], radix) + RadixDigitValue(s[|s| - 1], radix)
  }

  /** NonDecimalIntegerLiteral after its `0x`, `0o` or `0b` prefix. */
  function RadixLiteral(s: string, radix: nat): Number
    requires radix == 2 || radix == 8 || radix == 16
  {
    if s != [] && AllRadixDigits(s, radix) then Int(RadixValue(s, radix)) else NaN
  }

  /** The value of an ExponentPart, or of its absence. */
  function ParseExponent(s: string): Option<int> {
    if s == [] then Some(0)
    else if s[0] != 'e' && s[0] != 'E' then None
    else
      var t := s[1..];
      var negative := t != [] && t[0] == '-';
      var digits := if t != [] && (t[0] == '-' || t[0] == '+') then t[1..] else t;
      if digits != [] && AllDigits(digits) then
        var v: int := DecimalValue(digits);
        Some(if negative then -v else v)
      else None
  }

  /** (-1)^negative * m * 10^e as a Number. */
  function Scaled(negative: bool, m: nat, e: int): Number {
    var n: int := if negative then -(m as int) else m;
    if e >= 0 then Finite(n * Pow10(e), 0) else Finite(n, -e)
  }

  /** StrUnsignedDecimalLiteral, with the sign already read. */
  function ParseUnsigned(u: string, negative: bool): Number {
    if u == "Infinity" then Infinite(negative)
    else
      var i := DigitRun(u);
      var intPart := u[..i];
      var hasDot := i < |u| && u[i] == '.';
      var afterDot := if hasDot then u[i + 1..] else [];
      var k := DigitRun(afterDot);
      var frac := afterDot[..k];
      var rest := if hasDot then afterDot[k..] else u[i..];
      if |intPart| + |frac| == 0 then NaN
      else
        AllDigitsConcat(intPart, frac);
        match ParseExponent(rest)
        case None => NaN
        case Some(e) => Scaled(negative, DecimalValue(intPart + frac), e - |frac|)
  }

  /** StrNumericLiteral of a non-empty text without surrounding white space. */
  function ParseNumericLiteral(t: string): Number
    requires t != []
  {
    if |t| > 2 && t[0] == '0' && (t[1] == 'x' || t[1] == 'X') then RadixLiteral(t[2..], 16)
    else if |t| > 2 && t[0] == '0' && (t[1] == 'o' || t[1] == 'O') then RadixLiteral(t[2..], 8)
    else if |t| > 2 && t[0] == '0' && (t[1] == 'b' || t[1] == 'B') then RadixLiteral(t[2..], 2)
    else if t[0] == '+' then ParseUnsigned(t[1..], false)
    else if t[0] == '-' then ParseUnsigned(t[1..], true)
    else ParseUnsigned(t, false)
  }

  /** StringToNumber: white space around the literal is ignored and text that
      is only white space (or empty) is 0; anything that is not a
      StringNumericLiteral is NaN. */
  function ToNumber(s: string): Number {
    var t := TrimEnd(TrimStart(s));
    if t == [] then Int(0) else ParseNumericLiteral(t)
  }

  /** An unsigned literal made only of digits denotes its decimal value. */
  lemma UnsignedDigits(u: string, negative: bool)
    requires u != [] && AllDigits(u)
    ensures ParseUnsigned(u, negative) == Scaled(negative, DecimalValue(u), 0)
  {
    assert u != "Infinity" by { assert !IsDigit("Infinity"[0]); }
    var i := DigitRun(u);
    assert i == |u|;
    assert u[..i] == u && u[..i] + [] == u;
    assert u[i..] == [];
  }

  /** ToNumber of a text made only of decimal digits is the number those
      digits denote, so `isNaN` is false for it. */
  lemma DigitsToNumber(s: string)
    requires AllDigits(s)
    ensures ToNumber(s) == Int(DecimalValue(s))
  {
    if s != [] {
      assert !IsWhite(s[0]) && !IsWhite(s[|s| - 1]);
      assert TrimStart(s) == s;
      assert TrimEnd(TrimStart(s)) == s;
      assert ParseNumericLiteral(s) == ParseUnsigned(s, false);
      UnsignedDigits(s, false);
    }
  }

  /** `x < c` for a Number `x` and an integer `c` (false when `x` is NaN). */
  predicate Less(x: Number, c: int) {
    match x
    case NaN => false
    case Infinite(negative) => negative
    case Finite(n, k) => n < c * Pow10(k)
  }

  /** `x > c` for a Number `x` and an integer `c` (false when `x` is NaN). */
  predicate Greater(x: Number, c: int) {
    match x
    case NaN => false
    case Infinite(negative) => !negative
    case Finite(n, k) => n > c * Pow10(k)
  }

  /** `x - 1`. */
  function MinusOne(x: Number): (r: Number)
    ensures x.Finite? ==> r.Finite? && r.scale == x.scale && r.num == x.num - Pow10(x.scale)
    ensures !x.Finite? ==> r == x
  {
    match x
    case Finite(n, k) => Finite(n - Pow10(k), k)
    case _ => x
  }

  /** ToIntegerOrInfinity of a finite Number: rounding toward zero. */
  function Truncate(x: Number): (r: int)
    requires x.Finite?
    ensures x.scale == 0 ==> r == x.num
  {
    var p := Pow10(x.scale);
    if x.num >= 0 then x.num / p else -((-x.num) / p)
  }

  /** Truncation drops the fraction: the result is the integer next to
      `x` on the side of zero. */
  lemma TruncateRounds(x: Number)
    requires x.Finite?
    ensures 0 <= x.num ==> 0 <= Truncate(x) * Pow10(x.scale) <= x.num < (Truncate(x) + 1) * Pow10(x.scale)
    ensures x.num <= 0 ==> (Truncate(x) - 1) * Pow10(x.scale) < x.num <= Truncate(x) * Pow10(x.scale) <= 0
  {
    var p := Pow10(x.scale);
    if x.num >= 0 {
      DivBounds(x.num, p);
    } else {
      var q := (-x.num) / p;
      DivBounds(-x.num, p);
      assert Truncate(x) == -q;
      assert (-q) * p == -(q * p);
      assert (-q - 1) * p == -((q + 1) * p);
    }
  }

  lemma DivBounds(a: nat, p: nat)
    requires p >= 1
    ensures 0 <= (a / p) * p <= a < (a / p + 1) * p
  {
    var q, r := a / p, a % p;
    assert a == p * q + r;
    assert 0 <= r < p;
    assert q * p == p * q;
    assert (q + 1) * p == q * p + p;
  }

  /** Text with no white space at either end converts as a literal. */
  lemma Untrimmed(t: string)
    requires t != [] && !IsWhite(t[0]) && !IsWhite(t[|t| - 1])
    ensures ToNumber(t) == ParseNumericLiteral(t)
  {
    assert TrimStart(t) == t;
  }

  /** A minus sign before digits makes the number negative. */
  lemma NegativeDigits(h: string)
    requires h != [] && AllDigits(h)
    ensures ToNumber("-" + h) == Int(0 - DecimalValue(h))
  {
    var t := "-" + h;
    assert t[0] == '-' && t[|t| - 1] == h[|h| - 1] && t[1..] == h;
    Untrimmed(t);
    UnsignedDigits(h, true);
  }

  lemma ExponentText()
    ensures ToNumber("1e1") == Int(10)
  {
    var u := "1e1";
    assert TrimEnd(TrimStart(u)) == u;
    assert ParseNumericLiteral(u) == ParseUnsigned(u, false);
    assert DigitRun(u) == 1 by { assert DigitRun(u[1..]) == 0; }
    assert u[..1] == "1" && u[1..] == "e1" && "1" + [] == "1" && "1"[..0] == "";
    assert ParseExponent("e1") == Some(1) by { assert "e1"[1..] == "1"; }
  }

  lemma LetterText()
    ensures ToNumber("2a024") == NaN
  {
    var u := "2a024";
    assert TrimEnd(TrimStart(u)) == u;
    assert ParseNumericLiteral(u) == ParseUnsigned(u, false);
    assert DigitRun(u) == 1 by { assert DigitRun(u[1..]) == 0; }
    assert u[1..] == "a024";
  }

  /** White space around the literal is ignored; an empty text is 0. */
  lemma OtherTexts()
    ensures ToNumber("") == Int(0)
    ensures ToNumber(" 7 ") == Int(7)
  {
    assert TrimStart(" 7 ") == "7 " by { assert " 7 "[1..] == "7 "; }
    assert TrimEnd("7 ") == "7" by { assert "7 "[..1] == "7"; }
    DigitsToNumber("7");
    assert "7"[..0] == "";
  }
}
