/** The per-field check `validate(value, type)` of the generator page: drop
    every character outside `[0-9]`, then range-check the number the
    remaining digits denote. There is no cross-field check. */
module FieldValidator {
  import opened Digits
  import opened JsNumber

  datatype FieldType = Year | Month | Day | Hour | Minute | Second

  /** Smallest accepted value of each field. */
  function Lo(t: FieldType): nat {
    match t
    case Year => 1000
    case Month => 1
    case Day => 1
    case Hour => 0
    case Minute => 0
    case Second => 0
  }

  /** Largest accepted value of each field. */
  function Hi(t: FieldType): nat {
    match t
    case Year => 3000
    case Month => 12
    case Day => 31
    case Hour => 23
    case Minute => 59
    case Second => 59
  }

  /** `value.replace(/[^0-9]/g, '')`: the digits of `s`, in order. */
  function Strip(s: string): (r: string)
    ensures AllDigits(r) && |r| <= |s|
  {
    if s == [] then []
    else (if IsDigit(s[0]) then [s[0]] else []) + Strip(s[1..])
  }

  /** The number a field's text stands for once stripped. */
  function FieldValue(s: string): nat {
    DecimalValue(Strip(s))
  }

  /** The page's `validate`: `isNaN` on the stripped text, then the range
      test of the field's type; `x < c` and `x > c` compare the Number the
      text converts to. */
  function Validate(value: string, t: FieldType): (ok: bool)
    ensures ok <==> Lo(t) <= FieldValue(value) <= Hi(t)
    ensures t == Year ==> (ok <==> 1000 <= FieldValue(value) <= 3000)
    ensures t == Month ==> (ok <==> 1 <= FieldValue(value) <= 12)
    ensures t == Day ==> (ok <==> 1 <= FieldValue(value) <= 31)
    ensures t == Hour ==> (ok <==> FieldValue(value) <= 23)
    ensures t == Minute ==> (ok <==> FieldValue(value) <= 59)
    ensures t == Second ==> (ok <==> FieldValue(value) <= 59)
  {
    var v := Strip(value);
    DigitsToNumber(v);
    var x := ToNumber(v);
    if x.NaN? then false
    else if t == Year && (Less(x, 1000) || Greater(x, 3000)) then false
    else if t == Month && (Less(x, 1) || Greater(x, 12)) then false
    else if t == Day && (Less(x, 1) || Greater(x, 31)) then false
    else if t == Hour && (Less(x, 0) || Greater(x, 23)) then false
    else if (t == Minute || t == Second) && (Less(x, 0) || Greater(x, 59)) then false
    else true
  }

  /** The stripped text is never NaN, so the `isNaN` test cannot reject anything. */
  lemma {:induction false} StrippedIsNumber(s: string)
    ensures ToNumber(Strip(s)) == Int(FieldValue(s))
  {
    DigitsToNumber(Strip(s));
  }

  lemma {:induction false} StripOfDigits(s: string)
    requires AllDigits(s)
    ensures Strip(s) == s
  {
    if s != [] {
      StripOfDigits(s[1..]);
    }
  }

  /** Stripping removes exactly the non-digits: it is the identity exactly on digit text. */
  lemma StripFixedPoints(s: string)
    ensures Strip(s) == s <==> AllDigits(s)
  {
    if AllDigits(s) {
      StripOfDigits(s);
    }
  }

  /** A non-digit is dropped. With `StripOfDigits` and `StripConcat` this
      settles what stripping computes on every text. */
  lemma StripNonDigit(c: char)
    requires !IsDigit(c)
    ensures Strip([c]) == []
  {
    assert [c][1..] == [];
  }

  lemma {:induction false} StripIdempotent(s: string)
    ensures Strip(Strip(s)) == Strip(s)
  {
    StripOfDigits(Strip(s));
  }

  lemma {:induction false} StripConcat(a: string, b: string)
    ensures Strip(a + b) == Strip(a) + Strip(b)
  {
    if a != [] {
      assert (a + b)[1..] == a[1..] + b;
      StripConcat(a[1..], b);
    } else {
      assert a + b == b;
    }
  }

  /** Validation depends only on the digits kept. */
  lemma ValidateIgnoresNonDigits(s: string, t: FieldType)
    ensures Validate(s, t) == Validate(Strip(s), t)
  {
    StripIdempotent(s);
  }

  /** Inserting a non-digit anywhere in a field's text does not change its verdict. */
  lemma InsertNonDigit(a: string, c: char, b: string, t: FieldType)
    requires !IsDigit(c)
    ensures Validate(a + [c] + b, t) == Validate(a + b, t)
  {
    StripConcat(a + [c], b);
    StripConcat(a, [c]);
    StripConcat(a, b);
    assert Strip([c]) == [];
    assert Strip(a) + [] == Strip(a);
  }

  /** "2a024" is checked as "2024". */
  lemma LetterInYear()
    ensures Validate("2a024", Year) && FieldValue("2a024") == 2024
  {
    assert Strip("2a024") == "2024";
    var s := "2024";
    assert s[..3] == "202" && "202"[..2] == "20" && "20"[..1] == "2" && "2"[..0] == "";
  }

  /** Text that is a number in the field's range, written in digits, is accepted;
      one below the smallest or one above the largest value is refused. */
  lemma Boundaries(t: FieldType)
    ensures Validate(DecimalString(Lo(t)), t) && Validate(DecimalString(Hi(t)), t)
    ensures !Validate(DecimalString(Hi(t) + 1), t)
    ensures Lo(t) > 0 ==> !Validate(DecimalString(Lo(t) - 1), t)
  {
    DigitText(Lo(t), t);
    DigitText(Hi(t), t);
    DigitText(Hi(t) + 1, t);
    if Lo(t) > 0 {
      DigitText(Lo(t) - 1, t);
    }
  }

  /** The decimal text of `n`, with or without one leading zero, stands for `n`. */
  lemma FieldValueOfDecimal(n: nat)
    ensures FieldValue(DecimalString(n)) == n
    ensures FieldValue("0" + DecimalString(n)) == n
  {
    StripOfDigits(DecimalString(n));
    DecimalRoundTrip(n);
    LeadingZero(DecimalString(n));
    StripOfDigits("0" + DecimalString(n));
  }

  /** The verdict on the decimal text of `n` is the range test of `n`. */
  lemma DigitText(n: nat, t: FieldType)
    ensures Validate(DecimalString(n), t) <==> Lo(t) <= n <= Hi(t)
  {
    StripOfDigits(DecimalString(n));
    DecimalRoundTrip(n);
  }

  /** An empty field reads as 0: hour, minute and second accept it, year,
      month and day refuse it. */
  lemma EmptyField(t: FieldType)
    ensures Validate("", t) <==> t == Hour || t == Minute || t == Second
  {
  }

  /** Day is checked alone: any day from 1 to 31 passes whatever the month,
      so day 30 beside month 2 passes. */
  lemma DayIgnoresMonth()
    ensures Validate("30", Day) && Validate("2", Month)
  {
    TwoDigitValue('3', '0');
    OneDigitValue('2');
  }

  /** A minus sign before one digit, as in "-5", is stripped: as an hour
      it passes as the digit. */
  lemma MinusDigitValue(d: char)
    requires IsDigit(d)
    ensures FieldValue(['-', d]) == DigitValue(d)
  {
    assert ['-', d] == "-" + [d];
    StripConcat("-", [d]);
    assert Strip("-") == [];
    StripOfDigits([d]);
    assert [d][..0] == [];
    assert DecimalValue([d]) == 10 * DecimalValue([]) + DigitValue(d);
  }

  /** ... so any such text is a valid hour. */
  lemma MinusDigitHour(d: char)
    requires IsDigit(d)
    ensures Validate(['-', d], Hour)
  {
    MinusDigitValue(d);
  }

  /** The values of short digit texts, for the examples. */
  lemma OneDigitValue(a: char)
    requires IsDigit(a)
    ensures FieldValue([a]) == DigitValue(a)
  {
    StripOfDigits([a]);
    assert [a][..0] == [];
    assert DecimalValue([a]) == 10 * DecimalValue([]) + DigitValue(a);
  }

  lemma TwoDigitValue(a: char, b: char)
    requires IsDigit(a) && IsDigit(b)
    ensures FieldValue([a, b]) == 10 * DigitValue(a) + DigitValue(b)
  {
    StripOfDigits([a, b]);
    assert [a, b][..1] == [a] && [a][..0] == [];
    assert DecimalValue([a]) == DigitValue(a);
    assert DecimalValue([a, b]) == 10 * DecimalValue([a]) + DigitValue(b);
  }

  lemma FourDigitValue(a: char, b: char, c: char, d: char)
    requires IsDigit(a) && IsDigit(b) && IsDigit(c) && IsDigit(d)
    ensures FieldValue([a, b, c, d]) == 1000 * DigitValue(a) + 100 * DigitValue(b) + 10 * DigitValue(c) + DigitValue(d)
  {
    StripOfDigits([a, b, c, d]);
    assert [a, b, c, d][..3] == [a, b, c] && [a, b, c][..2] == [a, b] && [a, b][..1] == [a] && [a][..0] == [];
    assert DecimalValue([a]) == DigitValue(a);
    assert DecimalValue([a, b]) == 10 * DecimalValue([a]) + DigitValue(b);
    assert DecimalValue([a, b, c]) == 10 * DecimalValue([a, b]) + DigitValue(c);
    assert DecimalValue([a, b, c, d]) == 10 * DecimalValue([a, b, c]) + DigitValue(d);
  }
}
