/** The date composer of `handleDateChange`: when the six fields all pass
    `validate`, an instant is built with `new Date(year, month - 1, day,
    hour, minute, second)` in the host's local zone; otherwise nothing is
    composed.

    Two compositions are given. `ComposeAsWritten` is what the page does: it
    validates the digits of each field but hands the whole raw text to
    `new Date`, so text such as "-5" or "1e1" passes as 5 or 11 and is then
    read as -5 or 10. `Compose` builds the instant from the values that were
    validated; the two agree whenever every field is written in digits only,
    and the live clock uses `Compose`. */
module Composer {
  import opened Digits
  import opened Wrappers
  import opened JsNumber
  import opened FieldValidator
  import opened EcmaDate

  /** The raw text of the six inputs. */
  datatype RawFields = RawFields(year: string, month: string, day: string, hour: string, minute: string, second: string)

  /** The six checks that guard both `handleDateChange` and `updateDate`. */
  predicate AllValid(f: RawFields) {
    Validate(f.year, Year) && Validate(f.month, Month) && Validate(f.day, Day)
    && Validate(f.hour, Hour) && Validate(f.minute, Minute) && Validate(f.second, Second)
  }

  /** A local civil date and time, the month counted from 0. */
  datatype Civil = Civil(year: int, month0: int, day: int, hour: int, minute: int, second: int)

  /** The civil time the validated digits denote (the month made 0-based). */
  function CivilOf(f: RawFields): Civil {
    Civil(FieldValue(f.year), FieldValue(f.month) - 1, FieldValue(f.day),
          FieldValue(f.hour), FieldValue(f.minute), FieldValue(f.second))
  }

  /** The ranges `validate` admits, with the month 0-based. */
  predicate InRange(c: Civil) {
    1000 <= c.year <= 3000 && 0 <= c.month0 <= 11 && 1 <= c.day <= 31
    && 0 <= c.hour <= 23 && 0 <= c.minute <= 59 && 0 <= c.second <= 59
  }

  /** The UTC instant of a local civil time. */
  function Instant(c: Civil, zoneOffset: int): int {
    CivilInstant(c.year, c.month0, c.day, c.hour, c.minute, c.second, zoneOffset)
  }

  /** The composition, built from the validated values; defined exactly when
      all six fields validate. */
  function Compose(f: RawFields, zoneOffset: int): (r: Option<int>)
    ensures r.Some? <==> AllValid(f)
    ensures r.Some? ==> InRange(CivilOf(f))
  {
    if AllValid(f) then Some(Instant(CivilOf(f), zoneOffset)) else None
  }

  /** The composition as the page writes it: `new Date(year.value,
      month.value - 1, day.value, hour.value, minute.value, second.value)`
      on the raw text of the fields. */
  function ComposeAsWritten(f: RawFields, zoneOffset: int): (r: Option<TimeValue>)
    ensures r.Some? <==> AllValid(f)
  {
    if AllValid(f) then
      Some(LocalDate(ToNumber(f.year), MinusOne(ToNumber(f.month)), ToNumber(f.day),
                     ToNumber(f.hour), ToNumber(f.minute), ToNumber(f.second), zoneOffset))
    else None
  }

  /** Years 1000 to 3000 lie well inside the range of time values. */
  lemma InstantInRange(c: Civil, zoneOffset: int)
    requires InRange(c) && -MsPerDay <= zoneOffset <= MsPerDay
    ensures -40_000_000_000_000 <= Instant(c, zoneOffset) <= 40_000_000_000_000
  {
    assert -400_000 <= DayFromYear(c.year) <= 400_000;
    assert -400_000 <= DayNumber(c.year, c.month0, c.day) <= 400_000;
  }

  /** `new Date` on the numbers of an in-range civil time gives its instant. */
  lemma NewDateOfCivil(c: Civil, zoneOffset: int)
    requires InRange(c) && -MsPerDay <= zoneOffset <= MsPerDay
    ensures LocalDate(Int(c.year), Int(c.month0), Int(c.day), Int(c.hour), Int(c.minute), Int(c.second), zoneOffset)
            == Time(Instant(c, zoneOffset))
  {
    InstantInRange(c, zoneOffset);
    LocalDateOfIntegers(c.year, c.month0, c.day, c.hour, c.minute, c.second, zoneOffset);
  }

  /** The composition is what `new Date` gives for the validated numbers,
      with the month made 0-based. */
  lemma ComposeIsNewDate(f: RawFields, zoneOffset: int)
    requires AllValid(f) && -MsPerDay <= zoneOffset <= MsPerDay
    ensures var c := CivilOf(f);
            LocalDate(Int(c.year), Int(c.month0), Int(c.day), Int(c.hour), Int(c.minute), Int(c.second), zoneOffset)
            == Time(Compose(f, zoneOffset).value)
  {
    NewDateOfCivil(CivilOf(f), zoneOffset);
  }

  /** In the local zone, the composed instant falls on the day numbered by
      the year, month and day typed, at the hour, minute and second typed. */
  lemma ComposeLocalFields(f: RawFields, zoneOffset: int)
    requires AllValid(f)
    ensures var local := Compose(f, zoneOffset).value + zoneOffset;
            var c := CivilOf(f);
            local / MsPerDay == DayNumber(c.year, c.month0, c.day)
            && local % MsPerDay == c.hour * MsPerHour + c.minute * MsPerMinute + c.second * MsPerSecond
  {
    var c := CivilOf(f);
    var t := TimeInDay(c.hour, c.minute, c.second, 0);
    assert 0 <= t < MsPerDay;
    var local := DayNumber(c.year, c.month0, c.day) * MsPerDay + t;
    assert Compose(f, zoneOffset).value + zoneOffset == local;
  }

  /** A field written in digits only converts to the number it was validated as. */
  lemma DigitFieldNumber(s: string)
    requires AllDigits(s)
    ensures ToNumber(s) == Int(FieldValue(s))
  {
    StripOfDigits(s);
    DigitsToNumber(s);
  }

  /** When every field is written in digits only (or left empty), the page's
      composition and `Compose` give the same instant. */
  lemma AsWrittenAgreesOnDigits(f: RawFields, zoneOffset: int)
    requires AllDigits(f.year) && AllDigits(f.month) && AllDigits(f.day)
    requires AllDigits(f.hour) && AllDigits(f.minute) && AllDigits(f.second)
    requires -MsPerDay <= zoneOffset <= MsPerDay
    ensures ComposeAsWritten(f, zoneOffset) == if AllValid(f) then Some(Time(Compose(f, zoneOffset).value)) else None
  {
    if AllValid(f) {
      var c := CivilOf(f);
      DigitFieldNumber(f.year);
      DigitFieldNumber(f.month);
      DigitFieldNumber(f.day);
      DigitFieldNumber(f.hour);
      DigitFieldNumber(f.minute);
      DigitFieldNumber(f.second);
      assert MinusOne(ToNumber(f.month)) == Int(c.month0);
      assert ComposeAsWritten(f, zoneOffset)
          == Some(LocalDate(Int(c.year), Int(c.month0), Int(c.day), Int(c.hour), Int(c.minute), Int(c.second), zoneOffset));
      ComposeIsNewDate(f, zoneOffset);
    }
  }

  /** 2024-01-15 10:30:00 in UTC is 1705314600 seconds after the epoch. */
  lemma ExampleInstant()
    ensures Example("2024", "01", "10") == RawFields("2024", "01", "15", "10", "30", "00")
    ensures Compose(Example("2024", "01", "10"), 0) == Some(1_705_314_600_000)
  {
    DigitValues();
    ExampleValid("2024", "01", "10", Civil(2024, 0, 15, 10, 30, 0));
    ExampleDay();
  }

  lemma ExampleDay()
    ensures Instant(Civil(2024, 0, 15, 10, 30, 0), 0) == 1_705_314_600_000
  {
    assert DayFromYear(2024) == 19723;
    assert DayNumber(2024, 0, 15) == 19737;
  }

  /** The numbers `new Date` receives: each field's text converts to the
      matching value of `c`, the month text to the month counted from 1. */
  predicate ReadsAs(f: RawFields, c: Civil) {
    ToNumber(f.year) == Int(c.year) && ToNumber(f.month) == Int(c.month0 + 1) && ToNumber(f.day) == Int(c.day)
    && ToNumber(f.hour) == Int(c.hour) && ToNumber(f.minute) == Int(c.minute) && ToNumber(f.second) == Int(c.second)
  }

  /** The page's composition when the six texts convert to integers. */
  lemma AsWrittenOfIntegers(f: RawFields, zoneOffset: int, c: Civil)
    requires AllValid(f) && ReadsAs(f, c)
    requires !(0 <= c.year <= 99) && -MaxTime <= Instant(c, zoneOffset) <= MaxTime
    ensures ComposeAsWritten(f, zoneOffset) == Some(Time(Instant(c, zoneOffset)))
  {
    assert MinusOne(Int(c.month0 + 1)) == Int(c.month0);
    LocalDateOfIntegers(c.year, c.month0, c.day, c.hour, c.minute, c.second, zoneOffset);
  }

  /** The fields `validate` accepts give an in-range civil time. */
  lemma ValidInRange(f: RawFields)
    requires AllValid(f)
    ensures InRange(CivilOf(f))
  {
  }

  /** Negating the hour moves the instant by twice the hour. */
  lemma NegatedHour(c: Civil, zoneOffset: int)
    ensures Instant(Civil(c.year, c.month0, c.day, -c.hour, c.minute, c.second), zoneOffset)
            == Instant(c, zoneOffset) - 2 * c.hour * MsPerHour
  {
  }

  /** "-" before digits: stripped to the digits, converted to their negation. */
  lemma MinusText(s: string, h: string)
    requires h != [] && AllDigits(h) && s == "-" + h
    ensures FieldValue(s) == DecimalValue(h) && ToNumber(s) == Int(0 - DecimalValue(h))
  {
    StripConcat("-", h);
    assert Strip("-") == [];
    StripOfDigits(h);
    assert Strip(s) == h;
    NegativeDigits(h);
  }

  /** The numbers `new Date` receives when the hour text converts to the
      negation of its digits and the other texts are digits only. */
  lemma NegatedHourRead(f: RawFields, c: Civil)
    requires AllDigits(f.year) && AllDigits(f.month) && AllDigits(f.day)
    requires AllDigits(f.minute) && AllDigits(f.second)
    requires ToNumber(f.hour) == Int(0 - FieldValue(f.hour))
    requires c == Civil(FieldValue(f.year), FieldValue(f.month) - 1, FieldValue(f.day), 0 - FieldValue(f.hour), FieldValue(f.minute), FieldValue(f.second))
    ensures ReadsAs(f, c)
  {
    DigitFieldNumber(f.year);
    DigitFieldNumber(f.month);
    DigitFieldNumber(f.day);
    DigitFieldNumber(f.minute);
    DigitFieldNumber(f.second);
  }

  /** An in-range civil time with its hour negated still lies within the
      range of time values, 2 * hour hours earlier. */
  lemma NegatedHourInRange(c: Civil, c': Civil, zoneOffset: int)
    requires InRange(c) && -MsPerDay <= zoneOffset <= MsPerDay
    requires c' == Civil(c.year, c.month0, c.day, -c.hour, c.minute, c.second)
    ensures -MaxTime <= Instant(c', zoneOffset) <= MaxTime
    ensures Instant(c', zoneOffset) == Instant(c, zoneOffset) - 2 * c.hour * MsPerHour
  {
    InstantInRange(c, zoneOffset);
    NegatedHour(c, zoneOffset);
  }

  /** The page's composition when `new Date` receives the validated
      numbers except for the hour, which it receives negated: the instant
      lies 2 * hour hours before the one that was validated. */
  lemma AsWrittenNegatedHour(f: RawFields, zoneOffset: int, c: Civil)
    requires c == CivilOf(f) && AllValid(f) && -MsPerDay <= zoneOffset <= MsPerDay
    requires ReadsAs(f, Civil(c.year, c.month0, c.day, -c.hour, c.minute, c.second))
    ensures ComposeAsWritten(f, zoneOffset).Some? && ComposeAsWritten(f, zoneOffset).value.Time?
    ensures ComposeAsWritten(f, zoneOffset).value.ms == Compose(f, zoneOffset).value - 2 * c.hour * MsPerHour
  {
    var c' := Civil(c.year, c.month0, c.day, -c.hour, c.minute, c.second);
    ValidInRange(f);
    NegatedHourInRange(c, c', zoneOffset);
    AsWrittenOfIntegers(f, zoneOffset, c');
  }

  /** As written, a minus sign in the hour passes `validate` (it is
      stripped) but reaches `new Date`: when the hour text converts to the
      negation of its digits, as "-5" does (see `MinusDigitNumber`), the page shows
      an instant 2 * hour hours before the one that was validated. */
  lemma NegativeHourAsWritten(f: RawFields, zoneOffset: int)
    requires AllDigits(f.year) && AllDigits(f.month) && AllDigits(f.day)
    requires AllDigits(f.minute) && AllDigits(f.second)
    requires ToNumber(f.hour) == Int(0 - FieldValue(f.hour))
    requires AllValid(f) && -MsPerDay <= zoneOffset <= MsPerDay
    ensures ComposeAsWritten(f, zoneOffset).Some? && ComposeAsWritten(f, zoneOffset).value.Time?
    ensures ComposeAsWritten(f, zoneOffset).value.ms == Compose(f, zoneOffset).value - 2 * CivilOf(f).hour * MsPerHour
  {
    var c := CivilOf(f);
    NegatedHourRead(f, Civil(c.year, c.month0, c.day, -c.hour, c.minute, c.second));
    AsWrittenNegatedHour(f, zoneOffset, c);
  }

  /** The six fields of the other counterexamples: 2024-01-15 10:30:00 with
      one field written differently. */
  function Example(year: string, month: string, hour: string): RawFields {
    RawFields(year, month, "15", hour, "30", "00")
  }

  lemma ExampleValid(year: string, month: string, hour: string, c: Civil)
    requires FieldValue(year) == c.year && FieldValue(month) == c.month0 + 1 && FieldValue(hour) == c.hour
    requires c.day == 15 && c.minute == 30 && c.second == 0 && InRange(c)
    ensures AllValid(Example(year, month, hour)) && CivilOf(Example(year, month, hour)) == c
  {
    DigitValues();
  }

  /** The page's composition when the month text converts to `m + 1` for
      some month `m` and the other texts are digits only. */
  lemma AsWrittenMonth(f: RawFields, zoneOffset: int, c: Civil, m: int)
    requires c == CivilOf(f)
    requires AllDigits(f.year) && AllDigits(f.day) && AllDigits(f.hour)
    requires AllDigits(f.minute) && AllDigits(f.second)
    requires ToNumber(f.month) == Int(m + 1) && 0 <= m <= 11
    requires AllValid(f) && -MsPerDay <= zoneOffset <= MsPerDay
    ensures ComposeAsWritten(f, zoneOffset) == Some(Time(Instant(Civil(c.year, m, c.day, c.hour, c.minute, c.second), zoneOffset)))
  {
    DigitFieldNumber(f.year);
    DigitFieldNumber(f.day);
    DigitFieldNumber(f.hour);
    DigitFieldNumber(f.minute);
    DigitFieldNumber(f.second);
    ValidInRange(f);
    var c' := Civil(c.year, m, c.day, c.hour, c.minute, c.second);
    assert ReadsAs(f, c');
    InstantInRange(c', zoneOffset);
    AsWrittenOfIntegers(f, zoneOffset, c');
  }

  /** "1e1" keeps the digits "11" and converts to ten. */
  lemma ExponentMonthText()
    ensures FieldValue("1e1") == 11 && ToNumber("1e1") == Int(10)
  {
    assert Strip("1e1") == "11";
    TwoDigitValue('1', '1');
    ExponentText();
  }

  /** A minus sign before one digit, as in "-5", is kept by `new Date`:
      the field converts to the digit negated (see `MinusDigitValue` for
      what `validate` makes of it). */
  lemma MinusDigitNumber(d: char)
    requires IsDigit(d)
    ensures ToNumber(['-', d]) == Int(0 - DigitValue(d))
  {
    assert ['-', d] == "-" + [d];
    assert [d][..0] == [];
    assert DecimalValue([d]) == 10 * DecimalValue([]) + DigitValue(d);
    NegativeDigits([d]);
  }

  /** As written, an exponent in the month passes as its digits: "1e1"
      is validated as month 11 (November) but composed as 10, October. */
  lemma ExponentMonthAsWritten()
    ensures AllValid(Example("2024", "1e1", "10"))
    ensures Compose(Example("2024", "1e1", "10"), 0) == Some(Instant(Civil(2024, 10, 15, 10, 30, 0), 0))
    ensures ComposeAsWritten(Example("2024", "1e1", "10"), 0) == Some(Time(Instant(Civil(2024, 9, 15, 10, 30, 0), 0)))
  {
    var f := Example("2024", "1e1", "10");
    var c := Civil(2024, 10, 15, 10, 30, 0);
    DigitValues();
    ExponentMonthText();
    ExampleValid("2024", "1e1", "10", c);
    ExampleNumbers();
    var c' := Civil(2024, 9, 15, 10, 30, 0);
    InstantInRange(c', 0);
    AsWrittenOfIntegers(f, 0, c');
  }

  lemma ExampleNumbers()
    ensures ToNumber("2024") == Int(2024) && ToNumber("10") == Int(10)
    ensures ToNumber("15") == Int(15) && ToNumber("30") == Int(30) && ToNumber("00") == Int(0)
  {
    DigitValues();
    ExampleNumber("2024");
    ExampleNumber("10");
    ExampleNumber("15");
    ExampleNumber("30");
    ExampleNumber("00");
  }

  lemma ExampleNumber(s: string)
    requires s == "2024" || s == "10" || s == "15" || s == "30" || s == "00"
    ensures ToNumber(s) == Int(FieldValue(s))
  {
    DigitFieldNumber(s);
  }

  /** As written, a field whose text passes `validate` but is not a
      numeric literal (a letter inside the year, "2a024", say) makes
      `new Date` an Invalid Date, while the validated digits compose. */
  lemma NotANumberAsWritten(f: RawFields, zoneOffset: int)
    requires AllValid(f)
    requires ToNumber(f.year).NaN? || ToNumber(f.month).NaN? || ToNumber(f.day).NaN?
             || ToNumber(f.hour).NaN? || ToNumber(f.minute).NaN? || ToNumber(f.second).NaN?
    ensures Compose(f, zoneOffset).Some?
    ensures ComposeAsWritten(f, zoneOffset) == Some(Invalid)
  {
  }

  /** The digit values the examples use. */
  lemma DigitValues()
    ensures FieldValue("2024") == 2024 && FieldValue("01") == 1 && FieldValue("15") == 15
    ensures FieldValue("10") == 10 && FieldValue("30") == 30 && FieldValue("00") == 0
  {
    FourDigitValue('2', '0', '2', '4');
    TwoDigitValue('0', '1');
    TwoDigitValue('1', '5');
    TwoDigitValue('1', '0');
    TwoDigitValue('3', '0');
    TwoDigitValue('0', '0');
  }
}
