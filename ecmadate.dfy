/** The date arithmetic of ECMA-262 section 21.4.1 (Day, DayFromYear,
    MakeTime, MakeDay, MakeDate, TimeClip) and the seven-argument
    `new Date(year, month, day, hours, minutes, seconds)` of section 21.4.2.1,
    which reads its arguments as local time. The host's local time zone is a
    fixed offset `zoneOffset` in milliseconds (local time minus UTC). */
module EcmaDate {
  import opened JsNumber
  import opened Wrappers

  const MsPerSecond: int := 1000
  const MsPerMinute: int := 60_000
  const MsPerHour: int := 3_600_000
  const MsPerDay: int := 86_400_000

  /** The largest magnitude of a time value (section 21.4.1.1). */
  const MaxTime: int := 8_640_000_000_000_000

  /** A time value: milliseconds since 1970-01-01T00:00:00Z, or NaN (an Invalid Date). */
  datatype TimeValue = Invalid | Time(ms: int)

  /** The day number of the first day of year `y`. */
  function DayFromYear(y: int): int {
    365 * (y - 1970) + (y - 1969) / 4 - (y - 1901) / 100 + (y - 1601) / 400
  }

  predicate InLeapYear(y: int) {
    y % 4 == 0 && (y % 100 != 0 || y % 400 == 0)
  }

  function DaysInYear(y: int): int {
    if InLeapYear(y) then 366 else 365
  }

  /** Days in month `m` (0 = January) of year `y`. */
  function DaysInMonth(y: int, m: int): int
    requires 0 <= m < 12
  {
    if m == 1 then (if InLeapYear(y) then 29 else 28)
    else if m == 3 || m == 5 || m == 8 || m == 10 then 30
    else 31
  }

  /** Days of year `y` before the first of month `m` (0 = January). */
  function MonthStart(y: int, m: int): int
    requires 0 <= m < 12
  {
    var before := [0, 31, 59, 90, 120, 151, 181, 212, 243, 273, 304, 334][m];
    if m >= 2 && InLeapYear(y) then before + 1 else before
  }

  /** MakeDay on integral arguments: the day number of day `dt` of month `m`
      of year `y`, months outside 0..11 carrying into the year and days
      outside the month carrying into the following or preceding months. */
  function DayNumber(y: int, m: int, dt: int): int {
    var ym := y + m / 12;
    var mn := m % 12;
    DayFromYear(ym) + MonthStart(ym, mn) + dt - 1
  }

  /** MakeTime on integral arguments. */
  function TimeInDay(h: int, mi: int, s: int, milli: int): int {
    h * MsPerHour + mi * MsPerMinute + s * MsPerSecond + milli
  }

  /** MakeDay: NaN when an argument is not finite, otherwise the day number
      of the truncated arguments. */
  function MakeDay(year: Number, month: Number, date: Number): (r: Option<int>)
    ensures r.Some? <==> year.Finite? && month.Finite? && date.Finite?
  {
    if year.Finite? && month.Finite? && date.Finite? then
      Some(DayNumber(Truncate(year), Truncate(month), Truncate(date)))
    else None
  }

  /** MakeTime: NaN when an argument is not finite. */
  function MakeTime(hour: Number, min: Number, sec: Number, ms: Number): (r: Option<int>)
    ensures r.Some? <==> hour.Finite? && min.Finite? && sec.Finite? && ms.Finite?
  {
    if hour.Finite? && min.Finite? && sec.Finite? && ms.Finite? then
      Some(TimeInDay(Truncate(hour), Truncate(min), Truncate(sec), Truncate(ms)))
    else None
  }

  function MakeDate(day: Option<int>, time: Option<int>): Option<int> {
    if day.Some? && time.Some? then Some(day.value * MsPerDay + time.value) else None
  }

  /** TimeClip: NaN beyond 8.64e15 ms either side of the epoch. */
  function TimeClip(t: Option<int>): (r: TimeValue)
    ensures r.Time? <==> t.Some? && -MaxTime <= t.value <= MaxTime
    ensures r.Time? ==> r.ms == t.value
  {
    if t.Some? && -MaxTime <= t.value <= MaxTime then Time(t.value) else Invalid
  }

  /** `new Date(y, m, dt, h, mi, s)`: a year from 0 to 99 means 1900 to 1999;
      the civil time is read in the local zone and converted to UTC. */
  function LocalDate(y: Number, m: Number, dt: Number, h: Number, mi: Number, s: Number, zoneOffset: int): (r: TimeValue)
    ensures !(y.Finite? && m.Finite? && dt.Finite? && h.Finite? && mi.Finite? && s.Finite?) ==> r == Invalid
    ensures r.Time? ==> -MaxTime <= r.ms <= MaxTime
  {
    var yr := if y.Finite? && 0 <= Truncate(y) <= 99 then Int(1900 + Truncate(y)) else y;
    var finalDate := MakeDate(MakeDay(yr, m, dt), MakeTime(h, mi, s, Int(0)));
    TimeClip(if finalDate.Some? then Some(finalDate.value - zoneOffset) else None)
  }

  /** The UTC instant of a local civil time given as integers. */
  function CivilInstant(y: int, m: int, dt: int, h: int, mi: int, s: int, zoneOffset: int): int {
    DayNumber(y, m, dt) * MsPerDay + TimeInDay(h, mi, s, 0) - zoneOffset
  }

  /** `new Date` given integers, with a year outside 0..99, is the civil
      instant, unless that lies beyond the range of time values. */
  lemma LocalDateOfIntegers(y: int, m: int, dt: int, h: int, mi: int, s: int, zoneOffset: int)
    requires !(0 <= y <= 99)
    ensures var t := CivilInstant(y, m, dt, h, mi, s, zoneOffset);
            LocalDate(Int(y), Int(m), Int(dt), Int(h), Int(mi), Int(s), zoneOffset)
            == if -MaxTime <= t <= MaxTime then Time(t) else Invalid
  {
  }

  /** A two-digit year means a year of the twentieth century. */
  lemma TwoDigitYear(y: int, m: Number, dt: Number, h: Number, mi: Number, s: Number, zoneOffset: int)
    requires 0 <= y <= 99
    ensures LocalDate(Int(y), m, dt, h, mi, s, zoneOffset) == LocalDate(Int(1900 + y), m, dt, h, mi, s, zoneOffset)
  {
  }

  lemma Epoch()
    ensures DayNumber(1970, 0, 1) == 0
    ensures CivilInstant(1970, 0, 1, 0, 0, 0, 0) == 0
  {
  }

  /** Moving one year on adds a fourth, a hundredth and a four-hundredth
      rule day exactly when the year is a multiple of 4, 100 or 400. */
  lemma LeapStep4(y: int)
    ensures (y - 1968) / 4 == (y - 1969) / 4 + (if y % 4 == 0 then 1 else 0)
  {
  }

  lemma LeapStep100(y: int)
    ensures (y - 1900) / 100 == (y - 1901) / 100 + (if y % 100 == 0 then 1 else 0)
  {
  }

  lemma LeapStep400(y: int)
    ensures (y - 1600) / 400 == (y - 1601) / 400 + (if y % 400 == 0 then 1 else 0)
  {
  }

  /** A year has as many days as DaysInYear says. */
  lemma YearLength(y: int)
    ensures DayFromYear(y + 1) == DayFromYear(y) + DaysInYear(y)
  {
    LeapStep4(y);
    LeapStep100(y);
    LeapStep400(y);
  }

  /** The month starts advance by the length of each month, and the last
      month ends where the year does. */
  lemma MonthLength(y: int, m: int)
    requires 0 <= m < 12
    ensures m < 11 ==> MonthStart(y, m + 1) == MonthStart(y, m) + DaysInMonth(y, m)
    ensures m == 11 ==> MonthStart(y, m) + DaysInMonth(y, m) == DaysInYear(y)
  {
  }

  /** Day overflow rolls into the next month: day `DaysInMonth + k` of month
      `m` is day `k` of month `m + 1` (so 30 February is 2 March, or 1 March
      in a leap year). */
  lemma DayOverflow(y: int, m: int, k: int)
    requires 0 <= m < 12
    ensures DayNumber(y, m, DaysInMonth(y, m) + k) == DayNumber(y, m + 1, k)
  {
    MonthLength(y, m);
    if m == 11 {
      YearLength(y);
    }
  }

  /** Month overflow rolls into the next year. */
  lemma MonthOverflow(y: int, m: int, dt: int)
    ensures DayNumber(y, m + 12, dt) == DayNumber(y + 1, m, dt)
  {
    assert (m + 12) / 12 == m / 12 + 1;
    assert (m + 12) % 12 == m % 12;
  }

  lemma February30()
    ensures DayNumber(2023, 1, 30) == DayNumber(2023, 2, 2)
    ensures DayNumber(2024, 1, 30) == DayNumber(2024, 2, 1)
  {
    DayOverflow(2023, 1, 2);
    DayOverflow(2024, 1, 1);
  }
}
