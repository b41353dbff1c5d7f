/** The state of the generator page: the text of its six inputs and the
    displayed instant `date`. Editing an input runs the change handler, which
    moves `date` to the composed instant when all six fields validate and
    otherwise leaves it alone; a timer runs the update step, which sets `date`
    to the current time whenever some field does not validate. The page keeps
    no mode flag: it follows the clock exactly while the fields do not all
    validate. The wall clock and the host's zone offset are parameters.

    `AsWrittenGenerator` is the page as written: its change handler stores
    `new Date` on the raw text of the fields, which may lie hours away from
    the validated values or be an Invalid Date. `Generator` is the corrected
    page, which stores the composition of the validated values. */
module LiveClock {
  import opened Wrappers
  import opened FieldValidator
  import opened Composer
  import opened EcmaDate

  /** The corrected page. */
  class Generator {
    var year: string
    var month: string
    var day: string
    var hour: string
    var minute: string
    var second: string
    /** The displayed instant, in milliseconds since the epoch. */
    var date: int
    /** The host's local time minus UTC, in milliseconds. */
    const zoneOffset: int

    function Fields(): RawFields
      reads this
    {
      RawFields(year, month, day, hour, minute, second)
    }

    /** Whenever the six fields validate, the displayed instant is their composition. */
    predicate Valid()
      reads this
    {
      AllValid(Fields()) ==> Compose(Fields(), zoneOffset) == Some(date)
    }

    /** The page as it mounts: empty inputs and `useState(new Date())`. */
    constructor Init(now: int, zoneOffset: int)
      ensures Fields() == RawFields("", "", "", "", "", "")
      ensures date == now && this.zoneOffset == zoneOffset
      ensures !AllValid(Fields()) && Valid()
    {
      year, month, day := "", "", "";
      hour, minute, second := "", "", "";
      date := now;
      this.zoneOffset := zoneOffset;
      EmptyField(Year);
    }

    /** `handleDateChange`: the inputs now hold `f`; when all six validate,
        `date` becomes their composition, otherwise it is left as it was and
        the handler reports the refusal. */
    method FieldChange(f: RawFields) returns (accepted: bool)
      modifies this
      ensures Fields() == f
      ensures accepted == AllValid(f)
      ensures date == if accepted then Compose(f, zoneOffset).value else old(date)
      ensures Valid()
    {
      year, month, day := f.year, f.month, f.day;
      hour, minute, second := f.hour, f.minute, f.second;
      if !Validate(year, Year) || !Validate(month, Month) || !Validate(day, Day)
         || !Validate(hour, Hour) || !Validate(minute, Minute) || !Validate(second, Second)
      {
        return false;
      }
      date := Compose(Fields(), zoneOffset).value;
      accepted := true;
    }

    /** `updateDate`, run at mount and on every timer tick: while some field
        does not validate, `date` follows the clock; otherwise it stays. */
    method Tick(now: int)
      requires Valid()
      modifies `date
      ensures date == if AllValid(Fields()) then old(date) else now
      ensures Valid()
    {
      if !Validate(year, Year) || !Validate(month, Month) || !Validate(day, Day)
         || !Validate(hour, Hour) || !Validate(minute, Minute) || !Validate(second, Second)
      {
        date := now;
      }
    }
  }

  /** The page as written. */
  class AsWrittenGenerator {
    var year: string
    var month: string
    var day: string
    var hour: string
    var minute: string
    var second: string
    /** The displayed Date: a time value, or an Invalid Date. */
    var date: TimeValue
    /** The host's local time minus UTC, in milliseconds. */
    const zoneOffset: int

    function Fields(): RawFields
      reads this
    {
      RawFields(year, month, day, hour, minute, second)
    }

    /** Whenever the six fields validate, the displayed Date is `new Date`
        on their raw text. */
    predicate Valid()
      reads this
    {
      AllValid(Fields()) ==> ComposeAsWritten(Fields(), zoneOffset) == Some(date)
    }

    constructor Init(now: int, zoneOffset: int)
      ensures Fields() == RawFields("", "", "", "", "", "")
      ensures date == Time(now) && this.zoneOffset == zoneOffset
      ensures !AllValid(Fields()) && Valid()
    {
      year, month, day := "", "", "";
      hour, minute, second := "", "", "";
      date := Time(now);
      this.zoneOffset := zoneOffset;
      EmptyField(Year);
    }

    /** `handleDateChange` as written: when all six fields validate, `date`
        becomes `new Date(year.value, month.value - 1, ...)`. */
    method FieldChange(f: RawFields) returns (accepted: bool)
      modifies this
      ensures Fields() == f
      ensures accepted == AllValid(f)
      ensures date == if accepted then ComposeAsWritten(f, zoneOffset).value else old(date)
      ensures Valid()
    {
      year, month, day := f.year, f.month, f.day;
      hour, minute, second := f.hour, f.minute, f.second;
      if !Validate(year, Year) || !Validate(month, Month) || !Validate(day, Day)
         || !Validate(hour, Hour) || !Validate(minute, Minute) || !Validate(second, Second)
      {
        return false;
      }
      date := ComposeAsWritten(Fields(), zoneOffset).value;
      accepted := true;
    }

    /** `updateDate`: while some field does not validate, `date` is a fresh
        `new Date()`; otherwise it stays. */
    method Tick(now: int)
      requires Valid()
      modifies `date
      ensures date == if AllValid(Fields()) then old(date) else Time(now)
      ensures Valid()
    {
      if !Validate(year, Year) || !Validate(month, Month) || !Validate(day, Day)
         || !Validate(hour, Hour) || !Validate(minute, Minute) || !Validate(second, Second)
      {
        date := Time(now);
      }
    }
  }
}
