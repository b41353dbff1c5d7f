# Discord timestamp generator: a verified model of its core

The page lets a user type a local date and time into six inputs: year,
month, day, hour, minute and second. It shows that instant as Discord
timestamp markup, eight tags `<t:N>` and `<t:N:C>` that share one
number `N` of seconds since the epoch. While some field is not a valid
value, the page follows the current time instead.

The model has four parts:

- **The field validator** (`FieldValidator`). `validate(value, type)`
  drops every character outside `[0-9]` and range-checks the number left:
  - year 1000 to 3000;
  - month 1 to 12;
  - day 1 to 31, whatever the month;
  - hour 0 to 23;
  - minute and second 0 to 59.

  It rests on `Digits` (digit text and its value) and on `JsNumber`, a
  model of JavaScript's StringToNumber (section 7.1.4.1.1 of ECMA-262),
  which the relational comparisons apply to the text.
- **The composer** (`Composer`, on top of `EcmaDate`). When all six fields
  validate, the page builds `new Date(year, month - 1, day, hour, minute,
  second)` in the host's local zone. `EcmaDate` follows MakeDay, MakeTime,
  MakeDate and TimeClip (section 21.4.1 of ECMA-262) and the
  seven-argument Date constructor (section 21.4.2.1). The model includes
  the rule that years 0 to 99 mean 1900 to 1999, and days and months that
  overflow carry into the next month or year.
- **The live clock** (`LiveClock.AsWrittenGenerator` and
  `LiveClock.Generator`). Each class holds the text of the six inputs and
  the displayed `date`. `AsWrittenGenerator` is the page as written: it
  stores `new Date` on the raw text of the fields, a time value or an
  Invalid Date. `Generator` is the corrected page: it stores the instant
  the validated values denote (see "## Findings").
  - `Init` is the mount.
  - `FieldChange` is the change handler `handleDateChange`.
  - `Tick` is the timer's `updateDate`.

  In both, the invariant `Valid()` says: whenever all six fields validate,
  `date` is their composition, the raw one or the corrected one. There is no mode flag. The page follows the clock
  exactly while some field does not validate.
- **The markup encoder** (`Markup`). `N = floor(ms / 1000)` is written in
  decimal, with a minus sign before 1970, and wrapped in the eight tags in
  the page's order: plain, D, d, F, f, R, T, t. A parser given as the
  encoder's inverse proves that each tag carries exactly `N` and its style.

The inputs are empty when the page mounts, and the validator reads an
empty text as 0. So the code accepts an empty hour, minute or second and
rejects an empty year, month or day (`FieldValidator.EmptyField`).

The wall clock and the host's zone offset are parameters: `now` for
`Init` and `Tick`, and `zoneOffset` for each class.

## Model

| member | source | states |
|---|---|---|
| FieldValidator.Strip | src/pages/index.jsx:45 | the text left by `replace(/[^0-9]/g, '')` is digits only and no longer than the input; with `StripNonDigit`, `StripOfDigits` and `StripConcat` it is exactly the digits of the input, in order |
| FieldValidator.StripNonDigit | src/pages/index.jsx:45 | a single non-digit is dropped |
| FieldValidator.Validate | src/pages/index.jsx:44-53 | a field is accepted exactly when the value of its digits lies in the type's range: year 1000-3000, month 1-12, day 1-31, hour 0-23, minute and second 0-59 |
| FieldValidator.StrippedIsNumber | src/pages/index.jsx:45-46 | the stripped text always converts to the value of its digits, so the `isNaN` test never rejects |
| FieldValidator.StripOfDigits | src/pages/index.jsx:45 | stripping leaves digit-only text unchanged |
| FieldValidator.StripFixedPoints | src/pages/index.jsx:45 | stripping leaves a text unchanged exactly when it is digits only |
| FieldValidator.StripIdempotent | src/pages/index.jsx:45 | stripping twice is stripping once |
| FieldValidator.StripConcat | src/pages/index.jsx:45 | stripping distributes over concatenation |
| FieldValidator.ValidateIgnoresNonDigits | src/pages/index.jsx:44-53 | a text and its stripped form get the same verdict |
| FieldValidator.InsertNonDigit | src/pages/index.jsx:44-53 | inserting a non-digit anywhere in a field never changes its verdict |
| FieldValidator.LetterInYear | src/pages/index.jsx:45-47 | "2a024" is accepted as the year 2024 |
| FieldValidator.Boundaries | src/pages/index.jsx:47-51 | each range's two ends are accepted; one past the top is refused, and so is one below a positive bottom |
| FieldValidator.FieldValueOfDecimal | src/pages/index.jsx:45 | the decimal text of n, with or without one leading zero, has value n |
| FieldValidator.DigitText | src/pages/index.jsx:47-51 | the decimal text of n is accepted exactly when n is in range |
| FieldValidator.EmptyField | src/pages/index.jsx:46-51 | an empty field is accepted exactly for hour, minute and second |
| FieldValidator.DayIgnoresMonth | src/pages/index.jsx:48-49 | day "30" and month "2" each pass: the day is not checked against the month |
| FieldValidator.MinusDigitValue | src/pages/index.jsx:45 | a minus sign before a digit is stripped, so the field's value is the digit |
| FieldValidator.MinusDigitHour | src/pages/index.jsx:50 | such a text, "-5" say, is a valid hour |
| Digits.DecimalString | src/pages/index.jsx:190 | the text of a number is non-empty and digits only |
| Digits.DecimalRoundTrip | src/pages/index.jsx:190 | the value of the text of n is n |
| Digits.DecimalStringCanonical | src/pages/index.jsx:190 | the text of n starts with 0 exactly when n is 0 |
| Digits.DecimalStringIsCanonical | src/pages/index.jsx:190 | the text of n has no superfluous leading zero |
| Digits.CanonicalRoundTrip | src/pages/index.jsx:190 | every text without a superfluous leading zero is the text of its value |
| Digits.PositiveValue | src/pages/index.jsx:190 | digit text with a non-zero leading digit has a positive value |
| Digits.LeadingZero | src/pages/index.jsx:45-51 | a leading zero does not change a digit text's value |
| Digits.AllDigitsConcat | src/pages/index.jsx:45 | a concatenation is digits only exactly when both parts are |
| JsNumber.ToNumber | src/pages/index.jsx:46-51 | StringToNumber, which `isNaN`, the comparisons and `new Date` (lines 74-79) apply to the text; its meaning is stated by `DigitsToNumber`, `NegativeDigits`, `ExponentText`, `LetterText` and `OtherTexts` |
| JsNumber.Less | src/pages/index.jsx:47-51 | `value < c`: false for NaN; its use is stated by `FieldValidator.Validate` |
| JsNumber.Greater | src/pages/index.jsx:47-51 | `value > c`: false for NaN; its use is stated by `FieldValidator.Validate` |
| JsNumber.DigitsToNumber | src/pages/index.jsx:46-51 | digit-only text (the empty text included) converts to its decimal value |
| JsNumber.UnsignedDigits | src/pages/index.jsx:74-79 | an unsigned literal of digits denotes its decimal value with the sign read |
| JsNumber.NegativeDigits | src/pages/index.jsx:77 | a minus sign before digits converts to the negated value |
| JsNumber.ExponentText | src/pages/index.jsx:75 | "1e1" converts to ten |
| JsNumber.LetterText | src/pages/index.jsx:74 | "2a024" converts to NaN |
| JsNumber.OtherTexts | src/pages/index.jsx:74-79 | the empty text converts to 0; white space around a literal is ignored |
| JsNumber.MinusOne | src/pages/index.jsx:75 | `month.value - 1` subtracts one from a finite Number and leaves NaN and infinities alone |
| JsNumber.Truncate | src/pages/index.jsx:73-80 | ToIntegerOrInfinity leaves an integer unchanged |
| JsNumber.TruncateRounds | src/pages/index.jsx:73-80 | ToIntegerOrInfinity rounds toward zero: the result is within one unit of the Number, on the side of zero |
| EcmaDate.MakeDay | src/pages/index.jsx:73-80 | the day is defined exactly when year, month and day are finite |
| EcmaDate.MakeTime | src/pages/index.jsx:73-80 | the time is defined exactly when its four parts are finite |
| EcmaDate.TimeClip | src/pages/index.jsx:73-80 | an instant is kept exactly when it lies within 8.64e15 ms of the epoch |
| EcmaDate.LocalDate | src/pages/index.jsx:73-80 | a non-finite argument gives an Invalid Date; a valid result is within the time range |
| EcmaDate.LocalDateOfIntegers | src/pages/index.jsx:73-80 | `new Date` on integers with a year outside 0-99 is the civil instant, or Invalid beyond the time range |
| EcmaDate.TwoDigitYear | src/pages/index.jsx:74 | a year from 0 to 99 is read as 1900 to 1999 |
| EcmaDate.Epoch | src/pages/index.jsx:73-80 | 1970-01-01 00:00 UTC is day 0 and instant 0 |
| EcmaDate.YearLength | src/pages/index.jsx:73-80 | consecutive years start DaysInYear days apart |
| EcmaDate.MonthLength | src/pages/index.jsx:73-80 | consecutive months start DaysInMonth days apart, and December ends the year |
| EcmaDate.DayOverflow | src/pages/index.jsx:76 | a day past the month's end is the matching day of the next month |
| EcmaDate.MonthOverflow | src/pages/index.jsx:75 | month m + 12 is month m of the next year |
| EcmaDate.February30 | src/pages/index.jsx:48-49 | 30 February is 2 March, or 1 March in a leap year, so a day the validator lets through beside February rolls over |
| Composer.AllValid | src/pages/index.jsx:63-70 | the six-way guard of `handleDateChange` and `updateDate` (lines 96-102); `Compose` and `ComposeAsWritten` are defined exactly when it holds |
| Composer.Compose | src/pages/index.jsx:63-80 | an instant is composed exactly when all six fields validate, and its civil time is then in range |
| Composer.ComposeAsWritten | src/pages/index.jsx:63-80 | `new Date` on the raw text is reached exactly when all six fields validate |
| Composer.ValidInRange | src/pages/index.jsx:63-71 | the fields that pass give an in-range civil time |
| Composer.InstantInRange | src/pages/index.jsx:73-80 | an in-range civil time lies well inside the range of time values |
| Composer.NewDateOfCivil | src/pages/index.jsx:73-80 | `new Date` on an in-range civil time's integers is its instant |
| Composer.ComposeIsNewDate | src/pages/index.jsx:73-80 | the composition is `new Date` on the validated values with the month made 0-based |
| Composer.ComposeLocalFields | src/pages/index.jsx:73-80 | in local time, the composed instant falls on the typed year, month and day, at the typed hour, minute and second |
| Composer.DigitFieldNumber | src/pages/index.jsx:73-80 | a digit-only field converts to the value it was validated as |
| Composer.AsWrittenAgreesOnDigits | src/pages/index.jsx:63-80 | when every field is digits only, the page's composition equals `Compose` |
| Composer.AsWrittenOfIntegers | src/pages/index.jsx:73-80 | when the six texts convert to integers, the page builds the civil instant of those integers |
| Composer.NegatedHour | src/pages/index.jsx:77 | negating the hour moves the instant back by twice the hour |
| Composer.NegatedHourInRange | src/pages/index.jsx:77 | an in-range time with its hour negated stays within the time range, twice the hour earlier |
| Composer.MinusText | src/pages/index.jsx:77 | "-" before digits: the field's value is the digits, and the text converts to their negation |
| Composer.MinusDigitNumber | src/pages/index.jsx:77 | "-5" and the like convert to the digit negated |
| Composer.NegatedHourRead | src/pages/index.jsx:73-80 | with a negative-reading hour and digit-only other fields, `new Date` receives the validated values with the hour negated |
| Composer.AsWrittenNegatedHour | src/pages/index.jsx:73-80 | then the page shows an instant 2 * hour hours before the validated one |
| Composer.NegativeHourAsWritten | src/pages/index.jsx:63-80 | a valid hour whose text converts to the negation of its digits, as "-5" does, makes the page's instant 2 * hour hours earlier than `Compose` |
| Composer.AsWrittenMonth | src/pages/index.jsx:75 | when the month text converts to m + 1, the page composes month m, whatever digits were validated |
| Composer.ExponentMonthText | src/pages/index.jsx:75 | "1e1" is validated as 11 and converts to 10 |
| Composer.ExponentMonthAsWritten | src/pages/index.jsx:63-80 | with month "1e1" the fields validate and `Compose` builds November 15, but the page builds October 15 |
| Composer.NotANumberAsWritten | src/pages/index.jsx:63-80 | a field that validates but is not a numeric literal makes the page's date Invalid, while `Compose` succeeds |
| Composer.ExampleInstant | src/pages/index.jsx:73-80 | 2024-01-15 10:30:00 at offset 0 composes to 1705314600000 ms |
| Composer.ExampleDay | src/pages/index.jsx:73-80 | 2024-01-15 10:30 UTC is 1705314600000 ms after the epoch |
| Composer.ExampleValid | src/pages/index.jsx:63-71 | the example fields validate and denote the given civil time |
| Composer.ExampleNumbers | src/pages/index.jsx:73-80 | the example's digit fields convert to their values |
| LiveClock.AsWrittenGenerator.Init | src/pages/index.jsx:40 | the page starts with empty inputs showing the time value `now`; the fields are then not all valid, and the invariant holds |
| LiveClock.AsWrittenGenerator.FieldChange | src/pages/index.jsx:55-83 | after an edit the inputs hold the new text; if all six validate, `date` is `new Date` on their raw text (`ComposeAsWritten`), otherwise `date` is unchanged and the edit is refused; the invariant holds |
| LiveClock.AsWrittenGenerator.Tick | src/pages/index.jsx:95-107 | while some field does not validate, `date` becomes the time value `now`; otherwise it stays; the invariant is preserved |
| LiveClock.Generator.Init | src/pages/index.jsx:40 | the corrected page starts with empty inputs showing `now`; the fields are then not all valid, and the invariant holds |
| LiveClock.Generator.FieldChange | src/pages/index.jsx:55-83 | corrected handler: after an edit the inputs hold the new text; if all six validate, `date` is the composition of the validated values (`Compose`, not the page's raw `new Date`), otherwise `date` is unchanged and the edit is refused; the invariant holds |
| LiveClock.Generator.Tick | src/pages/index.jsx:95-107 | in the corrected page, while some field does not validate, `date` becomes `now`; otherwise it stays; the invariant is preserved |
| Markup.StyleOf | src/pages/index.jsx:197-259 | a code letter that names a style is that style's code |
| Markup.StyleOfCode | src/pages/index.jsx:197-259 | each style's code letter reads back as that style |
| Markup.Seconds | src/pages/index.jsx:180 | `Math.floor(ms / 1000)`: the second that contains the instant |
| Markup.SecondsUnique | src/pages/index.jsx:180 | that second is the only integer n with n * 1000 <= ms < n * 1000 + 1000 |
| Markup.IntString | src/pages/index.jsx:190 | an integer's text is non-empty, with only digits and minus signs |
| Markup.IntStringRoundTrip | src/pages/index.jsx:190 | an integer's text parses back to the integer |
| Markup.ParseIntExact | src/pages/index.jsx:190 | a text parses to n exactly when it is n's text |
| Markup.Tag | src/pages/index.jsx:190-259 | one template string `<t:${N}>` or `<t:${N}:C>`; `TagRoundTrip` and `ParseTagExact` give its inverse |
| Markup.Tags | src/pages/index.jsx:190-259 | exactly eight tags, the i-th the tag of the i-th style in the order plain, D, d, F, f, R, T, t, all on the same seconds |
| Markup.TagRoundTrip | src/pages/index.jsx:190-259 | a tag reads back as its seconds and its style |
| Markup.ParseTagExact | src/pages/index.jsx:190-259 | a text reads as (n, s) exactly when it is the tag of n in style s |
| Markup.TagsDecode | src/pages/index.jsx:180-259 | each tag shown reads back as the page's seconds and its own style |
| Markup.TagsDistinct | src/pages/index.jsx:190-259 | the eight tags are pairwise different |
| Markup.TagInjective | src/pages/index.jsx:190-259 | equal tags have the same seconds and the same style |
| Markup.ExampleMarkup | src/pages/index.jsx:180-259 | the eight tags shown for 2024-01-15 10:30:00 at offset 0 all carry 1705314600 seconds |
| Markup.ExampleTags | src/pages/index.jsx:180-197 | 1999 ms gives `<t:1>`; -1 ms gives `<t:-1:D>` (rounded down) |

## Left out

- Page layout is not modelled: the JSX, the containers, the headings and click-to-copy. It is UI built from foreign components.
- The readable labels beside each tag are not modelled. `react-moment` renders them with `getMomentFormat` and `fromNow`, and that source is not part of this model.
- The locale read from `navigator.languages` is not modelled; it is a host query.
- The timer is not modelled: its 100 ms period, and an interval that is never cleared. A tick is a call of `Tick(now)`.
- The wall clock `new Date()` and the host zone are parameters. The zone is one fixed offset, so daylight-saving changes are not modelled.
- `dateToUnix` lives in `src/util/date`, which is not part of this model. It is assumed to give `Math.floor(ms / 1000)` as line 180 does (`Markup.Seconds`).
- Numbers are exact decimal rationals, not IEEE doubles. Rounding of very long digit strings and the overflow to `Infinity` are not modelled. Both are far out of the validator's ranges and do not change any verdict.
- ToIntegerOrInfinity is modelled only for finite Numbers. A non-finite argument makes the Date constructor Invalid before truncation matters.
- The inputs' HTML `min`/`max`/`step` attributes are not modelled; browsers do not enforce them on `.value`.
- The browser's sanitizing of `type='number'` inputs is not modelled. Fields are arbitrary text. A browser empties text that is not a floating-point number, so the letter case ("2a024") arises only at the level of strings, while "-5" and "1e1" survive sanitizing.
- Composer.NegativeHourAsWritten: it covers only the minus-sign form of the finding, with the other five fields digits only. Other raw texts are covered by `AsWrittenOfIntegers` and `NotANumberAsWritten`.

## Findings

| source | as written | input that shows it | evidently intended | confidence | as-written member | corrected member |
|---|---|---|---|---|---|---|
| src/pages/index.jsx:73-80 | `validate` checks only the digits of each field, but `new Date` receives the whole raw text (`hour.value`, `month.value - 1`, ...) | hour "-5" with the other fields 2024, 01, 15, 30, 00: validated as hour 5, composed as hour -5, ten hours early (`FieldValidator.MinusDigitValue`, `Composer.MinusDigitNumber`); month "1e1": validated as November, composed as October | compose the instant from the values that were validated | not executed | Composer.ComposeAsWritten, Composer.NegativeHourAsWritten, Composer.ExponentMonthAsWritten, LiveClock.AsWrittenGenerator.FieldChange | Composer.Compose, Composer.ComposeLocalFields, Composer.AsWrittenAgreesOnDigits, LiveClock.Generator.FieldChange |

`LiveClock.AsWrittenGenerator` keeps the page's Date as written, an Invalid Date included. `LiveClock.Generator` uses the corrected `Composer.Compose`. `Composer.AsWrittenAgreesOnDigits` proves that the page's own composition gives the same instant whenever every field is written in digits only.
