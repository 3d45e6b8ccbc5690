# ptime: the Persian calendar engine, modelled in Dafny

This project models the calendar core of `ptime/ptime.go`, a Go package for
the Persian (Solar Hijri, Jalali) calendar, and proves properties of the model.
The core has three parts:

- **The JDN engine** runs through the Julian Day Number (JDN).
  - `getJdn` encodes a Persian date with the 2820-year cycle.
  - The second half of `SetTime` decodes a JDN into a Persian date.
  - The first half of `SetTime` encodes a host (Gregorian or Julian) date into a JDN.
  - `Time()` decodes a JDN into a host date. It uses the Gregorian formulas after JDN 2299160 and the Julian ones up to it.
- **The `Time` record** is modelled as the class `PTime.Time`.
  - Its setters store fields and clamp them into range by saturation (`between`), never by wrap-around.
  - For the length of Esfand they use the 33-year leap rule `IsLeap`, its helper `divider` and the month table `p_month_count`.
  - `Set` caches the weekday through the host library before it clamps.
- **The derived fields**: day of year, remaining days, weeks, the 12-hour dial and the AM/PM marker.

Files and modules:

- `go_arith.dfy` (`GoArith`) holds Go's truncating `/` and `%`. Dafny's operators are Euclidean.
- `gregorian.dfy` (`JdnGregorian`) is the host side: host date to JDN, JDN to host date.
- `persian.dfy` (`JdnPersian`) holds the leap rule, the month table, `getJdn` and the Persian decoder.
- `ptime.dfy` (`PTime`) holds the record, its setters and getters, and the properties that cross the host.

The pure parts are functions with lemmas. The setters are methods on the class,
each stating its whole new state.

**The Persian encoder and decoder are given twice.**

- The "as written" versions (`GetJdnAsWritten`, `PersianFromJdnAsWritten`) use
  Go's truncating division exactly as the code does.
- The corrected versions (`GetJdn`, `PersianFromJdn`) use floor division. The
  2820-year cycle arithmetic needs it before Persian 475-01-01 (JDN 2121446).
- The two are proved equal from year 474 and from JDN 2121446 on.
- As written, encoding the decoded date gives back every JDN (`PersianDecodeEncodeAsWritten`). Only from the epoch on is that decoded date a valid one: the last step of the decoder counts `day` from Farvardin 1 of the decoded year, and `getJdn` is linear in the day, so even (475, 0, 31) re-encodes to its JDN.
- The decoder undoes the encoder as written for every cycle date from year 475 (`PersianEncodeDecodeAsWritten`).
- The record uses the corrected versions. See "## Findings".

**The two leap rules are different.** The setters clamp Esfand with the
33-year rule `IsLeap`, while `getJdn` follows the 2820-year cycle, and the two
disagree.

- 1403 is leap for `IsLeap`, but its cycle year has 365 days, so Esfand 30, 1403 is the same day as Farvardin 1, 1404.
- 1404 is common for `IsLeap`, but its cycle year has 366 days.
- So `Set` accepts Esfand 30, 1403, which the cycle does not have (`LeapMismatchThroughHost`).
- `SetTime` can produce Esfand 30, 1404, which the setters would clamp to 29 (`SetTimeOutsideSetterRange`).
- Two predicates describe the two rules:
  - `Normalized` describes what the setters promise.
  - `IsCycleValid` describes what `getJdn` and the decoder round-trip.

**The host library is modelled only as far as the record uses it.**

- A host moment (`HostTime`) is a proleptic Gregorian date, a clock and a time zone.
- Its weekday (`HostWeekday`) is the host's proleptic Gregorian day count of the civil date (`HostDayCount`), plus the whole days an out-of-range clock carries, plus one, modulo 7, with Sunday as 0.
- `HostDayCount` is the Fliegel–Van Flandern formula with floor division. It equals the truncating formula of `SetTime` from year −4799 on (`HostDayCountAgrees`).
- Below that the truncating formula stops counting days: it gives 365 days from −4805-03-01 to −4804-03-01, and the host gives 366 (`HostDayCountLeapYear`).
- This is an assumption about the host, not code of the package.
- `getWeekday` makes Saturday 0. Combined with the host, after the Gregorian reform a moment's weekday is (JDN + 2) mod 7 (`HostWeekdayGregorian`, `WeekdayOfGregorian`).

**Known days:**

- Gregorian 2016-03-20 is JDN 2457468, which is Persian 1395-01-01.
- Julian 1582-10-04 is JDN 2299160.
- Gregorian 1582-10-15 is JDN 2299161.

## Model

| member | source | states |
|---|---|---|
| `GoArith.GoDiv` | ptime/ptime.go:304 | Go's `/` by a positive divisor: on a non-negative dividend the remainder left is in [0, b), on a negative one in (−b, 0], i.e. the quotient is truncated toward zero |
| `GoArith.GoMod` | ptime/ptime.go:305 | Go's `%`: dividend = b·GoDiv + GoMod, with the remainder taking the sign of the dividend |
| `GoArith.GoDivNonNegative` | ptime/ptime.go:222-230 | on non-negative dividends Go's and Dafny's `/` and `%` agree |
| `JdnPersian.Divider` | ptime/ptime.go:810-815 | for a non-zero number the result is its floor remainder (never negative); for 0 it is the divisor itself (0 when the divisor is 1) |
| `JdnPersian.DividerIsFloorMod` | ptime/ptime.go:810-815 | both branches of `divider` compute the floor remainder: Go's `%` for positive numbers, the shifted truncating quotient for the rest |
| `JdnPersian.IsLeap` | ptime/ptime.go:646-648 | a year is leap exactly when the floor remainder of 25·year + 11 by 33 is below 8, negative years included |
| `JdnPersian.DividerOfLeapNumber` | ptime/ptime.go:646-648 | 25·year + 11 is never 0, so the leap test always reads the floor remainder |
| `JdnPersian.LeapPeriodic` | ptime/ptime.go:646-648 | the 33-year rule repeats every 33 years |
| `JdnPersian.MonthTableSums` | ptime/ptime.go:154-167 | the third column is the running sum of the first; the months add up to 365 days, or 366 with the leap column; only Esfand differs between the columns |
| `JdnPersian.MonthDays` | ptime/ptime.go:794-800 | the table length that `norm_day` clamps to: 31 for months 1–6, 30 for months 7–11, and for Esfand 30 exactly when `IsLeap`, else 29 |
| `JdnPersian.MonthOffset` | ptime/ptime.go:825-830 | getJdn's days before a month equal the table's days-before column |
| `JdnPersian.CeilDiv` | ptime/ptime.go:320-325 | the result is the least integer at or above the exact quotient, which `math.Ceil` takes |
| `JdnPersian.MonthOfYearDay` | ptime/ptime.go:320-325 | definition: the month of day dy of the year, ⌈dy/31⌉ up to day 186 and ⌈(dy − 6)/30⌉ after; its contract is in `MonthOfDay` and `MonthOfDayOf` |
| `JdnPersian.GetJdnAsWritten` | ptime/ptime.go:817-833 | definition: `getJdn` with Go's truncating `%` and `/`; its properties are `GetJdnAgrees`, `GetJdnAsWrittenFromNowruz`, `PersianDecodeEncodeAsWritten` and `TruncatedEncoderDeparts` |
| `JdnPersian.YearInCycleAsWritten` | ptime/ptime.go:307-313 | definition: the year of the cycle from the day `rem` of the cycle, truncating; see `YearInCycleAgrees` and `YearInCycleAsWrittenBeforeEpoch` |
| `JdnPersian.DecodedYearAsWritten` | ptime/ptime.go:303-318 | definition: cycle and remainder of `jdn − getJdn(475, 1, 1)` by truncation, then the year, skipping 0; see `DecodedYearAgrees` and `DecodedYearAsWrittenBeforeEpoch` |
| `JdnPersian.DateInYearAsWritten` | ptime/ptime.go:320-327 | definition: month and day counted from the year's Farvardin 1 through the truncating encoder; see `DateInYearAsWrittenBy` |
| `JdnPersian.PersianFromJdnAsWritten` | ptime/ptime.go:303-327 | definition: the decoding block of `SetTime` as written; see `PersianFromJdnAgrees`, `PersianEncodeDecodeAsWritten` and `TruncatedDecoderBeforeEpoch` |
| `JdnPersian.GetJdn` | ptime/ptime.go:817-833 | definition: `getJdn` with floor division; its properties are `GetJdnStart`, `PersianEncodeDecode`, `GetJdnOnto` and `YearLengthSpan` |
| `JdnPersian.YearInCycle` | ptime/ptime.go:307-313 | definition: the year of the cycle with floor division; see `YearInCycleBounds` |
| `JdnPersian.DecodedYear` | ptime/ptime.go:303-318 | definition: the decoded year with floor division; see `PersianFromJdnBase` |
| `JdnPersian.DateInYear` | ptime/ptime.go:320-327 | definition: month and day counted from the year's Farvardin 1 through the corrected encoder; see `DateInYearBy` |
| `JdnPersian.PersianFromJdn` | ptime/ptime.go:303-327 | definition: the decoding block of `SetTime` with floor division; see `PersianDecodeEncode` and `PersianEncodeDecode` |
| `JdnPersian.IsCycleValid` | ptime/ptime.go:817-833 | definition: a non-zero year, a month in 1..12 and a day within the month's length in the 2820-year cycle (`CycleMonthDays`) |
| `JdnPersian.EpochDay` | ptime/ptime.go:303 | the epoch constant the decoder counts from is `getJdn(475, 1, 1)` as written |
| `JdnPersian.EpochDayCorrected` | ptime/ptime.go:303 | it is also the corrected encoder's Farvardin 1 of 475 |
| `JdnPersian.YearOfBase` | ptime/ptime.go:818-821 | every cycle base belongs to exactly one non-zero year: the year found has that base, and every non-zero year with that base is that year |
| `JdnPersian.NextYear` | ptime/ptime.go:315-318 | the year after a year (skipping year 0) has the next cycle base |
| `JdnPersian.GetJdnStart` | ptime/ptime.go:817-833 | getJdn is the first day of the year (a closed form over the year's place in its 2820-year cycle) plus the days before the month plus the day, minus one |
| `JdnPersian.StartOfBaseStep` | ptime/ptime.go:817-833 | consecutive years start 365 or 366 days apart |
| `JdnPersian.StartOfBaseMonotone` | ptime/ptime.go:817-833 | every later year starts no earlier than the end of an earlier one |
| `JdnPersian.StartOfBaseUnique` | ptime/ptime.go:817-833 | a day number falls in the span of only one year |
| `JdnPersian.YearLength` | ptime/ptime.go:817-833 | a year of the cycle has 365 or 366 days |
| `JdnPersian.YearLengthSpan` | ptime/ptime.go:817-833 | the year length is the distance in day numbers from its Farvardin 1 to the next year's |
| `JdnPersian.CycleMonthDays` | ptime/ptime.go:817-833 | a month of the cycle has 29 to 31 days |
| `JdnPersian.CycleMonthDaysSpan` | ptime/ptime.go:817-833 | the month length is the distance in day numbers from the first of the month to the first of the next month (or of the next year for Esfand) |
| `JdnPersian.MonthOfDay` | ptime/ptime.go:320-327 | the month the decoder finds for day dy of a 365- or 366-day year is in 1..12, and the day it finds is within that month's length |
| `JdnPersian.MonthOfDayOf` | ptime/ptime.go:320-325 | conversely, the day of the year of a valid month and day leads back to that month |
| `JdnPersian.YearInCycleBounds` | ptime/ptime.go:307-313 | the year of the cycle the decoder computes from day rem lies in 1..2820, has started by day rem and its successor has not |
| `JdnPersian.StartInCycle` | ptime/ptime.go:315-318 | the first day of year k of cycle cyc, and of the year after, in terms of cycle and the year's offset in the cycle |
| `JdnPersian.PersianFromJdnBase` | ptime/ptime.go:303-327 | the decoder picks the one year whose first day is at or before jdn and whose successor starts after it, and counts month and day from that first day |
| `JdnPersian.PersianFromJdnYear` | ptime/ptime.go:315-327 | once cycle and year of cycle are known, the decoded year, month and day are the ones counted from that year's first day |
| `JdnPersian.DateInYearBy` | ptime/ptime.go:320-327 | the month and day of a day number within a given year, counted from the year's first day |
| `JdnPersian.PersianDecodeEncode` | ptime/ptime.go:303-327 | every day number decodes to a date the cycle admits, and getJdn encodes that date back to the same day number |
| `JdnPersian.PersianEncodeDecode` | ptime/ptime.go:817-833 | every date the cycle admits is decoded again from its getJdn day number |
| `JdnPersian.PersianDecodeEncodeAsWritten` | ptime/ptime.go:303-327 | every day number, before the epoch too, decoded as written and encoded back as written gives the same day number; from JDN 2121446 the decoded date is one the cycle admits |
| `JdnPersian.CycleDateFromEpoch` | ptime/ptime.go:303 | a cycle date is from year 475 on exactly when its day number is at least the epoch 2121446 |
| `JdnPersian.PersianEncodeDecodeAsWritten` | ptime/ptime.go:303-327 | every cycle date from year 475 on is decoded as written from its as-written getJdn day number |
| `JdnPersian.GetJdnOnto` | ptime/ptime.go:817-833 | getJdn misses no day: every day number, negative ones included, is the encoding of some date the cycle admits |
| `JdnPersian.GetJdnAgrees` | ptime/ptime.go:817-833 | from year 474 the truncating encoder gives the corrected encoder's day number |
| `JdnPersian.YearInCycleAgrees` | ptime/ptime.go:307-313 | on a non-negative day of the cycle the truncating and the floor computations of the year in the cycle agree |
| `JdnPersian.DecodedYearAgrees` | ptime/ptime.go:303-318 | from JDN 2121446 the truncating decoder finds the corrected decoder's year |
| `JdnPersian.DecodedYearFrom475` | ptime/ptime.go:303-318 | from JDN 2121446 the decoded year is 475 or later |
| `JdnPersian.DateInYearAgrees` | ptime/ptime.go:320-327 | from year 474 the truncating decoder finds the corrected month and day |
| `JdnPersian.PersianFromJdnAgrees` | ptime/ptime.go:303-327 | from JDN 2121446 the truncating decoder gives the corrected decoder's date |
| `JdnPersian.GetJdnAsWrittenFromNowruz` | ptime/ptime.go:823-832 | the truncating encoder also counts the days of a year from its Farvardin 1 |
| `JdnPersian.YearInCycleAsWrittenBeforeEpoch` | ptime/ptime.go:307-313 | on the 365 days before the epoch the truncated remainder is negative and the decoder picks year 1 of the cycle |
| `JdnPersian.DecodedYearAsWrittenBeforeEpoch` | ptime/ptime.go:303-318 | on the 365 days before the epoch the truncating decoder picks year 475 |
| `JdnPersian.DateInYearAsWrittenBeforeEpoch` | ptime/ptime.go:320-327 | and then counts back into a month 0 of year 475 |
| `JdnPersian.DateInYearAsWrittenBy` | ptime/ptime.go:320-327 | the truncating decoder's month and day of a day number, counted from the year's first day |
| `JdnPersian.TruncatedDecoderBeforeEpoch` | ptime/ptime.go:303-327 | JDN 2121415 to 2121445 decode as written to (475, 0, jdn − 2121414), a date that no calendar admits |
| `JdnPersian.TruncatedDecoderYearBeforeEpoch` | ptime/ptime.go:303-327 | on each of the 365 days before the epoch the truncating decoder gives year 475 and a month of 0 or below, a date the cycle does not admit |
| `JdnPersian.TruncatedDecoderMonthMinusNine` | ptime/ptime.go:303-327 | JDN 2121146, 300 days before the epoch, decodes as written to (475, −9, 11) |
| `JdnPersian.TruncatedDecoderCounterexample` | ptime/ptime.go:303-327 | JDN 2121445 decodes as written to (475, 0, 31) |
| `JdnPersian.CorrectedDecoderAtCounterexample` | ptime/ptime.go:303-327 | the corrected decoder gives 474-12-30 for JDN 2121445, a valid date of the cycle |
| `JdnPersian.TruncatedEncoderDeparts` | ptime/ptime.go:817-833 | before year 474 the truncating encoder departs from the cycle: it puts 314-01-01 one day later than the corrected encoder |
| `JdnPersian.TruncatedEncoderDepartsTwoDays` | ptime/ptime.go:817-833 | for year −9 the truncating encoder puts Farvardin 1 two days later than the corrected encoder |
| `JdnPersian.TruncatedEncoderDeparture` | ptime/ptime.go:817-833 | for every date the truncating encoder's day number is the corrected one plus 0, 1 or 2 |
| `JdnPersian.TruncatedEncoderLongYear` | ptime/ptime.go:817-833 | the truncating encoder gives year −2347 a length of 367 days, where the corrected encoder gives it 366 |
| `JdnPersian.DaysIntoYear` | ptime/ptime.go:825-832 | getJdn(y, m, d) − getJdn(y, 1, 1) is the table's days before month m plus d − 1 |
| `JdnPersian.Nowruz1395` | ptime/ptime.go:817-833 | Persian 1395-01-01 is JDN 2457468, and that day decodes back to it |
| `JdnPersian.LeapRulesDisagree` | ptime/ptime.go:646-648 | 1403 is leap by `IsLeap` but has 365 days in the cycle, and its Esfand 30 is Farvardin 1, 1404; 1404 is common by `IsLeap` but has 366 days in the cycle |
| `JdnGregorian.GregorianFormulaByCentury` | ptime/ptime.go:298 | the Gregorian formula on a date built from century, year of century and March-based month, as a sum of whole cycles |
| `JdnGregorian.GregorianFormulaJdn` | ptime/ptime.go:297-298 | definition: the Gregorian formula of `SetTime` with Go's truncating `/`; see `GregorianEncodeDecode` and `GregorianOnto` |
| `JdnGregorian.JulianFormulaJdn` | ptime/ptime.go:299-300 | definition: the Julian formula of `SetTime` with Go's truncating `/`; see `JulianEncodeDecode` and `JulianOnto` |
| `JdnGregorian.ToJdn` | ptime/ptime.go:295-301 | definition: the Gregorian formula after 1582-10-14, the Julian one up to it; see `HostDateRoundTrip` and `ReformGapDate` |
| `JdnGregorian.GregorianFromJdn` | ptime/ptime.go:220-223 | definition: century and day of century, the first stage of the Gregorian branch of `Time()`; see `GregorianDecodeEncode` |
| `JdnGregorian.GregorianFromCenturyDay` | ptime/ptime.go:224-225 | definition: year of century and day of that year, counted from 31 |
| `JdnGregorian.GregorianFromYearDay` | ptime/ptime.go:226-230 | definition: month and day of the March-based year, and the civil year; see `GregorianFromJdnBy` |
| `JdnGregorian.JulianFromJdn` | ptime/ptime.go:232-234 | definition: four-year cycle and day of cycle, the first stage of the Julian branch of `Time()`; see `JulianDecodeEncode` |
| `JdnGregorian.JulianFromCycleDay` | ptime/ptime.go:235-236 | definition: year of the cycle and day of that year, counted from 31 |
| `JdnGregorian.JulianFromYearDay` | ptime/ptime.go:237-241 | definition: month and day of the March-based year, and the civil year; see `JulianFromJdnBy` |
| `JdnGregorian.FromJdn` | ptime/ptime.go:220-242 | definition: the Gregorian decoder after JDN 2299160, the Julian one up to it; see `HostDateRoundTrip` |
| `JdnGregorian.GregorianFromJdnBy` | ptime/ptime.go:220-230 | the Gregorian decoder once its intermediate quotients are known: Go's truncation is floor on these values |
| `JdnGregorian.GregorianDecodeEncode` | ptime/ptime.go:220-230 | every JDN after 2299160 decodes to a valid Gregorian date after 1582-10-14 that the Gregorian formula encodes back to it |
| `JdnGregorian.GregorianEncodeDecode` | ptime/ptime.go:297-298 | every valid Gregorian date after 1582-10-14 encodes to a JDN after 2299160 that decodes back to it |
| `JdnGregorian.JulianFormulaByCycle` | ptime/ptime.go:300 | the Julian formula on a date built from four-year cycle, year of cycle and March-based month, as a sum of whole cycles |
| `JdnGregorian.JulianFromJdnBy` | ptime/ptime.go:231-242 | the Julian decoder once its intermediate quotients are known |
| `JdnGregorian.JulianDecodeEncode` | ptime/ptime.go:231-242 | every JDN from −1401 to 2299160 decodes to a valid Julian date from −4716-03-01 to 1582-10-04 that the Julian formula encodes back to it |
| `JdnGregorian.JulianEncodeDecode` | ptime/ptime.go:299-300 | every valid Julian date from −4716-03-01 to 1582-10-04 encodes to a JDN from −1401 to 2299160 that decodes back to it |
| `JdnGregorian.GregorianOnto` | ptime/ptime.go:297-298 | every JDN after 2299160 is the Gregorian formula's value on some valid Gregorian date after 1582-10-14 |
| `JdnGregorian.JulianOnto` | ptime/ptime.go:299-300 | every JDN from −1401 to 2299160 is the Julian formula's value on some valid Julian date from −4716-03-01 to 1582-10-04 |
| `JdnGregorian.MarchMonth` | ptime/ptime.go:225-229 | the 80/2447 step turns a day of a March-based year into a month 1..12 (March first) and a day within that month |
| `JdnGregorian.LastJulianDay` | ptime/ptime.go:231-242 | Julian 1582-10-04 is JDN 2299160 and decodes back |
| `JdnGregorian.JulianDecoderBelowRange` | ptime/ptime.go:231-242 | below JDN −1401 the Julian decoder leaves the civil calendar: JDN −1494 decodes to month 0, day −1 of −4716 |
| `JdnGregorian.FirstGregorianDay` | ptime/ptime.go:220-230 | Gregorian 1582-10-15 is JDN 2299161 and decodes back |
| `JdnGregorian.Nowruz1395Day` | ptime/ptime.go:297-298 | Gregorian 2016-03-20 is JDN 2457468 and decodes back |
| `PTime.IsValidHostTime` | ptime/ptime.go:284-295 | assumption about the host: a moment it can hand over has a valid proleptic Gregorian date and an in-range clock |
| `PTime.DayCarry` | ptime/ptime.go:244 | assumption about the host: `time.Date` carries an out-of-range clock into whole days by floor division; an in-range clock carries none |
| `PTime.HostDayCount` | ptime/ptime.go:856 | assumption about the host: its proleptic Gregorian day count, the Fliegel–Van Flandern formula with floor division (no contract of its own; see the next three rows) |
| `PTime.HostDayCountAgrees` | ptime/ptime.go:297-298 | from year −4799 on, for months 1..12, the host's day count is the truncating Gregorian formula of `SetTime` |
| `PTime.HostDayCountPeriodic` | ptime/ptime.go:856 | the host's day count runs on by 146097 days every 400 years, for every year |
| `PTime.HostDayCountLeapYear` | ptime/ptime.go:297-298 | the truncating formula gives 365 days from −4805-03-01 to −4804-03-01, where the host counts 366 |
| `PTime.HostDayCountMonthShift` | ptime/ptime.go:244 | a month from −9 to 0 counts as the month twelve later in the year before, so the host's day count of such a date is that of the date `time.Date` normalises it to |
| `PTime.HostWeekday` | ptime/ptime.go:856 | assumption about the host: the weekday (Sunday = 0) of its day count plus the days the clock carries; always in 0..6 |
| `PTime.GetWeekday` | ptime/ptime.go:835-853 | host weekday d (Sunday = 0) becomes Persian weekday (d + 1) mod 7 (Saturday = 0); anything else becomes 0 |
| `PTime.Between` | ptime/ptime.go:802-808 | the result lies in [lo, hi], leaves an in-range value unchanged, and is the nearest point of the range (saturation, not wrap-around) |
| `PTime.BetweenIdempotent` | ptime/ptime.go:802-808 | clamping twice is clamping once |
| `PTime.WeekdayOf` | ptime/ptime.go:855-857 | the weekday `resetWeekday` caches lies in 0..6 |
| `PTime.ModifyHour` | ptime/ptime.go:758-763 | 0 becomes max, every other value is unchanged; on [0, max) the result is in [1, max] and congruent to the input |
| `PTime.Normalized` | ptime/ptime.go:765-800 | definition: what `norm` establishes: month in 1..12, day within the month's table length under `IsLeap`, clock fields in range |
| `PTime.Time.constructor` | ptime/ptime.go:29-39 | the zero record `Time{}`: every field 0, no time zone |
| `PTime.Time.NormNanosecond` | ptime/ptime.go:774-776 | nanoseconds clamped to [0, 999999999], nothing else changes |
| `PTime.Time.NormSecond` | ptime/ptime.go:778-780 | seconds clamped to [0, 59], nothing else changes |
| `PTime.Time.NormMinute` | ptime/ptime.go:782-784 | minutes clamped to [0, 59], nothing else changes |
| `PTime.Time.NormHour` | ptime/ptime.go:786-788 | hours clamped to [0, 23], nothing else changes |
| `PTime.Time.NormMonth` | ptime/ptime.go:790-792 | month clamped to [1, 12], nothing else changes |
| `PTime.Time.NormDay` | ptime/ptime.go:794-800 | day clamped to the table length of the month under `IsLeap`, nothing else changes |
| `PTime.Time.Norm` | ptime/ptime.go:765-772 | every field clamped, the day to the length of the already clamped month, so the record is normalised; year, zone and weekday unchanged |
| `PTime.Time.ResetWeekday` | ptime/ptime.go:855-857 | the weekday becomes the host weekday of the current fields; nothing else changes |
| `PTime.Time.Set` | ptime/ptime.go:349-365 | with a zone, every field is stored clamped, the record is normalised, and the weekday is the one of the raw, unclamped fields; without a zone it panics, leaving the record untouched |
| `PTime.Time.Store` | ptime/ptime.go:354-364 | the stores and the `norm` call of `Set`, given the weekday |
| `PTime.Time.SetYear` | ptime/ptime.go:368-372 | the year is set, the day is re-clamped to the month of the new year, the weekday is recomputed, and the clock is unchanged |
| `PTime.Time.SetMonth` | ptime/ptime.go:375-380 | the month is clamped first, then the day to that month; the weekday is recomputed |
| `PTime.Time.SetDay` | ptime/ptime.go:383-387 | the day is clamped to the current month; the weekday is recomputed |
| `PTime.Time.SetHour` | ptime/ptime.go:390-393 | the hour is clamped and nothing else changes |
| `PTime.Time.SetMinute` | ptime/ptime.go:396-399 | the minute is clamped and nothing else changes (no carry into the hour) |
| `PTime.Time.SetSecond` | ptime/ptime.go:402-405 | the second is clamped and nothing else changes |
| `PTime.Time.SetNanosecond` | ptime/ptime.go:408-411 | the nanosecond is clamped and nothing else changes |
| `PTime.Time.In` | ptime/ptime.go:415-422 | with a zone, the zone is set and the weekday recomputed; without one it panics, leaving the record untouched |
| `PTime.Time.At` | ptime/ptime.go:425-434 | the clock is set and clamped; date, zone and weekday unchanged |
| `PTime.Time.SetTime` | ptime/ptime.go:284-332 | the clock, zone and weekday come from the host moment, and the date is the corrected Persian decoding of the host date's JDN; that date is valid in the cycle and encodes back to the JDN; from JDN 2121446 it is the source's own decoding (`PersianFromJdnAgrees`) |
| `PTime.DecodeHostTime` | ptime/ptime.go:292-327 | the fields `SetTime` takes from a host moment: the Persian decoding of its JDN, which is valid in the cycle and encodes back to the JDN, and the Persian weekday of the host's weekday |
| `PTime.Time.ToHostTime` | ptime/ptime.go:215-245 | the host moment has the decoded host date of the record's JDN and the record's clock and zone; after the reform it is a valid Gregorian moment that encodes back to the JDN |
| `PTime.Time.YearDay` | ptime/ptime.go:507-509 | the day of the year is getJdn(y, m, d) − getJdn(y, 1, 1) + 1, and in a normalised record it lies in 1..365 (366 in a leap year) |
| `PTime.Time.RYearDay` | ptime/ptime.go:512-518 | in a normalised record the days left lie in 0..365 and are the day-number distance to the year's last day under `IsLeap` |
| `PTime.Time.RMonthDay` | ptime/ptime.go:526-532 | the days left in the month are the day-number distance to its last day under `IsLeap`, in 0..30 for a normalised record |
| `PTime.Time.MonthWeek` | ptime/ptime.go:601-603 | the number of whole weeks in the day of the month: 0..4, and 0 exactly for the first six days |
| `PTime.Time.RMonthWeek` | ptime/ptime.go:606-608 | the number of whole weeks in the remaining days of the month |
| `PTime.Time.YearWeek` | ptime/ptime.go:611-613 | the number of whole weeks in the day of the year: 0..52 |
| `PTime.Time.RYearWeek` | ptime/ptime.go:616-618 | the number of whole weeks in the remaining days of the year |
| `PTime.Time.AmPm` | ptime/ptime.go:651-657 | PM exactly when the clock is past 12:00:00 to the second, so 12:00:00 (whatever the nanoseconds) is AM |
| `PTime.Time.Hour12` | ptime/ptime.go:477-484 | an hour of [0, 23] becomes the hour modulo 12, in [0, 11] |
| `PTime.FromHostTime` | ptime/ptime.go:207-212 | a new record holding the host moment's clock, zone and weekday and the Persian date of its JDN |
| `PTime.NewDate` | ptime/ptime.go:251-260 | without a zone it panics (null); otherwise a new normalised record with the clamped fields and the weekday of the raw fields |
| `PTime.HostDateRoundTrip` | ptime/ptime.go:297-301 | storing a host date and reading it back through `Time()` gives the same date from −4716-03-01 to 1582-10-04 and after 1582-10-14 |
| `PTime.ReformGapDate` | ptime/ptime.go:297-301 | the host date 1582-10-05 goes through the Julian formula to the JDN of 1582-10-15, and `Time()` answers 1582-10-15 |
| `PTime.PersianHostRoundTrip` | ptime/ptime.go:215-245 | a cycle date sent to the host and read back through `SetTime` is unchanged after the reform, and before it from JDN −1401 on whenever the Julian fields are also a proleptic Gregorian date |
| `PTime.PersianHostRoundTripAsWritten` | ptime/ptime.go:215-245 | the same round trip through the source's own truncating encoder and decoder, for the cycle dates from year 475 on |
| `PTime.WeekdayOfAsWritten` | ptime/ptime.go:855-857 | from year 474 on the cached weekday is the one computed through the source's own truncating encoder |
| `PTime.ToHostTimeAsWritten` | ptime/ptime.go:215-245 | from year 474 on `Time()` hands the host the date the source's own truncating encoder gives |
| `PTime.SetTimeOnto` | ptime/ptime.go:284-332 | `SetTime` misses no cycle date after the reform: each is the date it stores for some proleptic Gregorian host date |
| `PTime.LeapMismatchThroughHost` | ptime/ptime.go:646-648 | Esfand 30, 1403 is a valid day for the setters but not for the cycle, and comes back from the host as Farvardin 1, 1404 |
| `PTime.SetTimeOutsideSetterRange` | ptime/ptime.go:303-327 | Esfand 30, 1404 is a day of the cycle after the reform that the decoder produces and encodes back, while the setters' table gives Esfand 1404 29 days |
| `PTime.HostWeekdayGregorian` | ptime/ptime.go:835-853 | after the reform the Persian weekday of a host moment with an in-range clock is (JDN + 2) mod 7 |
| `PTime.WeekdayOfGregorian` | ptime/ptime.go:855-857 | the weekday `resetWeekday` caches for a date after the reform is (getJdn + 2) mod 7 |
| `PTime.UnclampedWeekday` | ptime/ptime.go:362-364 | for a day past the end of the month, `Set` stores the last day but caches the weekday of the unclamped day, which runs on by the excess |
| `PTime.JulianEraWeekday` | ptime/ptime.go:855-857 | JDN 2299160 (a Thursday) holds the Julian fields 1582-10-04, which the host reads as a Gregorian Monday |
| `PTime.TimeThenSetTime` | ptime/ptime.go:284-332 | `pt.SetTime(pt.Time())` leaves a cycle date after the reform, the clock and the zone as they were |
| `PTime.SetTimeCachesWeekday` | ptime/ptime.go:292 | after `SetTime` from a moment after the reform, the cached weekday is (getJdn of the stored date + 2) mod 7 |
| `PTime.SetTimeThenTime` | ptime/ptime.go:215-245 | `SetTime(t)` then `Time()` gives back t, outside the reform gap and from −4716-03-01 on |
| `PTime.SetMinuteSaturates` | ptime/ptime.go:396-399 | `SetMinute(75)` gives minute 59 and leaves the hour alone |
| `PTime.SetYearClampsEsfand` | ptime/ptime.go:368-372 | setting the year of Esfand 30, 1403 to 1404 clamps the day to 29 |

## Left out

- `Format` and the name tables are not modelled: they are formatting and lookups only. This covers `String`, `Dari`, `Short` and the Persian and Dari month and weekday names.
- Everything computed by the host time library is not modelled: `Now`, `Unix`, `SetUnix`, `Add`, `AddDate`, `Yesterday`, `Tomorrow`, `Since`, `Unix()`, `UnixNano()`, `Zone`, `ZoneOffset`, `FirstWeekDay` and `LastWeekday`.
- `FirstMonthDay`, `LastMonthDay`, `FirstYearDay` and `LastYearDay` are not modelled. They build new records through `Date` at fixed days, and `Date` (`NewDate`) is modelled.
- The plain field getters (`Year`, `Month`, `Day`, `Hour`, `Minute`, `Second`, `Nanosecond`, `Location`, `Weekday`, `Date`, `Clock`, `IsLeap` on the record) are not modelled separately. The model reads the fields directly, and `IsLeap` is `JdnPersian.IsLeap` of the year.
- Time zones are opaque `Location` objects. Zone offsets and daylight saving never move a date here.
- Machine integers are unbounded: 64-bit overflow is not modelled.
- Go panics become contracts:
  - `Set` and `In` return `panicked` and leave the record untouched on a nil zone.
  - `NewDate` returns null on a nil zone.
  - The setters and getters that index `p_month_count` require a month in 1..12: `NormDay`, `SetYear`, `SetDay`, `YearDay`, `RYearDay`, `RMonthDay`, `RMonthWeek`, `YearWeek` and `RYearWeek`.
  - The setters that ask the host for a weekday (`SetYear`, `SetMonth`, `SetDay`, `ResetWeekday`) require a zone, since the host refuses a nil one.
  - `ToHostTime` requires a zone, since `time.Date` panics on a nil one.
  - `FromHostTime` requires a host moment that the host can produce (`IsValidHostTime`). `SetTime` needs no such requirement.
- HostWeekday: the host weekday is an assumption. It is the host's proleptic Gregorian day count of the civil date handed over (`HostDayCount`), plus the days an out-of-range clock carries. The host's normalisation of a month outside 1..12 is not modelled. Such a month reaches the host only below JDN −1401 (see ToHostTime), and it does not change the day count (`HostDayCountMonthShift`).
- WeekdayOf: the weekday of a Persian date goes through the corrected `getJdn`. Before year 474 it can be one or two days off the source's truncating `getJdn` (`TruncatedEncoderDeparts`, `TruncatedEncoderDepartsTwoDays`), and never more (`TruncatedEncoderDeparture`). From year 474 on `WeekdayOfAsWritten` proves it equal to the source's.
- ResetWeekday: it caches `WeekdayOf`, so the same departure before year 474 applies.
- Set: it caches `WeekdayOf`, so the same departure before year 474 applies.
- SetYear: it caches `WeekdayOf`, so the same departure before year 474 applies.
- SetMonth: it caches `WeekdayOf`, so the same departure before year 474 applies.
- SetDay: it caches `WeekdayOf`, so the same departure before year 474 applies.
- In: it caches `WeekdayOf`, so the same departure before year 474 applies.
- NewDate: it caches `WeekdayOf`, so the same departure before year 474 applies.
- ToHostTime: the host date is decoded from the corrected `getJdn`, which departs from the source's by up to two days before year 474. From year 474 on `ToHostTimeAsWritten` proves it equal to the source's.
- SetTime: the stored date is the corrected decoding, a valid date of the cycle. For host dates before JDN 2121446 (1096-03-15) the source stores something else: for JDN 2121445 it stores (475, 0, 31) (`TruncatedDecoderCounterexample`). From JDN 2121446 on the two agree (`PersianFromJdnAgrees`). The agreement is a separate lemma, not a clause of the contract.
- FromHostTime: it stores what `SetTime` stores, with the same departure before JDN 2121446.
- DecodeHostTime: it decodes with the corrected decoder. Before JDN 2121446 this departs from the decoding half of `SetTime` as written: for JDN 2121445 the source computes (475, 0, 31), this member 474-12-30. From JDN 2121446 on the two agree (`PersianFromJdnAgrees`).
- PersianHostRoundTrip: it is stated for the corrected encoder and decoder. For the source's own pair the round trip is `PersianHostRoundTripAsWritten`, from year 475 on.
- ToHostTime: `time.Date` would normalise a host date that the proleptic Gregorian calendar lacks (a Julian 29 February of a century year such as 1500). The same holds below JDN −1401, where the Julian decoder gives months from −8 to 0 and days outside the month: JDN −1494 gives −4716, month 0, day −1 (`JulianDecoderBelowRange`), which `time.Date` would make −4717-11-29. The model hands such dates over as they are, so there the record's host moment is not the source's `time.Time`. The host day count of such a month is that of the month twelve later a year earlier (`HostDayCountMonthShift`), and the count is linear in the day, so the weekday the model asks for is the one the normalised date has. This is why `PersianHostRoundTrip` requires, before the reform, a Julian date that is also a valid Gregorian date.
- SetTime: `math.Ceil` on a `float64` quotient is modelled as the exact integer ceiling (`CeilDiv`). For the day counts involved the two are the same.
- There is no separate `Epoch` computation. `SetTime` evaluates `getJdn(475, 1, 1)` on every call; the model uses the constant `JdnPersian.Epoch`, and `EpochDay` proves it is that value.
- Set: it computes the weekday from the raw parameters and then stores and clamps (`Store`). The source assigns the fields, calls `resetWeekday` and then `norm`; both orders give the same result.
- Go typing quirks are abstracted away. `Time` is both a type and a function in the source, `&pt.SetTime(t)` takes the address of a call, and `between(&t.month, …)` passes a `*Month` as a `*int`. Months and weekdays are plain integers here.
- The decoders of `Time()` are split into stages (`GregorianFromCenturyDay`, `GregorianFromYearDay`, `JulianFromCycleDay`, `JulianFromYearDay`). The stages perform the same operations in the same order as the single Go block.

## Findings

| source | as written | input that shows it | evidently intended | confidence | as-written member | corrected member |
|---|---|---|---|---|---|---|
| ptime/ptime.go:303-305 | the decoder splits `jdn - getJdn(475, 1, 1)` into cycle and remainder with Go's truncating `/` and `%`, so before the epoch the remainder is negative | JDN 2121445 decodes to year 475, month 0, day 31 | floor division, as in the 2820-year cycle algorithm the code follows: JDN 2121445 is 474-12-30, and every JDN decodes to a valid date that encodes back | medium: proved for the whole year before 1096-03-15 (JDN 2121081 to 2121445), which decodes to month 0 or below (`TruncatedDecoderYearBeforeEpoch`; the last 31 days to month 0, `TruncatedDecoderBeforeEpoch`; JDN 2121146 to month −9, `TruncatedDecoderMonthMinusNine`); earlier days are not proved here; from year 475 the as-written pair round-trips (`PersianEncodeDecodeAsWritten`); not executed | `JdnPersian.TruncatedDecoderCounterexample` | `JdnPersian.PersianDecodeEncode` |
| ptime/ptime.go:817-833 | `getJdn` reduces `base` with Go's `%` and `/`, which misplace the cycle boundary for negative bases (years before 474) | Farvardin 1 of −2346 comes 367 days after Farvardin 1 of −2347 | floor division, under which every year has 365 or 366 days | low: only years before 474 are affected; not executed | `JdnPersian.TruncatedEncoderLongYear` | `JdnPersian.YearLengthSpan` |

## Notes

- `divider(0, den)` is `den`, not 0, whenever `den` is greater than 1 (for `den` 1 it is 0). `IsLeap` never reaches that case, because 25·year + 11 is never 0.
- Before the reform the weekday that `resetWeekday` caches is not the weekday of the day. `Time()` hands the host Julian fields, and the host reads them as Gregorian (`JulianEraWeekday`).
- The host dates 1582-10-05 to 1582-10-14 take the Julian formula and so land on the first Gregorian days (`ReformGapDate`). No round trip holds for them.
- JDNs below −1401 are outside both round trips. There the truncating quotients of the Julian decoder no longer coincide with floors.
