/** The `Time` record of the ptime package: a Persian date, a clock, a time
    zone and a cached weekday, with the setters that clamp every field into
    range and the getters derived from the fields.

    Time zones are opaque tokens.  The host time library is modelled only as
    far as the record uses it: a host moment is a proleptic Gregorian date
    with a clock, and its weekday is read from the Fliegel-Van Flandern day
    count of that date (see HostWeekday).
 */
module PTime {
  import opened GoArith
  import opened JdnGregorian
  import opened JdnPersian

  /** A time zone, compared by identity only. */
  class Location {
  }

  // ---------------------------------------------------------------------
  // Weekdays and 12-hour markers

  /** Persian weekdays, Saturday first. */
  const Shanbe: int := 0
  const Yekshanbe: int := 1
  const Doshanbe: int := 2
  const Seshanbe: int := 3
  const Charshanbe: int := 4
  const Panjshanbe: int := 5
  const Jomeh: int := 6

  const AM: int := 0
  const PM: int := 1

  /** `getWeekday`: the host weekday (Sunday = 0 ... Saturday = 6) as a
      Persian weekday (Saturday = 0 ... Friday = 6); anything else is 0. */
  function GetWeekday(wd: int): (w: int)
    ensures 0 <= w <= 6
    ensures 0 <= wd <= 6 ==> w == (wd + 1) % 7
  {
    if wd == 6 then Shanbe
    else if wd == 0 then Yekshanbe
    else if wd == 1 then Doshanbe
    else if wd == 2 then Seshanbe
    else if wd == 3 then Charshanbe
    else if wd == 4 then Panjshanbe
    else if wd == 5 then Jomeh
    else 0
  }

  // ---------------------------------------------------------------------
  // The host time library

  /** A moment of the host library: a civil date and clock in a time zone. */
  datatype HostTime = HostTime(date: Date, hour: int, min: int, sec: int, nsec: int, loc: Location)

  /** The values a host moment can take: a proleptic Gregorian date and an
      in-range clock. */
  predicate IsValidHostTime(t: HostTime) {
    IsValidGregorian(t.date)
    && 0 <= t.hour <= 23 && 0 <= t.min <= 59 && 0 <= t.sec <= 59 && 0 <= t.nsec <= 999999999
  }

  /** Whole days carried into the date when the host builds a moment from an
      out-of-range clock (nanoseconds into seconds into minutes into hours
      into days, each by floor division). */
  function DayCarry(hour: int, min: int, sec: int, nsec: int): (c: int)
    ensures 0 <= hour <= 23 && 0 <= min <= 59 && 0 <= sec <= 59 && 0 <= nsec <= 999999999 ==> c == 0
  {
    var s := sec + nsec / 1000000000;
    var m := min + s / 60;
    var h := hour + m / 60;
    h / 24
  }

  /** The host's proleptic Gregorian day count of a date: the Fliegel-Van
      Flandern formula with floor division, which keeps counting days for
      every year (the truncating formula of SetTime stops doing so below year
      -4799, see HostDayCountAgrees). */
  function HostDayCount(date: Date): int {
    var a := if date.month <= 2 then -1 else 0;
    (1461 * (date.year + 4800 + a)) / 4 + (367 * (date.month - 2 - 12 * a)) / 12
    - (3 * ((date.year + 4900 + a) / 100)) / 4 + date.day - 32075
  }

  /** From year -4799 on, the host's day count is the Gregorian formula of SetTime. */
  lemma HostDayCountAgrees(date: Date)
    requires 1 <= date.month <= 12 && date.year >= -4799
    ensures HostDayCount(date) == GregorianFormulaJdn(date.year, date.month, date.day)
  {
    var a := if date.month <= 2 then -1 else 0;
    assert GoDiv(date.month - 14, 12) == a;
    GoDivNonNegative(1461 * (date.year + 4800 + a), 4);
    GoDivNonNegative(367 * (date.month - 2 - 12 * a), 12);
    GoDivNonNegative(date.year + 4900 + a, 100);
    GoDivNonNegative(3 * ((date.year + 4900 + a) / 100), 4);
  }

  /** The host's day count runs on by 146097 days every 400 years, on every year. */
  lemma HostDayCountPeriodic(date: Date)
    ensures HostDayCount(Date(date.year + 400, date.month, date.day)) == HostDayCount(date) + 146097
  {
    var a := if date.month <= 2 then -1 else 0;
    var y := date.year + 4800 + a;
    assert (1461 * (y + 400)) / 4 == (1461 * y) / 4 + 146100;
    var c := (y + 100) / 100;
    assert (y + 500) / 100 == c + 4;
    assert (3 * (c + 4)) / 4 == (3 * c) / 4 + 3;
  }

  /** Where the truncating formula reads a year of 365 days (-4805 to -4804,
      though -4804 is a leap year), the host's day count has the 366 days. */
  lemma HostDayCountLeapYear()
    ensures HostDayCount(Date(-4804, 3, 1)) - HostDayCount(Date(-4805, 3, 1)) == 366
    ensures GregorianFormulaJdn(-4804, 3, 1) - GregorianFormulaJdn(-4805, 3, 1) == 365
  {
    assert HostDayCount(Date(-4804, 3, 1)) == -33505;
    assert HostDayCount(Date(-4805, 3, 1)) == -33871;
    assert GoDiv(-11, 12) == 0 && GoDiv(367, 12) == 30;
    assert GoDiv(-5844, 4) == -1461 && GoDiv(-7305, 4) == -1826;
    assert GoDiv(96, 100) == 0 && GoDiv(95, 100) == 0 && GoDiv(0, 4) == 0;
    assert GregorianFormulaJdn(-4804, 3, 1) == -33505;
    assert GregorianFormulaJdn(-4805, 3, 1) == -33870;
  }

  /** A month 0 down to -9 of a year counts as the month twelve later in
      the year before: the host's day count does not depend on whether the
      host has normalised such a date first. */
  lemma HostDayCountMonthShift(date: Date)
    requires -9 <= date.month <= 0
    ensures HostDayCount(date) == HostDayCount(Date(date.year - 1, date.month + 12, date.day))
  {
  }

  /** The host weekday (Sunday = 0) of a date and clock handed to the host,
      which reads every date as proleptic Gregorian.  This models the host
      library and is an assumption, not code of the package. */
  function HostWeekday(date: Date, hour: int, min: int, sec: int, nsec: int): (wd: int)
    ensures 0 <= wd <= 6
  {
    (HostDayCount(date) + DayCarry(hour, min, sec, nsec) + 1) % 7
  }

  // ---------------------------------------------------------------------
  // Clamping

  function Distance(a: int, b: int): int {
    if a <= b then b - a else a - b
  }

  /** `between`: saturate value into [lo, hi]. */
  function Between(value: int, lo: int, hi: int): (r: int)
    ensures lo <= hi ==> lo <= r <= hi
    ensures lo <= value <= hi ==> r == value
    ensures lo <= hi ==> forall x :: lo <= x <= hi ==> Distance(r, value) <= Distance(x, value)
  {
    if value < lo then lo else if value > hi then hi else value
  }

  /** Clamping twice is clamping once. */
  lemma BetweenIdempotent(value: int, lo: int, hi: int)
    requires lo <= hi
    ensures Between(Between(value, lo, hi), lo, hi) == Between(value, lo, hi)
  {
  }

  /** The weekday the record caches: the host weekday of the Gregorian moment
      that the fields denote, without clamping them first. */
  function WeekdayOf(year: int, month: int, day: int, hour: int, min: int, sec: int, nsec: int): (w: int)
    ensures 0 <= w <= 6
  {
    GetWeekday(HostWeekday(FromJdn(GetJdn(year, month, day)), hour, min, sec, nsec))
  }

  /** `modifyHour`: 0 is shown as max. */
  function ModifyHour(value: int, max: int): (r: int)
    requires max > 0
    ensures 0 <= value < max ==> 1 <= r <= max && r % max == value
    ensures value != 0 ==> r == value
  {
    if value == 0 then max else value
  }

  // ---------------------------------------------------------------------
  // The record

  class Time {
    var year: int
    var month: int
    var day: int
    var hour: int
    var min: int
    var sec: int
    var nsec: int
    var loc: Location?
    var wday: int

    /** The zero value `Time{}`. */
    constructor ()
      ensures year == 0 && month == 0 && day == 0
      ensures hour == 0 && min == 0 && sec == 0 && nsec == 0
      ensures loc == null && wday == 0
    {
      year, month, day := 0, 0, 0;
      hour, min, sec, nsec := 0, 0, 0, 0;
      loc := null;
      wday := 0;
    }

    /** Every field in the range the setters promise. */
    predicate Normalized()
      reads this
    {
      0 <= nsec <= 999999999 && 0 <= sec <= 59 && 0 <= min <= 59 && 0 <= hour <= 23
      && 1 <= month <= 12 && 1 <= day <= MonthDays(year, month)
    }

    // -------------------------------------------------------------------
    // Normalisers

    method NormNanosecond()
      modifies this
      ensures nsec == Between(old(nsec), 0, 999999999)
      ensures year == old(year) && month == old(month) && day == old(day)
      ensures hour == old(hour) && min == old(min) && sec == old(sec)
      ensures loc == old(loc) && wday == old(wday)
    {
      nsec := Between(nsec, 0, 999999999);
    }

    method NormSecond()
      modifies this
      ensures sec == Between(old(sec), 0, 59)
      ensures year == old(year) && month == old(month) && day == old(day)
      ensures hour == old(hour) && min == old(min) && nsec == old(nsec)
      ensures loc == old(loc) && wday == old(wday)
    {
      sec := Between(sec, 0, 59);
    }

    method NormMinute()
      modifies this
      ensures min == Between(old(min), 0, 59)
      ensures year == old(year) && month == old(month) && day == old(day)
      ensures hour == old(hour) && sec == old(sec) && nsec == old(nsec)
      ensures loc == old(loc) && wday == old(wday)
    {
      min := Between(min, 0, 59);
    }

    method NormHour()
      modifies this
      ensures hour == Between(old(hour), 0, 23)
      ensures year == old(year) && month == old(month) && day == old(day)
      ensures min == old(min) && sec == old(sec) && nsec == old(nsec)
      ensures loc == old(loc) && wday == old(wday)
    {
      hour := Between(hour, 0, 23);
    }

    method NormMonth()
      modifies this
      ensures month == Between(old(month), 1, 12)
      ensures year == old(year) && day == old(day)
      ensures hour == old(hour) && min == old(min) && sec == old(sec) && nsec == old(nsec)
      ensures loc == old(loc) && wday == old(wday)
    {
      month := Between(month, 1, 12);
    }

    /** The month must already be in range: the table lookup fails otherwise. */
    method NormDay()
      requires 1 <= month <= 12
      modifies this
      ensures year == old(year) && month == old(month)
      ensures day == Between(old(day), 1, MonthDays(year, month))
      ensures 1 <= day <= MonthDays(year, month)
      ensures hour == old(hour) && min == old(min) && sec == old(sec) && nsec == old(nsec)
      ensures loc == old(loc) && wday == old(wday)
    {
      day := Between(day, 1, MonthDays(year, month));
    }

    /** `norm`: clamp every field, the month before the day. */
    method Norm()
      modifies this
      ensures Normalized()
      ensures nsec == Between(old(nsec), 0, 999999999) && sec == Between(old(sec), 0, 59)
      ensures min == Between(old(min), 0, 59) && hour == Between(old(hour), 0, 23)
      ensures month == Between(old(month), 1, 12)
      ensures day == Between(old(day), 1, MonthDays(old(year), month))
      ensures year == old(year) && loc == old(loc) && wday == old(wday)
    {
      NormNanosecond();
      NormSecond();
      NormMinute();
      NormHour();
      NormMonth();
      NormDay();
    }

    /** `resetWeekday`: recompute the cached weekday through the host.  The
        host refuses a missing time zone. */
    method ResetWeekday()
      requires loc != null
      modifies this
      ensures wday == WeekdayOf(year, month, day, hour, min, sec, nsec)
      ensures year == old(year) && month == old(month) && day == old(day)
      ensures hour == old(hour) && min == old(min) && sec == old(sec) && nsec == old(nsec)
      ensures loc == old(loc)
    {
      wday := WeekdayOf(year, month, day, hour, min, sec, nsec);
    }

    // -------------------------------------------------------------------
    // Setters

    /** `Set`: store every field, compute the weekday from the stored (not yet
        clamped) fields as `resetWeekday` does, then clamp.  A missing time
        zone panics, which is modelled as `panicked` with the record
        untouched. */
    method Set(year: int, month: int, day: int, hour: int, min: int, sec: int, nsec: int, loc: Location?)
      returns (panicked: bool)
      modifies this
      ensures panicked <==> loc == null
      ensures panicked ==> unchanged(this)
      ensures !panicked ==> Normalized()
      ensures !panicked ==>
        && this.year == year && this.month == Between(month, 1, 12)
        && this.day == Between(day, 1, MonthDays(year, this.month))
        && this.hour == Between(hour, 0, 23) && this.min == Between(min, 0, 59)
        && this.sec == Between(sec, 0, 59) && this.nsec == Between(nsec, 0, 999999999)
        && this.loc == loc
      ensures !panicked ==> this.wday == WeekdayOf(year, month, day, hour, min, sec, nsec)
    {
      if loc == null {
        return true;
      }
      var w := WeekdayOf(year, month, day, hour, min, sec, nsec);
      Store(year, month, day, hour, min, sec, nsec, loc, w);
      return false;
    }

    /** The stores and the clamping of `Set`, given the weekday already
        computed from the raw fields. */
    method Store(year: int, month: int, day: int, hour: int, min: int, sec: int, nsec: int, loc: Location, wday: int)
      modifies this
      ensures Normalized()
      ensures this.year == year && this.month == Between(month, 1, 12)
      ensures this.day == Between(day, 1, MonthDays(year, this.month))
      ensures this.hour == Between(hour, 0, 23) && this.min == Between(min, 0, 59)
      ensures this.sec == Between(sec, 0, 59) && this.nsec == Between(nsec, 0, 999999999)
      ensures this.loc == loc && this.wday == wday
    {
      this.year, this.month, this.day := year, month, day;
      this.hour, this.min, this.sec, this.nsec := hour, min, sec, nsec;
      this.loc, this.wday := loc, wday;
      Norm();
    }

    /** `SetYear`: the day is clamped to the month of the new year. */
    method SetYear(year: int)
      requires 1 <= month <= 12 && loc != null
      modifies this
      ensures month == old(month) && hour == old(hour) && min == old(min)
      ensures this.year == year && day == Between(old(day), 1, MonthDays(year, month))
      ensures sec == old(sec) && nsec == old(nsec) && loc == old(loc)
      ensures wday == WeekdayOf(year, month, day, hour, min, sec, nsec)
    {
      this.year := year;
      NormDay();
      ResetWeekday();
    }

    /** `SetMonth`: the month is clamped first, then the day to that month. */
    method SetMonth(month: int)
      requires loc != null
      modifies this
      ensures this.month == Between(month, 1, 12)
      ensures day == Between(old(day), 1, MonthDays(year, this.month))
      ensures year == old(year) && hour == old(hour) && min == old(min)
      ensures sec == old(sec) && nsec == old(nsec) && loc == old(loc)
      ensures wday == WeekdayOf(year, this.month, day, hour, min, sec, nsec)
    {
      this.month := month;
      NormMonth();
      NormDay();
      ResetWeekday();
    }

    /** `SetDay`: the day is clamped to the current month. */
    method SetDay(day: int)
      requires 1 <= month <= 12 && loc != null
      modifies this
      ensures year == old(year) && month == old(month) && hour == old(hour) && min == old(min)
      ensures this.day == Between(day, 1, MonthDays(year, month))
      ensures sec == old(sec) && nsec == old(nsec) && loc == old(loc)
      ensures wday == WeekdayOf(year, month, this.day, hour, min, sec, nsec)
    {
      this.day := day;
      NormDay();
      ResetWeekday();
    }

    method SetHour(hour: int)
      modifies this
      ensures this.hour == Between(hour, 0, 23)
      ensures year == old(year) && month == old(month) && day == old(day)
      ensures min == old(min) && sec == old(sec) && nsec == old(nsec)
      ensures loc == old(loc) && wday == old(wday)
    {
      this.hour := hour;
      NormHour();
    }

    /** `SetMinute`: saturates; the hour is left alone. */
    method SetMinute(min: int)
      modifies this
      ensures this.min == Between(min, 0, 59)
      ensures year == old(year) && month == old(month) && day == old(day)
      ensures hour == old(hour) && sec == old(sec) && nsec == old(nsec)
      ensures loc == old(loc) && wday == old(wday)
    {
      this.min := min;
      NormMinute();
    }

    method SetSecond(sec: int)
      modifies this
      ensures this.sec == Between(sec, 0, 59)
      ensures year == old(year) && month == old(month) && day == old(day)
      ensures hour == old(hour) && min == old(min) && nsec == old(nsec)
      ensures loc == old(loc) && wday == old(wday)
    {
      this.sec := sec;
      NormSecond();
    }

    method SetNanosecond(nsec: int)
      modifies this
      ensures this.nsec == Between(nsec, 0, 999999999)
      ensures year == old(year) && month == old(month) && day == old(day)
      ensures hour == old(hour) && min == old(min) && sec == old(sec)
      ensures loc == old(loc) && wday == old(wday)
    {
      this.nsec := nsec;
      NormNanosecond();
    }

    /** `In`: a missing time zone panics (modelled as `panicked`). */
    method In(loc: Location?) returns (panicked: bool)
      modifies this
      ensures panicked <==> loc == null
      ensures panicked ==> unchanged(this)
      ensures !panicked ==> this.loc == loc && wday == WeekdayOf(year, month, day, hour, min, sec, nsec)
      ensures year == old(year) && month == old(month) && day == old(day)
      ensures hour == old(hour) && min == old(min) && sec == old(sec) && nsec == old(nsec)
    {
      if loc == null {
        return true;
      }
      this.loc := loc;
      ResetWeekday();
      return false;
    }

    /** `At`: set and clamp the clock; the weekday is not recomputed. */
    method At(hour: int, min: int, sec: int, nsec: int)
      modifies this
      ensures this.hour == Between(hour, 0, 23) && this.min == Between(min, 0, 59)
      ensures this.sec == Between(sec, 0, 59) && this.nsec == Between(nsec, 0, 999999999)
      ensures year == old(year) && month == old(month) && day == old(day)
      ensures loc == old(loc) && wday == old(wday)
    {
      this.hour, this.min, this.sec, this.nsec := hour, min, sec, nsec;
      NormHour();
      NormMinute();
      NormSecond();
      NormNanosecond();
    }

    /** `SetTime`: take the clock, zone and weekday of a host moment and find
        its Persian date through the Julian Day Number. */
    method SetTime(t: HostTime)
      modifies this
      ensures hour == t.hour && min == t.min && sec == t.sec && nsec == t.nsec && loc == t.loc
      ensures wday == GetWeekday(HostWeekday(t.date, t.hour, t.min, t.sec, t.nsec))
      ensures PersianDate(year, month, day) == PersianFromJdn(ToJdn(t.date))
      ensures GetJdn(year, month, day) == ToJdn(t.date)
      ensures IsCycleValid(PersianDate(year, month, day))
    {
      var p, w := DecodeHostTime(t);
      nsec, sec, min, hour := t.nsec, t.sec, t.min, t.hour;
      loc, wday := t.loc, w;
      year, month, day := p.year, p.month, p.day;
    }

    // -------------------------------------------------------------------
    // Conversion and derived fields

    /** `Time()`: the host moment of the record, through the Julian Day
        Number; the host refuses a missing time zone. */
    function ToHostTime(): (t: HostTime)
      requires loc != null
      reads this
      ensures t.date == FromJdn(GetJdn(year, month, day)) && t.loc == loc
      ensures t.hour == hour && t.min == min && t.sec == sec && t.nsec == nsec
      ensures Normalized() && GetJdn(year, month, day) > LastJulianJdn ==>
                IsValidHostTime(t) && IsGregorianEra(t.date) && ToJdn(t.date) == GetJdn(year, month, day)
    {
      var jdn := GetJdn(year, month, day);
      if jdn > LastJulianJdn then GregorianDecodeEncode(jdn); HostTime(FromJdn(jdn), hour, min, sec, nsec, loc)
      else HostTime(FromJdn(jdn), hour, min, sec, nsec, loc)
    }

    /** `YearDay`: the day of the year, counted from 1 on Farvardin 1. */
    function YearDay(): (r: int)
      requires 1 <= month <= 12
      reads this
      ensures r == GetJdn(year, month, day) - GetJdn(year, 1, 1) + 1
      ensures Normalized() ==> 1 <= r <= (if IsLeap(year) then 366 else 365)
    {
      DaysIntoYear(year, month, day);
      PMonthCount[month - 1].daysBefore + day
    }

    /** `RYearDay`: the days left in the year after this one. */
    function RYearDay(): (r: int)
      requires 1 <= month <= 12
      reads this
      ensures Normalized() ==> 0 <= r <= 365
      ensures Normalized() ==> r == GetJdn(year, 12, MonthDays(year, 12)) - GetJdn(year, month, day)
    {
      var y := if IsLeap(year) then 366 else 365;
      y - YearDay()
    }

    /** `RMonthDay`: the days left in the month after this one. */
    function RMonthDay(): (r: int)
      requires 1 <= month <= 12
      reads this
      ensures Normalized() ==> 0 <= r <= 30
      ensures r == GetJdn(year, month, MonthDays(year, month)) - GetJdn(year, month, day)
    {
      var i := if IsLeap(year) then PMonthCount[month - 1].leapDays else PMonthCount[month - 1].days;
      i - day
    }

    /** `MonthWeek`: completed weeks of the month (Go division). */
    function MonthWeek(): (r: int)
      reads this
      ensures day >= 0 ==> 7 * r <= day < 7 * r + 7
      ensures Normalized() ==> 0 <= r <= 4 && (r == 0 <==> day < 7)
    {
      GoDiv(day, 7)
    }

    /** `RMonthWeek`: whole weeks left in the month. */
    function RMonthWeek(): (r: int)
      requires 1 <= month <= 12
      reads this
      ensures RMonthDay() >= 0 ==> 7 * r <= RMonthDay() < 7 * r + 7
      ensures Normalized() ==> 0 <= r <= 4
    {
      GoDiv(RMonthDay(), 7)
    }

    /** `YearWeek`: completed weeks of the year. */
    function YearWeek(): (r: int)
      requires 1 <= month <= 12
      reads this
      ensures YearDay() >= 0 ==> 7 * r <= YearDay() < 7 * r + 7
      ensures Normalized() ==> 0 <= r <= 52
    {
      GoDiv(YearDay(), 7)
    }

    /** `RYearWeek`: whole weeks left in the year. */
    function RYearWeek(): (r: int)
      requires 1 <= month <= 12
      reads this
      ensures RYearDay() >= 0 ==> 7 * r <= RYearDay() < 7 * r + 7
      ensures Normalized() ==> 0 <= r <= 52
    {
      GoDiv(RYearDay(), 7)
    }

    /** `AmPm`: PM strictly after noon, to the second (nanoseconds are ignored). */
    function AmPm(): (m: int)
      reads this
      ensures m == AM || m == PM
      ensures Normalized() ==> (m == PM <==> 3600 * hour + 60 * min + sec > 12 * 3600)
    {
      if hour > 12 || (hour == 12 && (min > 0 || sec > 0)) then PM else AM
    }

    /** `Hour12`: the hour on a 12-hour dial. */
    function Hour12(): (h: int)
      reads this
      ensures 0 <= hour <= 23 ==> 0 <= h <= 11 && h == hour % 12
    {
      if hour >= 12 then hour - 12 else hour
    }
  }

  // ---------------------------------------------------------------------
  // Constructors of the package

  /** `Time(t)`: a new record for a host moment. */
  method FromHostTime(t: HostTime) returns (pt: Time)
    requires IsValidHostTime(t)
    ensures fresh(pt)
    ensures pt.hour == t.hour && pt.min == t.min && pt.sec == t.sec && pt.nsec == t.nsec && pt.loc == t.loc
    ensures PersianDate(pt.year, pt.month, pt.day) == PersianFromJdn(ToJdn(t.date))
    ensures pt.wday == GetWeekday(HostWeekday(t.date, t.hour, t.min, t.sec, t.nsec))
  {
    pt := new Time();
    pt.SetTime(t);
  }

  /** `Date`: a new record set from its fields; a missing time zone panics,
      modelled as a null result. */
  method NewDate(year: int, month: int, day: int, hour: int, min: int, sec: int, nsec: int, loc: Location?)
    returns (t: Time?)
    ensures t == null <==> loc == null
    ensures t != null ==> fresh(t) && t.Normalized()
    ensures t != null ==>
      && t.year == year && t.month == Between(month, 1, 12)
      && t.day == Between(day, 1, MonthDays(year, t.month))
      && t.hour == Between(hour, 0, 23) && t.min == Between(min, 0, 59)
      && t.sec == Between(sec, 0, 59) && t.nsec == Between(nsec, 0, 999999999)
      && t.loc == loc && t.wday == WeekdayOf(year, month, day, hour, min, sec, nsec)
  {
    if loc == null {
      return null;
    }
    t := new Time();
    var panicked := t.Set(year, month, day, hour, min, sec, nsec, loc);
  }
  // ---------------------------------------------------------------------
  // The record and the host calendar

  /** A proleptic Gregorian date is also a valid Julian date: every Gregorian
      leap year is a Julian one. */
  lemma GregorianDateIsJulian(date: Date)
    requires IsValidGregorian(date)
    ensures IsValidJulian(date)
  {
  }

  /** `SetTime` followed by `Time()` gives back the host date, for the dates
      after the reform and for those from -4716-03-01 to 1582-10-04. */
  lemma HostDateRoundTrip(date: Date)
    requires IsValidGregorian(date)
    requires IsGregorianEra(date) || (IsJulianEra(date) && IsAfterJulianEpoch(date))
    ensures var p := PersianFromJdn(ToJdn(date));
            FromJdn(GetJdn(p.year, p.month, p.day)) == date
  {
    PersianDecodeEncode(ToJdn(date));
    if IsGregorianEra(date) {
      GregorianEncodeDecode(date);
    } else {
      GregorianDateIsJulian(date);
      JulianEncodeDecode(date);
    }
  }

  /** The host dates 1582-10-05 to 1582-10-14 go through the Julian formula
      and land on the first Gregorian days: `Time()` answers 1582-10-15 for
      the host date 1582-10-05. */
  lemma ReformGapDate()
    ensures ToJdn(Date(1582, 10, 5)) == ToJdn(Date(1582, 10, 15))
    ensures FromJdn(ToJdn(Date(1582, 10, 5))) == Date(1582, 10, 15)
  {
    assert ToJdn(Date(1582, 10, 5)) == LastJulianJdn + 1 by {
      JulianFormulaByCycle(1574, 2, 8, 5);
    }
    FirstGregorianDay();
  }

  /** `Time()` followed by `SetTime` gives back a date of the cycle, on the
      days from the Julian epoch on whose fields the host keeps. */
  lemma PersianHostRoundTrip(p: PersianDate)
    requires IsCycleValid(p)
    requires var jdn := GetJdn(p.year, p.month, p.day);
             jdn > LastJulianJdn || (jdn >= -1401 && IsValidGregorian(FromJdn(jdn)))
    ensures PersianFromJdn(ToJdn(FromJdn(GetJdn(p.year, p.month, p.day)))) == p
  {
    var jdn := GetJdn(p.year, p.month, p.day);
    if jdn > LastJulianJdn {
      GregorianDecodeEncode(jdn);
    } else {
      JulianDecodeEncode(jdn);
    }
    PersianEncodeDecode(p);
  }

  /** Every date of the cycle after the reform is what `SetTime` stores for
      some host date. */
  lemma SetTimeOnto(p: PersianDate)
    requires IsCycleValid(p) && GetJdn(p.year, p.month, p.day) > LastJulianJdn
    ensures exists date :: IsValidGregorian(date) && PersianFromJdn(ToJdn(date)) == p
  {
    GregorianDecodeEncode(GetJdn(p.year, p.month, p.day));
    PersianEncodeDecode(p);
  }

  /** The fields SetTime takes from a host moment: the Persian date of its
      day number, a date of the cycle that encodes back to that number, and
      its weekday. */
  method DecodeHostTime(t: HostTime) returns (p: PersianDate, w: int)
    ensures p == PersianFromJdn(ToJdn(t.date))
    ensures IsCycleValid(p) && GetJdn(p.year, p.month, p.day) == ToJdn(t.date)
    ensures w == GetWeekday(HostWeekday(t.date, t.hour, t.min, t.sec, t.nsec))
  {
    var jdn := ToJdn(t.date);
    p := PersianFromJdn(jdn);
    PersianDecodeEncode(jdn);
    w := GetWeekday(HostWeekday(t.date, t.hour, t.min, t.sec, t.nsec));
  }

  /** From year 474 on the weekday computed through the corrected encoder is
      the one the source computes through its own truncating encoder. */
  lemma WeekdayOfAsWritten(year: int, month: int, day: int, hour: int, min: int, sec: int, nsec: int)
    requires year >= 474
    ensures WeekdayOf(year, month, day, hour, min, sec, nsec)
            == GetWeekday(HostWeekday(FromJdn(GetJdnAsWritten(year, month, day)), hour, min, sec, nsec))
  {
    GetJdnAgrees(year, month, day);
  }

  /** From year 474 on `Time()` hands the host the date the source's own
      truncating encoder gives. */
  lemma ToHostTimeAsWritten(pt: Time)
    requires pt.loc != null && pt.year >= 474
    ensures pt.ToHostTime().date == FromJdn(GetJdnAsWritten(pt.year, pt.month, pt.day))
  {
    GetJdnAgrees(pt.year, pt.month, pt.day);
  }

  /** The same round trip through the source's own encoder and decoder, for
      the dates of the cycle from year 475 on; before that it fails
      (TruncatedDecoderBeforeEpoch). */
  lemma PersianHostRoundTripAsWritten(p: PersianDate)
    requires IsCycleValid(p) && p.year >= 475
    requires var jdn := GetJdnAsWritten(p.year, p.month, p.day);
             jdn > LastJulianJdn || IsValidGregorian(FromJdn(jdn))
    ensures PersianFromJdnAsWritten(ToJdn(FromJdn(GetJdnAsWritten(p.year, p.month, p.day)))) == p
  {
    GetJdnAgrees(p.year, p.month, p.day);
    CycleDateFromEpoch(p);
    var jdn := GetJdn(p.year, p.month, p.day);
    if jdn > LastJulianJdn {
      GregorianDecodeEncode(jdn);
    } else {
      JulianDecodeEncode(jdn);
    }
    PersianEncodeDecodeAsWritten(p);
  }

  /** Esfand 30 of 1403 is a valid day for the setters (1403 is leap by
      `IsLeap`) but not for the cycle of `getJdn`: through the host it
      becomes Farvardin 1 of 1404. */
  lemma LeapMismatchThroughHost()
    ensures MonthDays(1403, 12) == 30 && !IsCycleValid(PersianDate(1403, 12, 30))
    ensures PersianFromJdn(ToJdn(FromJdn(GetJdn(1403, 12, 30)))) == PersianDate(1404, 1, 1)
  {
    Esfand30Of1403ForSetters();
    Esfand30Of1403OutsideCycle();
    Esfand30Of1403ThroughHost();
  }

  lemma Esfand30Of1403ForSetters()
    ensures MonthDays(1403, 12) == 30
  {
    LeapRulesDisagree();
  }

  lemma Esfand30Of1403OutsideCycle()
    ensures !IsCycleValid(PersianDate(1403, 12, 30))
  {
    LeapRulesDisagree();
  }

  lemma Esfand30Of1403ThroughHost()
    ensures PersianFromJdn(ToJdn(FromJdn(GetJdn(1403, 12, 30)))) == PersianDate(1404, 1, 1)
  {
    LeapRulesDisagree();
    Farvardin1Of1404();
    Farvardin1Of1404Decodes();
    Farvardin1Of1404Encodes();
    Farvardin1Of1404Persian();
  }

  /** Farvardin 1 of 1404 is JDN 2460755 ... */
  lemma Farvardin1Of1404()
    ensures GetJdn(1404, 1, 1) == 2460755
  {
    StartOfBaseInFirstCycle(930);
    GetJdnStart(1404, 1, 1);
  }

  /** ... which the host holds as 2025-03-20 ... */
  lemma Farvardin1Of1404Decodes()
    ensures FromJdn(2460755) == Date(2025, 3, 20)
  {
    GregorianFromJdnBy(2460755, 69, 9150, 25, 19, 1, 20);
  }

  lemma Farvardin1Of1404Encodes()
    ensures ToJdn(Date(2025, 3, 20)) == 2460755
  {
  }

  /** ... and which decodes back to Farvardin 1 of 1404. */
  lemma Farvardin1Of1404Persian()
    ensures PersianFromJdn(2460755) == PersianDate(1404, 1, 1)
  {
    Farvardin1Of1404();
    PersianEncodeDecode(PersianDate(1404, 1, 1));
  }

  /** Esfand 30 of 1404 is a day of the cycle, so `SetTime` can produce it
      (from the host date 2026-03-20), while the setters would clamp it to 29. */
  lemma SetTimeOutsideSetterRange()
    ensures IsCycleValid(PersianDate(1404, 12, 30)) && MonthDays(1404, 12) == 29
    ensures GetJdn(1404, 12, 30) > LastJulianJdn
    ensures PersianFromJdn(GetJdn(1404, 12, 30)) == PersianDate(1404, 12, 30)
  {
    Esfand30Of1404InCycle();
    Esfand30Of1404ForSetters();
    Esfand30Of1404Day();
    PersianEncodeDecode(PersianDate(1404, 12, 30));
  }

  lemma Esfand30Of1404InCycle()
    ensures IsCycleValid(PersianDate(1404, 12, 30))
  {
    LeapRulesDisagree();
  }

  lemma Esfand30Of1404ForSetters()
    ensures MonthDays(1404, 12) == 29
  {
    LeapRulesDisagree();
  }

  /** Esfand 30 of 1404 is JDN 2461120. */
  lemma Esfand30Of1404Day()
    ensures GetJdn(1404, 12, 30) == 2461120
  {
    StartOfBaseInFirstCycle(930);
    GetJdnStart(1404, 12, 30);
  }

  /** The weekday of a host moment after the reform, as a Persian weekday, is
      the day number plus two modulo seven. */
  lemma HostWeekdayGregorian(date: Date, hour: int, min: int, sec: int, nsec: int)
    requires IsGregorianEra(date) && 1 <= date.month <= 12
    requires 0 <= hour <= 23 && 0 <= min <= 59 && 0 <= sec <= 59 && 0 <= nsec <= 999999999
    ensures GetWeekday(HostWeekday(date, hour, min, sec, nsec)) == (ToJdn(date) + 2) % 7
  {
    HostDayCountAgrees(date);
    var n := ToJdn(date);
    assert HostWeekday(date, hour, min, sec, nsec) == (n + 1) % 7;
    WeekdayStep(n);
  }

  /** One more day, one more weekday, modulo seven. */
  lemma WeekdayStep(n: int)
    ensures ((n + 1) % 7 + 1) % 7 == (n + 2) % 7
  {
    var q, r := (n + 1) / 7, (n + 1) % 7;
    assert n + 2 == 7 * q + r + 1;
    if r == 6 {
      assert n + 2 == 7 * (q + 1);
    }
  }

  /** The weekday the record caches for a date after the reform and an
      in-range clock is the day number plus two modulo seven. */
  lemma WeekdayOfGregorian(year: int, month: int, day: int, hour: int, min: int, sec: int, nsec: int)
    requires GetJdn(year, month, day) > LastJulianJdn
    requires 0 <= hour <= 23 && 0 <= min <= 59 && 0 <= sec <= 59 && 0 <= nsec <= 999999999
    ensures WeekdayOf(year, month, day, hour, min, sec, nsec) == (GetJdn(year, month, day) + 2) % 7
  {
    var jdn := GetJdn(year, month, day);
    GregorianDecodeEncode(jdn);
    HostWeekdayGregorian(FromJdn(jdn), hour, min, sec, nsec);
  }

  /** Days of the same month are as far apart in day numbers as in the calendar. */
  lemma GetJdnShift(year: int, month: int, day: int, day2: int)
    ensures GetJdn(year, month, day) - GetJdn(year, month, day2) == day - day2
  {
    GetJdnStart(year, month, day);
    GetJdnStart(year, month, day2);
  }

  /** `Set` caches the weekday of the day before clamping: for a day past the
      end of the month the stored day stops at the last day of the month while
      the weekday runs on by the excess (compare WeekdayOfGregorian on the
      stored day). */
  lemma UnclampedWeekday(year: int, month: int, day: int, hour: int, min: int, sec: int, nsec: int)
    requires 1 <= month <= 12 && day > MonthDays(year, month)
    requires GetJdn(year, month, MonthDays(year, month)) > LastJulianJdn
    requires 0 <= hour <= 23 && 0 <= min <= 59 && 0 <= sec <= 59 && 0 <= nsec <= 999999999
    ensures Between(day, 1, MonthDays(year, month)) == MonthDays(year, month)
    ensures WeekdayOf(year, month, day, hour, min, sec, nsec)
         == (GetJdn(year, month, MonthDays(year, month)) + 2 + (day - MonthDays(year, month))) % 7
  {
    GetJdnShift(year, month, day, MonthDays(year, month));
    WeekdayOfGregorian(year, month, day, hour, min, sec, nsec);
  }

  /** Before the reform the cached weekday is not the weekday of the day: the
      record of JDN 2299160 holds the Julian fields 1582-10-04 (LastJulianDay),
      a Thursday, and the host reads them as the Gregorian 1582-10-04, a Monday. */
  lemma JulianEraWeekday()
    ensures GetWeekday(HostWeekday(Date(1582, 10, 4), 0, 0, 0, 0)) == Doshanbe
    ensures (LastJulianJdn + 2) % 7 == Panjshanbe
  {
  }

  /** `pt.SetTime(pt.Time())` leaves a date of the cycle after the reform, and
      the clock, as they were. */
  method TimeThenSetTime(pt: Time)
    requires pt.loc != null && pt.Normalized()
    requires IsCycleValid(PersianDate(pt.year, pt.month, pt.day))
    requires GetJdn(pt.year, pt.month, pt.day) > LastJulianJdn
    modifies pt
    ensures pt.year == old(pt.year) && pt.month == old(pt.month) && pt.day == old(pt.day)
    ensures pt.hour == old(pt.hour) && pt.min == old(pt.min) && pt.sec == old(pt.sec)
    ensures pt.nsec == old(pt.nsec) && pt.loc == old(pt.loc)
  {
    var t := pt.ToHostTime();
    PersianHostRoundTrip(PersianDate(pt.year, pt.month, pt.day));
    pt.SetTime(t);
  }

  /** After `SetTime` from a host moment after the reform the cached weekday is
      the weekday of the stored Persian date. */
  method SetTimeCachesWeekday(pt: Time, t: HostTime)
    requires IsGregorianEra(t.date) && 1 <= t.date.month <= 12
    requires 0 <= t.hour <= 23 && 0 <= t.min <= 59 && 0 <= t.sec <= 59 && 0 <= t.nsec <= 999999999
    modifies pt
    ensures pt.wday == (GetJdn(pt.year, pt.month, pt.day) + 2) % 7
  {
    HostWeekdayGregorian(t.date, t.hour, t.min, t.sec, t.nsec);
    pt.SetTime(t);
  }

  /** `SetTime(t)` then `Time()` gives back the host moment t, outside the ten
      days of the reform gap and from the Julian epoch on. */
  method SetTimeThenTime(pt: Time, t: HostTime)
    requires IsValidHostTime(t)
    requires IsGregorianEra(t.date) || (IsJulianEra(t.date) && IsAfterJulianEpoch(t.date))
    modifies pt
    ensures pt.loc != null && pt.ToHostTime() == t
  {
    HostDateRoundTrip(t.date);
    pt.SetTime(t);
  }

  /** `SetMinute(75)` saturates at 59 and carries nothing into the hour. */
  method SetMinuteSaturates(pt: Time)
    modifies pt
    ensures pt.min == 59 && pt.hour == old(pt.hour)
  {
    pt.SetMinute(75);
  }

  /** Esfand 30 of the leap year 1403 becomes Esfand 29 when the year is set
      to 1404, which is not leap. */
  method SetYearClampsEsfand(pt: Time)
    requires pt.year == 1403 && pt.month == 12 && pt.day == 30 && pt.loc != null
    modifies pt
    ensures pt.year == 1404 && pt.month == 12 && pt.day == 29
  {
    LeapRulesDisagree();
    pt.SetYear(1404);
  }
}
