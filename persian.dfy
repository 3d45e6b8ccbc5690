/** The Persian (Solar Hijri) side of the JDN engine: the leap rule used for
    clamping, the month table, the 2820-year-cycle encoder getJdn and the
    decoder of SetTime.

    The encoder and the decoder are given twice.  The "as written" versions
    use Go's truncating division exactly as the code does; the corrected
    versions use floor division throughout, which is what the 2820-year
    cycle arithmetic needs for day numbers before Persian 475-01-01.  The
    rest of the model uses the corrected versions.
 */
module JdnPersian {
  import opened GoArith

  /** A Persian date; there is no year 0 (year -1 is followed by year 1). */
  datatype PersianDate = PersianDate(year: int, month: int, day: int)

  // ---------------------------------------------------------------------
  // Leap rule of the clamping code (33-year rule)

  /** `divider`: the non-negative remainder of num by den, except that 0 gives
      den rather than 0 (when den > 1). */
  function Divider(num: int, den: int): (r: int)
    requires den > 0
    ensures num != 0 ==> r == num % den
    ensures num == 0 ==> r == (if den > 1 then den else 0)
  {
    DividerIsFloorMod(num, den);
    if num > 0 then GoMod(num, den)
    else num - (GoDiv(num + 1, den) - 1) * den
  }

  lemma DividerIsFloorMod(num: int, den: int)
    requires den > 0
    ensures num > 0 ==> GoMod(num, den) == num % den
    ensures num < 0 ==> num - (GoDiv(num + 1, den) - 1) * den == num % den
  {
    if num > 0 {
      GoDivNonNegative(num, den);
    } else if num < 0 {
      var a := -num - 1;
      var q := a / den;
      assert GoDiv(num + 1, den) == -q;
      var r := num - (-q - 1) * den;
      assert r == den - 1 - a % den;
      assert num == den * (-q - 1) + r;
      DivModUnique(num, den, -q - 1, r);
    }
  }

  /** Euclidean quotient and remainder are unique. */
  lemma DivModUnique(a: int, b: int, q: int, r: int)
    requires b > 0 && a == b * q + r && 0 <= r < b
    ensures a / b == q && a % b == r
  {
    var t := q - a / b;
    assert b * t == a % b - r;
  }

  /** `IsLeap`: the 33-year rule. */
  function IsLeap(year: int): (leap: bool)
    ensures leap <==> (25 * year + 11) % 33 < 8
  {
    DividerOfLeapNumber(year);
    Divider(25 * year + 11, 33) < 8
  }

  /** 25 * year + 11 is never 0, so the leap rule reads the floor remainder. */
  lemma DividerOfLeapNumber(year: int)
    ensures Divider(25 * year + 11, 33) == (25 * year + 11) % 33
  {
    var num := 25 * year + 11;
    if num <= 0 {
      var a := -num - 1;
      assert GoDiv(num + 1, 33) == -(a / 33);
      assert num - (GoDiv(num + 1, 33) - 1) * 33 == 32 - a % 33;
    }
  }

  /** The 33-year rule repeats every 33 years. */
  lemma LeapPeriodic(year: int)
    ensures IsLeap(year + 33) == IsLeap(year)
  {
    var a := 25 * year + 11;
    assert 25 * (year + 33) + 11 == a + 825;
    assert (a + 825) % 33 == a % 33 by {
      DivModUnique(a + 825, 33, a / 33 + 25, a % 33);
    }
  }

  // ---------------------------------------------------------------------
  // Month table

  /** A row of `p_month_count`: days, days in a leap year, days before the month. */
  datatype MonthCount = MonthCount(days: int, leapDays: int, daysBefore: int)

  const PMonthCount: seq<MonthCount> := [
    MonthCount(31, 31, 0), MonthCount(31, 31, 31), MonthCount(31, 31, 62),
    MonthCount(31, 31, 93), MonthCount(31, 31, 124), MonthCount(31, 31, 155),
    MonthCount(30, 30, 186), MonthCount(30, 30, 216), MonthCount(30, 30, 246),
    MonthCount(30, 30, 276), MonthCount(30, 30, 306), MonthCount(29, 30, 336)
  ]

  /** Days before each month are the running sum of the month lengths, which
      add up to 365 (366 in a leap year); only Esfand grows in a leap year. */
  lemma MonthTableSums()
    ensures |PMonthCount| == 12
    ensures PMonthCount[0].daysBefore == 0
    ensures forall m :: 1 <= m < 12 ==>
              PMonthCount[m].daysBefore == PMonthCount[m - 1].daysBefore + PMonthCount[m - 1].days
    ensures PMonthCount[11].daysBefore + PMonthCount[11].days == 365
    ensures PMonthCount[11].daysBefore + PMonthCount[11].leapDays == 366
    ensures forall m :: 0 <= m < 11 ==> PMonthCount[m].leapDays == PMonthCount[m].days
  {
  }

  /** The length of a month as the clamping code reads it from the table. */
  function MonthDays(year: int, month: int): (n: int)
    requires 1 <= month <= 12
    ensures month <= 6 ==> n == 31
    ensures 7 <= month <= 11 ==> n == 30
    ensures month == 12 ==> (n == 30 <==> IsLeap(year)) && 29 <= n <= 30
  {
    if IsLeap(year) then PMonthCount[month - 1].leapDays else PMonthCount[month - 1].days
  }

  // ---------------------------------------------------------------------
  // Shared pieces of encoder and decoder

  /** Days of the year before the first of `month`, as getJdn computes them. */
  function MonthOffset(month: int): (md: int)
    ensures 1 <= month <= 12 ==> md == PMonthCount[month - 1].daysBefore
  {
    if month <= 7 then (month - 1) * 31 else (month - 1) * 30 + 6
  }

  /** The ceiling of a / b for b > 0 (`math.Ceil` of the exact quotient). */
  function CeilDiv(a: int, b: int): (q: int)
    requires b > 0
    ensures b * (q - 1) < a <= b * q
  {
    -((-a) / b)
  }

  /** The month containing day `dy` (1-based) of the year, as SetTime finds it. */
  function MonthOfYearDay(dy: int): int {
    if dy <= 186 then CeilDiv(dy, 31) else CeilDiv(dy - 6, 30)
  }

  // ---------------------------------------------------------------------
  // As written: Go's truncating division

  /** `getJdn` exactly as written. */
  function GetJdnAsWritten(year: int, month: int, day: int): int {
    var base := if year >= 0 then year - 474 else year - 473;
    var epy := 474 + GoMod(base, 2820);
    day + MonthOffset(month) + GoDiv(epy * 682 - 110, 2816) + (epy - 1) * 365
      + GoDiv(base, 2820) * 1029983 + 1948320
  }

  /** The year within its 2820-year cycle (1..2820) of the day `rem` of the
      cycle, as written. */
  function YearInCycleAsWritten(rem: int): int {
    if rem == 1029982 then 2820
    else
      var a := GoDiv(rem, 366);
      GoDiv(2134 * a + 2816 * GoMod(rem, 366) + 2815, 1028522) + a + 1
  }

  /** The first half of the Persian decoding block of SetTime as written:
      the year of day `jdn`, through its 2820-year cycle. */
  function DecodedYearAsWritten(jdn: int): int {
    var dep := jdn - Epoch;
    YearOfCycle(GoDiv(dep, 1029983), YearInCycleAsWritten(GoMod(dep, 1029983)))
  }

  /** `getJdn(475, 1, 1)`, the first day of the 2820-year cycle the decoder
      counts from (EpochDay shows the value). */
  const Epoch: int := 2121446

  /** The epoch constant is getJdn's Farvardin 1 of 475 ... */
  lemma EpochDay()
    ensures GetJdnAsWritten(475, 1, 1) == Epoch
  {
  }

  /** ... in the corrected version too. */
  lemma EpochDayCorrected()
    ensures GetJdn(475, 1, 1) == Epoch
  {
  }

  /** The year of year `ycyc` of cycle `cyc`, skipping year 0. */
  function YearOfCycle(cyc: int, ycyc: int): int {
    var year0 := ycyc + 2820 * cyc + 474;
    if year0 <= 0 then year0 - 1 else year0
  }

  /** The second half as written: month and day of day `jdn` in `year`. */
  function DateInYearAsWritten(jdn: int, year: int): PersianDate {
    var dy := jdn - GetJdnAsWritten(year, 1, 1) + 1;
    var month := MonthOfYearDay(dy);
    var day := jdn - GetJdnAsWritten(year, month, 1) + 1;
    PersianDate(year, month, day)
  }

  /** The Persian decoding block of SetTime exactly as written. */
  function PersianFromJdnAsWritten(jdn: int): PersianDate {
    DateInYearAsWritten(jdn, DecodedYearAsWritten(jdn))
  }

  // ---------------------------------------------------------------------
  // Corrected: floor division

  /** The cycle base of a year: years 474 (base 0) onwards count up from 0,
      and year -1 is base -474, right before year 1 (base -473). */
  function BaseOf(year: int): int {
    if year >= 0 then year - 474 else year - 473
  }

  /** The year of a cycle base, skipping year 0: the only non-zero year with
      that base. */
  function YearOfBase(base: int): (year: int)
    ensures year != 0 && BaseOf(year) == base
    ensures forall y :: y != 0 && BaseOf(y) == base ==> y == year
  {
    if base + 474 <= 0 then base + 473 else base + 474
  }

  /** The first day of the year of cycle base `base`, in closed form over the
      position r of the year in its 2820-year cycle. */
  function StartOfBase(base: int): int {
    var r := base % 2820;
    2121080 + 365 * r + (682 * r + 2134) / 2816 + 1029983 * (base / 2820)
  }

  /** `getJdn` with floor division. */
  function GetJdn(year: int, month: int, day: int): int {
    var base := BaseOf(year);
    var epy := 474 + base % 2820;
    day + MonthOffset(month) + (epy * 682 - 110) / 2816 + (epy - 1) * 365
      + base / 2820 * 1029983 + 1948320
  }

  /** getJdn counts the days of the months before `month` and the days of
      `month` from the first day of the year. */
  lemma GetJdnStart(year: int, month: int, day: int)
    ensures GetJdn(year, month, day) == StartOfBase(BaseOf(year)) + MonthOffset(month) + day - 1
  {
    var base := BaseOf(year);
    var epy := 474 + base % 2820;
    assert (epy * 682 - 110) / 2816 == 114 + (682 * (base % 2820) + 2134) / 2816;
  }

  /** The year within its 2820-year cycle with floor division. */
  function YearInCycle(rem: int): int {
    if rem == 1029982 then 2820
    else
      var a := rem / 366;
      (2134 * a + 2816 * (rem % 366) + 2815) / 1028522 + a + 1
  }

  /** The year of day `jdn` with floor division. */
  function DecodedYear(jdn: int): int {
    var dep := jdn - Epoch;
    YearOfCycle(dep / 1029983, YearInCycle(dep % 1029983))
  }

  /** Month and day of day `jdn` in `year`. */
  function DateInYear(jdn: int, year: int): PersianDate {
    var dy := jdn - GetJdn(year, 1, 1) + 1;
    var month := MonthOfYearDay(dy);
    var day := jdn - GetJdn(year, month, 1) + 1;
    PersianDate(year, month, day)
  }

  /** The Persian decoding block of SetTime with floor division. */
  function PersianFromJdn(jdn: int): PersianDate {
    DateInYear(jdn, DecodedYear(jdn))
  }

  // ---------------------------------------------------------------------
  // Year lengths of the 2820-year cycle

  /** The year after `year`, skipping year 0. */
  function NextYear(year: int): (next: int)
    ensures BaseOf(next) == BaseOf(year) + 1
  {
    if year == -1 then 1 else year + 1
  }

  /** Consecutive years start 365 or 366 days apart. */
  lemma StartOfBaseStep(base: int)
    ensures StartOfBase(base + 1) - StartOfBase(base) in {365, 366}
  {
    var r := base % 2820;
    if r < 2819 {
      assert (base + 1) % 2820 == r + 1 && (base + 1) / 2820 == base / 2820;
    } else {
      assert (base + 1) % 2820 == 0 && (base + 1) / 2820 == base / 2820 + 1;
    }
  }

  /** Years start in increasing order. */
  lemma {:induction false} StartOfBaseMonotone(b: int, c: int)
    requires b < c
    ensures StartOfBase(b + 1) <= StartOfBase(c)
    decreases c - b
  {
    if b + 1 < c {
      StartOfBaseMonotone(b, c - 1);
      StartOfBaseStep(c - 1);
    }
  }

  /** A day lies in the year of only one base. */
  lemma StartOfBaseUnique(b: int, c: int, jdn: int)
    requires StartOfBase(b) <= jdn < StartOfBase(b + 1)
    requires StartOfBase(c) <= jdn < StartOfBase(c + 1)
    ensures b == c
  {
    if b < c {
      StartOfBaseMonotone(b, c);
    } else if c < b {
      StartOfBaseMonotone(c, b);
    }
  }

  /** The number of days of a Persian year under getJdn's 2820-year cycle. */
  function YearLength(year: int): (n: int)
    ensures n == 365 || n == 366
  {
    StartOfBaseStep(BaseOf(year));
    StartOfBase(BaseOf(year) + 1) - StartOfBase(BaseOf(year))
  }

  /** The year length is the distance from Farvardin 1 to Farvardin 1 of the next year. */
  lemma YearLengthSpan(year: int)
    ensures YearLength(year) == GetJdn(NextYear(year), 1, 1) - GetJdn(year, 1, 1)
  {
    GetJdnStart(year, 1, 1);
    GetJdnStart(NextYear(year), 1, 1);
  }

  /** Days in a month of a year of length `len`: 31 for the first six, 30 for
      the next five, the rest of the year for Esfand. */
  function MonthLengthIn(month: int, len: int): int {
    if month <= 6 then 31 else if month <= 11 then 30 else len - 336
  }

  /** The length of a month under getJdn's cycle: the distance from its first
      day to the first day of the next month. */
  function CycleMonthDays(year: int, month: int): (n: int)
    requires 1 <= month <= 12
    ensures 29 <= n <= 31
  {
    MonthLengthIn(month, YearLength(year))
  }

  /** The month length of the cycle is the distance from the first of the
      month to the first of the next month. */
  lemma CycleMonthDaysSpan(year: int, month: int)
    requires 1 <= month <= 12
    ensures month < 12 ==> CycleMonthDays(year, month) == GetJdn(year, month + 1, 1) - GetJdn(year, month, 1)
    ensures month == 12 ==> CycleMonthDays(year, month) == GetJdn(NextYear(year), 1, 1) - GetJdn(year, 12, 1)
  {
    GetJdnStart(year, month, 1);
    GetJdnStart(year, month + 1, 1);
    GetJdnStart(NextYear(year), 1, 1);
  }

  /** A Persian date that getJdn's cycle admits. */
  predicate IsCycleValid(date: PersianDate) {
    date.year != 0 && 1 <= date.month <= 12 && 1 <= date.day <= CycleMonthDays(date.year, date.month)
  }

  // ---------------------------------------------------------------------
  // Decoding a day of the year

  /** The month SetTime finds for day dy of a year of length len, and the day
      of that month. */
  lemma MonthOfDay(dy: int, len: int)
    requires len == 365 || len == 366
    requires 1 <= dy <= len
    ensures var m := MonthOfYearDay(dy);
            1 <= m <= 12 && 1 <= dy - MonthOffset(m) <= MonthLengthIn(m, len)
  {
  }

  /** The converse: the day of the year of a month and day leads back to them. */
  lemma MonthOfDayOf(m: int, d: int, len: int)
    requires len == 365 || len == 366
    requires 1 <= m <= 12 && 1 <= d <= MonthLengthIn(m, len)
    ensures 1 <= MonthOffset(m) + d <= len
    ensures MonthOfYearDay(MonthOffset(m) + d) == m
  {
  }

  // ---------------------------------------------------------------------
  // Decoding the year

  /** The first day of the k-th year of a cycle, counted from the cycle's first day. */
  function CycleDay(k: int): int {
    365 * k - 366 + (682 * k + 2134) / 2816
  }

  /** Year k of the cycle has started by day rem exactly when this linear test holds. */
  lemma CycleDayBelow(k: int, rem: int)
    ensures CycleDay(k) <= rem <==> 1028522 * k <= 2816 * rem + 1031337
  {
    var f := (682 * k + 2134) / 2816;
    assert 2816 * f <= 682 * k + 2134 < 2816 * f + 2816;
  }

  /** YearInCycle finds the year of the cycle in which day rem falls. */
  lemma YearInCycleBounds(rem: int)
    requires 0 <= rem <= 1029982
    ensures var k := YearInCycle(rem);
            && 1 <= k <= 2820
            && CycleDay(k) <= rem
            && (k < 2820 ==> rem < CycleDay(k + 1))
  {
    if rem != 1029982 {
      var a := rem / 366;
      var b := rem % 366;
      var x := 2816 * rem + 1031337;
      var k := x / 1028522;
      assert 2134 * a + 2816 * b + 2815 == x - 1028522 * (a + 1);
      assert YearInCycle(rem) == k;
      CycleDayBelow(k, rem);
      CycleDayBelow(k + 1, rem);
    }
  }

  /** The first day of year k of cycle cyc, and of the year after. */
  lemma StartInCycle(cyc: int, k: int)
    requires 1 <= k <= 2820
    ensures StartOfBase(2820 * cyc + k) == 2121446 + 1029983 * cyc + CycleDay(k)
    ensures StartOfBase(2820 * cyc + k + 1)
         == 2121446 + 1029983 * cyc + (if k < 2820 then CycleDay(k + 1) else 1029983)
  {
    var b := 2820 * cyc + k;
    if k < 2820 {
      assert b % 2820 == k && b / 2820 == cyc;
    } else {
      assert b % 2820 == 0 && b / 2820 == cyc + 1;
    }
    if k < 2819 {
      assert (b + 1) % 2820 == k + 1 && (b + 1) / 2820 == cyc;
    } else if k == 2819 {
      assert (b + 1) % 2820 == 0 && (b + 1) / 2820 == cyc + 1;
    } else {
      assert (b + 1) % 2820 == 1 && (b + 1) / 2820 == cyc + 1;
    }
  }

  /** PersianFromJdn finds the base of the year in which jdn falls. */
  lemma PersianFromJdnBase(jdn: int) returns (base: int)
    ensures StartOfBase(base) <= jdn < StartOfBase(base + 1)
    ensures var p := PersianFromJdn(jdn);
            && p.year == YearOfBase(base)
            && p.month == MonthOfYearDay(jdn - StartOfBase(base) + 1)
            && p.day == jdn - StartOfBase(base) + 1 - MonthOffset(p.month)
  {
    var cyc := (jdn - Epoch) / 1029983;
    var rem := (jdn - Epoch) % 1029983;
    var k := YearInCycle(rem);
    base := 2820 * cyc + k;
    assert StartOfBase(base) <= jdn < StartOfBase(base + 1) by {
      YearInCycleBounds(rem);
      StartInCycle(cyc, k);
    }
    PersianFromJdnYear(jdn, cyc, k);
  }

  /** PersianFromJdn once the cycle and the year in the cycle are known. */
  lemma PersianFromJdnYear(jdn: int, cyc: int, k: int)
    requires cyc == (jdn - Epoch) / 1029983 && k == YearInCycle((jdn - Epoch) % 1029983)
    ensures var p := PersianFromJdn(jdn);
            var base := 2820 * cyc + k;
            && p.year == YearOfBase(base)
            && p.month == MonthOfYearDay(jdn - StartOfBase(base) + 1)
            && p.day == jdn - StartOfBase(base) + 1 - MonthOffset(p.month)
  {
    var year := YearOfBase(2820 * cyc + k);
    assert DecodedYear(jdn) == YearOfCycle(cyc, k) == year;
    DateInYearBy(jdn, year);
  }

  /** DateInYear in terms of the first day of the year. */
  lemma DateInYearBy(jdn: int, year: int)
    ensures var p := DateInYear(jdn, year);
            var start := StartOfBase(BaseOf(year));
            && p.year == year
            && p.month == MonthOfYearDay(jdn - start + 1)
            && p.day == jdn - start + 1 - MonthOffset(p.month)
  {
    var start := StartOfBase(BaseOf(year));
    assert GetJdn(year, 1, 1) == start by {
      GetJdnStart(year, 1, 1);
    }
    var month := MonthOfYearDay(jdn - start + 1);
    assert GetJdn(year, month, 1) == start + MonthOffset(month) by {
      GetJdnStart(year, month, 1);
    }
  }

  // ---------------------------------------------------------------------
  // Round trips

  /** Every day number decodes to a date that getJdn's cycle admits and that
      getJdn encodes back to the same day number. */
  lemma PersianDecodeEncode(jdn: int)
    ensures var p := PersianFromJdn(jdn);
            IsCycleValid(p) && GetJdn(p.year, p.month, p.day) == jdn
  {
    var base := PersianFromJdnBase(jdn);
    DateOfBaseEncodes(jdn, base, PersianFromJdn(jdn));
  }

  /** The date PersianFromJdnBase describes is admitted by the cycle and
      encodes back to jdn. */
  lemma DateOfBaseEncodes(jdn: int, base: int, p: PersianDate)
    requires StartOfBase(base) <= jdn < StartOfBase(base + 1)
    requires p.year == YearOfBase(base)
    requires p.month == MonthOfYearDay(jdn - StartOfBase(base) + 1)
    requires p.day == jdn - StartOfBase(base) + 1 - MonthOffset(p.month)
    ensures IsCycleValid(p) && GetJdn(p.year, p.month, p.day) == jdn
  {
    var len := StartOfBase(base + 1) - StartOfBase(base);
    StartOfBaseStep(base);
    MonthOfDay(jdn - StartOfBase(base) + 1, len);
    GetJdnStart(p.year, p.month, p.day);
  }

  /** Every date that getJdn's cycle admits is found again from its day number. */
  lemma PersianEncodeDecode(date: PersianDate)
    requires IsCycleValid(date)
    ensures PersianFromJdn(GetJdn(date.year, date.month, date.day)) == date
  {
    var jdn := GetJdn(date.year, date.month, date.day);
    var b := BaseOf(date.year);
    var len := YearLength(date.year);
    MonthOfDayOf(date.month, date.day, len);
    GetJdnStart(date.year, date.month, date.day);
    var base := PersianFromJdnBase(jdn);
    StartOfBaseUnique(b, base, jdn);
  }

  /** getJdn misses no day: every day number is the encoding of some date of
      the cycle. */
  lemma GetJdnOnto(jdn: int)
    ensures exists date :: IsCycleValid(date) && GetJdn(date.year, date.month, date.day) == jdn
  {
    PersianDecodeEncode(jdn);
  }

  // ---------------------------------------------------------------------
  // As written against corrected

  /** From year 474 on the truncating encoder agrees with the corrected one. */
  lemma GetJdnAgrees(year: int, month: int, day: int)
    ensures year >= 474 ==> GetJdnAsWritten(year, month, day) == GetJdn(year, month, day)
  {
    if year >= 474 {
      var base := year - 474;
      GoDivNonNegative(base, 2820);
      var epy := 474 + base % 2820;
      GoDivNonNegative(epy * 682 - 110, 2816);
    }
  }

  /** On a non-negative day of the cycle both ways of finding the year agree. */
  lemma YearInCycleAgrees(rem: int)
    requires rem >= 0
    ensures YearInCycleAsWritten(rem) == YearInCycle(rem)
  {
    GoDivNonNegative(rem, 366);
    var a := rem / 366;
    GoDivNonNegative(2134 * a + 2816 * (rem % 366) + 2815, 1028522);
  }

  /** From Persian 475-01-01 (JDN 2121446) on the truncating decoder agrees
      with the corrected one. */
  lemma PersianFromJdnAgrees(jdn: int)
    requires jdn >= 2121446
    ensures PersianFromJdnAsWritten(jdn) == PersianFromJdn(jdn)
  {
    DecodedYearAgrees(jdn);
    DecodedYearFrom475(jdn);
    DateInYearAgrees(jdn, DecodedYear(jdn));
  }

  /** From JDN 2121446 on both decoders find the same year. */
  lemma DecodedYearAgrees(jdn: int)
    requires jdn >= 2121446
    ensures DecodedYearAsWritten(jdn) == DecodedYear(jdn)
  {
    var dep := jdn - 2121446;
    GoDivNonNegative(dep, 1029983);
    YearInCycleAgrees(dep % 1029983);
  }

  /** From JDN 2121446 on the decoded year is 475 or later. */
  lemma DecodedYearFrom475(jdn: int)
    requires jdn >= 2121446
    ensures DecodedYear(jdn) >= 475
  {
    YearInCycleBounds((jdn - 2121446) % 1029983);
  }

  /** From year 474 on both decoders find the same month and day. */
  lemma DateInYearAgrees(jdn: int, year: int)
    requires year >= 474
    ensures DateInYearAsWritten(jdn, year) == DateInYear(jdn, year)
  {
    GetJdnAgrees(year, 1, 1);
    var month := MonthOfYearDay(jdn - GetJdn(year, 1, 1) + 1);
    GetJdnAgrees(year, month, 1);
  }

  /** As written, the decoder's date encodes back to the day number it came
      from, on every day number (the day is counted from getJdn's own first
      of the month); from the epoch on the date is one of the cycle. */
  lemma PersianDecodeEncodeAsWritten(jdn: int)
    ensures var p := PersianFromJdnAsWritten(jdn);
            GetJdnAsWritten(p.year, p.month, p.day) == jdn
    ensures jdn >= Epoch ==> IsCycleValid(PersianFromJdnAsWritten(jdn))
  {
    var p := PersianFromJdnAsWritten(jdn);
    GetJdnAsWrittenFromNowruz(p.year, p.month, p.day);
    GetJdnAsWrittenFromNowruz(p.year, p.month, 1);
    if jdn >= Epoch {
      PersianFromJdnAgrees(jdn);
      PersianDecodeEncode(jdn);
    }
  }

  /** A date of the cycle is from year 475 on exactly when its day number is
      from the epoch on. */
  lemma CycleDateFromEpoch(date: PersianDate)
    requires IsCycleValid(date)
    ensures date.year >= 475 <==> GetJdn(date.year, date.month, date.day) >= Epoch
  {
    var b := BaseOf(date.year);
    MonthOfDayOf(date.month, date.day, YearLength(date.year));
    GetJdnStart(date.year, date.month, date.day);
    assert StartOfBase(1) == Epoch;
    if b > 1 {
      StartOfBaseMonotone(0, b);
    } else if b < 0 {
      StartOfBaseMonotone(b, 1);
    }
  }

  /** As written, every date of the cycle from year 475 on is found again from
      its day number.  The bound cannot be lowered: the last days of 474 come
      back in a month 0 (TruncatedDecoderBeforeEpoch). */
  lemma PersianEncodeDecodeAsWritten(date: PersianDate)
    requires IsCycleValid(date) && date.year >= 475
    ensures PersianFromJdnAsWritten(GetJdnAsWritten(date.year, date.month, date.day)) == date
  {
    GetJdnAgrees(date.year, date.month, date.day);
    CycleDateFromEpoch(date);
    PersianFromJdnAgrees(GetJdn(date.year, date.month, date.day));
    PersianEncodeDecode(date);
  }

  /** The truncating encoder also counts the days of the year from its
      Farvardin 1. */
  lemma GetJdnAsWrittenFromNowruz(year: int, month: int, day: int)
    ensures GetJdnAsWritten(year, month, day) == GetJdnAsWritten(year, 1, 1) + MonthOffset(month) + day - 1
  {
  }

  /** On the last 365 days before Persian 475-01-01 the truncating decoder
      picks the first year of the cycle. */
  lemma YearInCycleAsWrittenBeforeEpoch(rem: int)
    requires -366 < rem < 0
    ensures YearInCycleAsWritten(rem) == 1
  {
    assert GoDiv(rem, 366) == 0;
    assert GoMod(rem, 366) == rem;
    assert GoDiv(2816 * rem + 2815, 1028522) == 0;
  }

  /** In the 365 days before Persian 475-01-01 the truncating decoder finds year 475 ... */
  lemma DecodedYearAsWrittenBeforeEpoch(jdn: int)
    requires Epoch - 365 <= jdn < Epoch
    ensures DecodedYearAsWritten(jdn) == 475
  {
    var dep := jdn - Epoch;
    assert GoDiv(dep, 1029983) == 0 && GoMod(dep, 1029983) == dep;
    YearInCycleAsWrittenBeforeEpoch(dep);
  }

  /** ... and counts back from its Farvardin 1 into a month 0 ... */
  lemma DateInYearAsWrittenBeforeEpoch(jdn: int)
    requires 2121415 <= jdn < 2121446
    ensures DateInYearAsWritten(jdn, 475) == PersianDate(475, 0, jdn - 2121414)
  {
    EpochDay();
    assert MonthOfYearDay(jdn - Epoch + 1) == 0;
    DateInYearAsWrittenBy(jdn, 475, Epoch);
  }

  /** DateInYearAsWritten in terms of the first day `start` of the year. */
  lemma DateInYearAsWrittenBy(jdn: int, year: int, start: int)
    requires GetJdnAsWritten(year, 1, 1) == start
    ensures var p := DateInYearAsWritten(jdn, year);
            && p.year == year
            && p.month == MonthOfYearDay(jdn - start + 1)
            && p.day == jdn - start + 1 - MonthOffset(p.month)
  {
    GetJdnAsWrittenFromNowruz(year, MonthOfYearDay(jdn - start + 1), 1);
  }

  /** ... so these days come out in a month 0 of year 475 ... */
  lemma TruncatedDecoderBeforeEpoch(jdn: int)
    requires 2121415 <= jdn < 2121446
    ensures PersianFromJdnAsWritten(jdn) == PersianDate(475, 0, jdn - 2121414)
    ensures !IsCycleValid(PersianFromJdnAsWritten(jdn))
  {
    DecodedYearAsWrittenBeforeEpoch(jdn);
    DateInYearAsWrittenBeforeEpoch(jdn);
  }

  /** ... and over the whole year before the epoch it finds year 475 and a
      month 0 or below, which no calendar has ... */
  lemma TruncatedDecoderYearBeforeEpoch(jdn: int)
    requires Epoch - 365 <= jdn < Epoch
    ensures var p := PersianFromJdnAsWritten(jdn);
            p.year == 475 && p.month <= 0 && !IsCycleValid(p)
  {
    DecodedYearAsWrittenBeforeEpoch(jdn);
    EpochDay();
    DateInYearAsWrittenBy(jdn, 475, Epoch);
  }

  /** ... so 300 days before it the decoder reads day 11 of month -9 ... */
  lemma TruncatedDecoderMonthMinusNine()
    ensures PersianFromJdnAsWritten(2121146) == PersianDate(475, -9, 11)
  {
    DecodedYearAsWrittenBeforeEpoch(2121146);
    EpochDay();
    DateInYearAsWrittenBy(2121146, 475, Epoch);
    assert MonthOfYearDay(-299) == -9;
  }

  /** ... for instance the day before it is day 31 of month 0 ... */
  lemma TruncatedDecoderCounterexample()
    ensures PersianFromJdnAsWritten(2121445) == PersianDate(475, 0, 31)
  {
    TruncatedDecoderBeforeEpoch(2121445);
  }

  /** ... where the corrected decoder gives Persian 474-12-30. */
  lemma CorrectedDecoderAtCounterexample()
    ensures PersianFromJdn(2121445) == PersianDate(474, 12, 30)
    ensures IsCycleValid(PersianFromJdn(2121445))
  {
    assert StartOfBase(0) == 2121080 && StartOfBase(1) == 2121446;
    assert YearLength(474) == 366;
    assert GetJdn(474, 12, 30) == 2121445;
    PersianEncodeDecode(PersianDate(474, 12, 30));
  }

  /** Before year 474 the truncating encoder departs from the cycle: it puts
      Persian 314-01-01 one day later than the corrected encoder does. */
  lemma TruncatedEncoderDeparts()
    ensures GetJdnAsWritten(314, 1, 1) == 2062642
    ensures GetJdn(314, 1, 1) == 2062641
  {
  }

  /** ... and for year -9 by two days ... */
  lemma TruncatedEncoderDepartsTwoDays()
    ensures GetJdnAsWritten(-9, 1, 1) == 1945035
    ensures GetJdn(-9, 1, 1) == 1945033
  {
    assert GoDiv(-482, 2820) == 0 && GoMod(-482, 2820) == -482;
    assert GoDiv(-5566, 2816) == -1;
  }

  /** ... which is as far as it goes: the truncating encoder is never
      earlier than the corrected one and never more than two days later. */
  lemma TruncatedEncoderDeparture(year: int, month: int, day: int)
    ensures 0 <= GetJdnAsWritten(year, month, day) - GetJdn(year, month, day) <= 2
  {
    var base := BaseOf(year);
    var q, r := base / 2820, base % 2820;
    if base >= 0 || r == 0 {
      assert GoDiv(base, 2820) == q && GoMod(base, 2820) == r;
      GoDivNonNegative((474 + r) * 682 - 110, 2816);
    } else {
      assert GoDiv(base, 2820) == q + 1 && GoMod(base, 2820) == r - 2820;
      var x := (474 + r) * 682 - 110;
      var y := x - 2820 * 682;
      assert 682 <= x / 2816 - y / 2816 <= 683;
      if y >= 0 {
        GoDivNonNegative(y, 2816);
      } else {
        assert y / 2816 <= GoDiv(y, 2816) <= y / 2816 + 1;
      }
    }
  }

  /** The truncating encoder even breaks the year lengths: its year -2347
      runs 367 days, where the cycle gives it 366 (YearLength). */
  lemma TruncatedEncoderLongYear()
    ensures GetJdnAsWritten(-2346, 1, 1) - GetJdnAsWritten(-2347, 1, 1) == 367
    ensures GetJdn(-2346, 1, 1) - GetJdn(-2347, 1, 1) == 366
  {
    TruncatedEncoderLongYearAsWritten();
    CorrectedEncoderLongYear();
  }

  lemma TruncatedEncoderLongYearAsWritten()
    ensures GetJdnAsWritten(-2347, 1, 1) == 1091097 && GetJdnAsWritten(-2346, 1, 1) == 1091464
  {
  }

  lemma CorrectedEncoderLongYear()
    ensures GetJdn(-2347, 1, 1) == 1091097 && GetJdn(-2346, 1, 1) == 1091463
  {
  }

  // ---------------------------------------------------------------------
  // Known days and the two leap rules

  /** The day of the year from the month table is the JDN offset from the
      first of Farvardin. */
  lemma DaysIntoYear(year: int, month: int, day: int)
    requires 1 <= month <= 12
    ensures GetJdn(year, month, day) - GetJdn(year, 1, 1) == PMonthCount[month - 1].daysBefore + day - 1
  {
  }

  /** The first day of a year of the first cycle after year 474. */
  lemma StartOfBaseInFirstCycle(base: int)
    requires 0 <= base < 2820
    ensures StartOfBase(base) == 2121080 + 365 * base + (682 * base + 2134) / 2816
  {
  }

  /** JDN 2457468 (Gregorian 2016-03-20) is Persian 1395-01-01. */
  lemma Nowruz1395()
    ensures GetJdn(1395, 1, 1) == 2457468
    ensures PersianFromJdn(2457468) == PersianDate(1395, 1, 1)
  {
    assert GetJdn(1395, 1, 1) == 2457468 by {
      StartOfBaseInFirstCycle(921);
    }
    assert CycleMonthDays(1395, 1) == 31;
    PersianEncodeDecode(PersianDate(1395, 1, 1));
  }

  /** The 33-year rule of the clamping code and the 2820-year cycle of getJdn
      disagree: 1403 is a leap year for the first and has 365 days in the
      second, so Esfand 30, 1403 is the same day as Farvardin 1, 1404; 1404
      is a common year for the first and has 366 days in the second. */
  lemma LeapRulesDisagree()
    ensures IsLeap(1403) && YearLength(1403) == 365
    ensures GetJdn(1403, 12, 30) == GetJdn(1404, 1, 1)
    ensures !IsLeap(1404) && YearLength(1404) == 366
  {
    StartOfBaseInFirstCycle(929);
    StartOfBaseInFirstCycle(930);
    StartOfBaseInFirstCycle(931);
    GetJdnStart(1403, 12, 30);
    GetJdnStart(1404, 1, 1);
  }
}
