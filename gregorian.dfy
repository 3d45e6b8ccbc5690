/** The Gregorian/Julian side of the JDN engine: a civil date of the host
    calendar to a Julian Day Number and back.  Dates after 1582-10-14 use the
    proleptic Gregorian formulas, dates up to that day the Julian ones, which
    reproduces the cutover of the Gregorian reform: Julian 1582-10-04 is JDN
    2299160 and Gregorian 1582-10-15 is JDN 2299161.
 */
module JdnGregorian {
  import opened GoArith

  /** A calendar date (year, month 1..12, day of month). */
  datatype Date = Date(year: int, month: int, day: int)

  /** The JDN of Julian 1582-10-04, the last day decoded with the Julian formulas. */
  const LastJulianJdn: int := 2299160

  /** The test that selects the Gregorian formula: the date is after 1582-10-14. */
  predicate IsGregorianEra(date: Date) {
    date.year > 1582
    || (date.year == 1582 && date.month > 10)
    || (date.year == 1582 && date.month == 10 && date.day > 14)
  }

  predicate IsGregorianLeap(year: int) {
    year % 4 == 0 && (year % 100 != 0 || year % 400 == 0)
  }

  predicate IsJulianLeap(year: int) {
    year % 4 == 0
  }

  /** Days in `month` of a year whose February has 29 days exactly when `leap`. */
  function MonthLength(month: int, leap: bool): (n: int)
    requires 1 <= month <= 12
    ensures 28 <= n <= 31
    ensures n == 31 <==> month in {1, 3, 5, 7, 8, 10, 12}
    ensures month == 2 ==> (n == 29 <==> leap)
  {
    if month == 2 then (if leap then 29 else 28)
    else if month in {4, 6, 9, 11} then 30
    else 31
  }

  predicate IsValidGregorian(date: Date) {
    1 <= date.month <= 12 && 1 <= date.day <= MonthLength(date.month, IsGregorianLeap(date.year))
  }

  predicate IsValidJulian(date: Date) {
    1 <= date.month <= 12 && 1 <= date.day <= MonthLength(date.month, IsJulianLeap(date.year))
  }

  /** The Gregorian formula of SetTime (Fliegel and Van Flandern). */
  function GregorianFormulaJdn(gy: int, gm: int, gd: int): int {
    GoDiv(1461 * (gy + 4800 + GoDiv(gm - 14, 12)), 4)
    + GoDiv(367 * (gm - 2 - 12 * GoDiv(gm - 14, 12)), 12)
    - GoDiv(3 * GoDiv(gy + 4900 + GoDiv(gm - 14, 12), 100), 4)
    + gd - 32075
  }

  /** The Julian formula of SetTime. */
  function JulianFormulaJdn(gy: int, gm: int, gd: int): int {
    367 * gy - GoDiv(7 * (gy + 5001 + GoDiv(gm - 9, 7)), 4) + GoDiv(275 * gm, 9) + gd + 1729777
  }

  /** The encoding block of SetTime: host calendar date to JDN. */
  function ToJdn(date: Date): int {
    if IsGregorianEra(date) then GregorianFormulaJdn(date.year, date.month, date.day)
    else JulianFormulaJdn(date.year, date.month, date.day)
  }

  /** The Gregorian branch of the decoding block of Time(): the century n of
      the day and the day l1 within it ... */
  function GregorianFromJdn(jdn: int): Date {
    var l0 := jdn + 68569;
    var n := GoDiv(4 * l0, 146097);
    var l1 := l0 - GoDiv(146097 * n + 3, 4);
    GregorianFromCenturyDay(n, l1)
  }

  /** ... the year i within the century and the day l2 within it, counted
      from 31 ... */
  function GregorianFromCenturyDay(n: int, l1: int): Date {
    var i := GoDiv(4000 * (l1 + 1), 1461001);
    var l2 := l1 - GoDiv(1461 * i, 4) + 31;
    GregorianFromYearDay(n, i, l2)
  }

  /** ... and the month and day within that March-based year. */
  function GregorianFromYearDay(n: int, i: int, l2: int): Date {
    var j := GoDiv(80 * l2, 2447);
    var day := l2 - GoDiv(2447 * j, 80);
    var l3 := GoDiv(j, 11);
    var month := j + 2 - 12 * l3;
    var year := 100 * (n - 49) + i + l3;
    Date(year, month, day)
  }

  /** The Julian branch of the decoding block of Time(): the four-year cycle
      k of the day and the day l within it ... */
  function JulianFromJdn(jdn: int): Date {
    var j0 := jdn + 1402;
    var k := GoDiv(j0 - 1, 1461);
    var l := j0 - 1461 * k;
    JulianFromCycleDay(k, l)
  }

  /** ... the year n within the cycle and the day i0 within that year,
      counted from 31 ... */
  function JulianFromCycleDay(k: int, l: int): Date {
    var n := GoDiv(l - 1, 365) - GoDiv(l, 1461);
    var i0 := l - 365 * n + 30;
    JulianFromYearDay(k, n, i0)
  }

  /** ... and the month and day within that March-based year. */
  function JulianFromYearDay(k: int, n: int, i0: int): Date {
    var j := GoDiv(80 * i0, 2447);
    var day := i0 - GoDiv(2447 * j, 80);
    var i1 := GoDiv(j, 11);
    var month := j + 2 - 12 * i1;
    var year := 4 * k + n + i1 - 4716;
    Date(year, month, day)
  }

  /** The decoding block of Time(): JDN to host calendar date. */
  function FromJdn(jdn: int): Date {
    if jdn > LastJulianJdn then GregorianFromJdn(jdn) else JulianFromJdn(jdn)
  }

  // ---------------------------------------------------------------------
  // Month of a March-based year.  Both decoders turn a day offset w within a
  // year that starts on 1 March into a month index j (1 = March, ..., 11 =
  // January, 12 = February) and a day, with 80/2447 as the month length.

  /** Days in the j-th month of a March-based year (February counted as 29). */
  function MarchMonthLength(j: int): int
    requires 1 <= j <= 12
  {
    if j == 12 then 29 else if j in {2, 4, 7, 9} then 30 else 31
  }

  lemma MarchMonth(w: int)
    requires 0 <= w <= 365
    ensures var j := (80 * (w + 31)) / 2447;
            var day := w + 31 - (2447 * j) / 80;
            && 1 <= j <= 12
            && 1 <= day <= MarchMonthLength(j)
            && (j == 12 ==> (day == 29 <==> w == 365))
            && (2447 * j) / 80 == (367 * j) / 12
  {
  }

  // ---------------------------------------------------------------------
  // Gregorian branch

  /** n counts centuries of 36524.25 days; l1 is the day within the century. */
  lemma GregorianCentury(l0: int)
    requires l0 > 0
    ensures var n := (4 * l0) / 146097;
            var l1 := l0 - (146097 * n + 3) / 4;
            && n >= 0
            && 0 <= l1 <= 36524
            && (n % 4 != 0 ==> l1 <= 36523)
            && (146097 * n + 3) / 4 == 36525 * n - (3 * n) / 4
  {
  }

  /** i is the year within the century; w is the day within that March-based year. */
  lemma GregorianYearOfCentury(l1: int)
    requires 0 <= l1 <= 36524
    ensures var i := (4000 * (l1 + 1)) / 1461001;
            var w := l1 - (1461 * i) / 4;
            && 0 <= i <= 99
            && 0 <= w <= 365
            && (w == 365 ==> (i + 1) % 4 == 0)
            && (w == 365 && i == 99 ==> l1 == 36524)
  {
  }

  /** Decoding a JDN after the reform gives a valid Gregorian date after
      1582-10-14 that the Gregorian formula encodes back to the same JDN. */
  lemma GregorianDecodeEncode(jdn: int)
    requires jdn > LastJulianJdn
    ensures var date := FromJdn(jdn);
            && IsValidGregorian(date)
            && IsGregorianEra(date)
            && ToJdn(date) == jdn
  {
    var n, l1, i, w, j, day := GregorianJdnParts(jdn);
    GregorianFromJdnBy(jdn, n, l1, i, w, j, day);
    GregorianDecodedEncodes(jdn, n, l1, i, w, j, day);
  }

  /** The date the Gregorian decoder assembles from its quotients is a valid
      Gregorian-era date that encodes back to jdn. */
  lemma GregorianDecodedEncodes(jdn: int, n: int, l1: int, i: int, w: int, j: int, day: int)
    requires jdn > LastJulianJdn
    requires n >= 1 && 0 <= l1 <= 36524 && 0 <= i <= 99 && 0 <= w <= 365 && 1 <= j <= 12
    requires (4 * (jdn + 68569)) / 146097 == n
    requires jdn + 68569 - (146097 * n + 3) / 4 == l1
    requires (4000 * (l1 + 1)) / 1461001 == i
    requires l1 - (1461 * i) / 4 == w
    requires (80 * (w + 31)) / 2447 == j
    requires w + 31 - (2447 * j) / 80 == day
    requires w == 365 ==> (i + 1) % 4 == 0
    requires w == 365 && i == 99 ==> n % 4 == 0
    requires (146097 * n + 3) / 4 == 36525 * n - (3 * n) / 4
    requires (2447 * j) / 80 == (367 * j) / 12
    ensures var date := Date(100 * (n - 49) + i + j / 11, j + 2 - 12 * (j / 11), day);
            && IsValidGregorian(date) && IsGregorianEra(date) && ToJdn(date) == jdn
  {
    GregorianDecodedValid(n, i, w, j);
    GregorianEraBound(jdn, n, i, w, j);
    GregorianFormulaByCentury(n, i, j, day);
  }

  /** The quotients the Gregorian decoder meets on a day number after the reform. */
  lemma GregorianJdnParts(jdn: int) returns (n: int, l1: int, i: int, w: int, j: int, day: int)
    requires jdn > LastJulianJdn
    ensures n >= 1 && 0 <= l1 <= 36524 && 0 <= i <= 99 && 0 <= w <= 365 && 1 <= j <= 12
    ensures (4 * (jdn + 68569)) / 146097 == n
    ensures jdn + 68569 - (146097 * n + 3) / 4 == l1
    ensures (4000 * (l1 + 1)) / 1461001 == i
    ensures l1 - (1461 * i) / 4 == w
    ensures (80 * (w + 31)) / 2447 == j
    ensures w + 31 - (2447 * j) / 80 == day
    ensures w == 365 ==> (i + 1) % 4 == 0
    ensures w == 365 && i == 99 ==> n % 4 == 0
    ensures (146097 * n + 3) / 4 == 36525 * n - (3 * n) / 4
    ensures (2447 * j) / 80 == (367 * j) / 12
  {
    var l0 := jdn + 68569;
    n := (4 * l0) / 146097;
    l1 := l0 - (146097 * n + 3) / 4;
    i := (4000 * (l1 + 1)) / 1461001;
    w := l1 - (1461 * i) / 4;
    j := (80 * (w + 31)) / 2447;
    day := w + 31 - (2447 * j) / 80;
    GregorianCentury(l0);
    GregorianYearOfCentury(l1);
    MarchMonth(w);
  }

  /** The date the Gregorian decoder assembles is a valid Gregorian date. */
  lemma GregorianDecodedValid(n: int, i: int, w: int, j: int)
    requires 0 <= i <= 99 && 0 <= w <= 365
    requires w == 365 ==> (i + 1) % 4 == 0
    requires w == 365 && i == 99 ==> n % 4 == 0
    requires j == (80 * (w + 31)) / 2447
    ensures IsValidGregorian(Date(100 * (n - 49) + i + j / 11, j + 2 - 12 * (j / 11), w + 31 - (2447 * j) / 80))
  {
    MarchMonth(w);
    MarchToCivilMonth(j);
    if j == 12 && w == 365 {
      GregorianLeapDay(n, i);
    }
  }

  /** The month index of a March-based year as a civil month, and its length. */
  lemma MarchToCivilMonth(j: int)
    requires 1 <= j <= 12
    ensures var l3 := j / 11;
            var month := j + 2 - 12 * l3;
            && (l3 == 0 || l3 == 1)
            && (l3 == 1 <==> month <= 2)
            && 1 <= month <= 12
            && (j < 12 ==> MonthLength(month, false) == MarchMonthLength(j))
            && (j == 12 ==> month == 2)
  {
  }

  /** The Februaries that the Gregorian decoder gives a 29th day fall in leap years. */
  lemma GregorianLeapDay(n: int, i: int)
    requires 0 <= i <= 99 && (i + 1) % 4 == 0
    requires i == 99 ==> n % 4 == 0
    ensures IsGregorianLeap(100 * (n - 49) + i + 1)
  {
  }

  lemma GregorianEraBound(jdn: int, n: int, i: int, w: int, j: int)
    requires jdn > LastJulianJdn
    requires n == (4 * (jdn + 68569)) / 146097
    requires i == (4000 * (jdn + 68569 - (146097 * n + 3) / 4 + 1)) / 1461001
    requires w == jdn + 68569 - (146097 * n + 3) / 4 - (1461 * i) / 4
    requires j == (80 * (w + 31)) / 2447
    ensures 100 * (n - 49) + i + j / 11 > 1582
            || (100 * (n - 49) + i + j / 11 == 1582 && j + 2 - 12 * (j / 11) > 10)
            || (100 * (n - 49) + i + j / 11 == 1582 && j + 2 - 12 * (j / 11) == 10
                && w + 31 - (2447 * j) / 80 > 14)
  {
  }

  /** The Gregorian formula on a date given by century n, year of century i and
      March-based month j, the form in which the decoder builds it. */
  lemma GregorianFormulaByCentury(n: int, i: int, j: int, day: int)
    requires n >= 1 && 0 <= i <= 99 && 1 <= j <= 12
    ensures GregorianFormulaJdn(100 * (n - 49) + i + j / 11, j + 2 - 12 * (j / 11), day)
         == 36525 * (n - 1) + (1461 * i) / 4 + (367 * j) / 12 - (3 * n) / 4 + day - 32075
  {
    var l3 := j / 11;
    var year := 100 * (n - 49) + i + l3;
    var month := j + 2 - 12 * l3;
    MarchToCivilMonth(j);
    var t := GoDiv(month - 14, 12);
    assert t == -l3;
    assert year + 4800 + t == 100 * (n - 1) + i;
    assert GoDiv(1461 * (year + 4800 + t), 4) == 36525 * (n - 1) + (1461 * i) / 4;
    assert month - 2 - 12 * t == j;
    assert GoDiv(367 * (month - 2 - 12 * t), 12) == (367 * j) / 12;
    assert GoDiv(year + 4900 + t, 100) == n;
    assert GoDiv(3 * GoDiv(year + 4900 + t, 100), 4) == (3 * n) / 4;
  }

  /** The converse of MarchMonth: a day of the j-th March-based month is found again. */
  lemma MarchMonthOf(j: int, day: int)
    requires 1 <= j <= 12 && 1 <= day <= MarchMonthLength(j)
    ensures var w := (367 * j) / 12 - 31 + day;
            && 0 <= w <= 365
            && (w == 365 <==> j == 12 && day == 29)
            && (80 * (w + 31)) / 2447 == j
            && w + 31 - (2447 * j) / 80 == day
  {
  }

  /** The converse of GregorianYearOfCentury. */
  lemma GregorianYearOfCenturyOf(i: int, w: int)
    requires 0 <= i <= 99 && 0 <= w <= 365
    requires w == 365 ==> (i + 1) % 4 == 0
    ensures var l1 := (1461 * i) / 4 + w;
            && 0 <= l1 <= 36524
            && (l1 == 36524 <==> i == 99 && w == 365)
            && (4000 * (l1 + 1)) / 1461001 == i
  {
    var l1 := (1461 * i) / 4 + w;
    assert 1461 * i - 3 <= 4 * ((1461 * i) / 4) <= 1461 * i;
    if w == 365 {
      assert 4 * ((1461 * i) / 4) == 1461 * i - 3;
    }
    assert 1461001 * i <= 4000 * (l1 + 1) < 1461001 * (i + 1);
  }

  /** The converse of GregorianCentury. */
  lemma GregorianCenturyOf(n: int, l1: int)
    requires n >= 0 && 0 <= l1 <= 36524
    requires l1 == 36524 ==> n % 4 == 0
    ensures var l0 := 36525 * n - (3 * n) / 4 + l1;
            && (4 * l0) / 146097 == n
            && (146097 * n + 3) / 4 == 36525 * n - (3 * n) / 4
  {
  }

  /** Encoding a valid Gregorian date after 1582-10-14 gives a JDN after the
      reform that decodes back to the same date. */
  lemma GregorianEncodeDecode(date: Date)
    requires IsValidGregorian(date) && IsGregorianEra(date)
    ensures ToJdn(date) > LastJulianJdn
    ensures FromJdn(ToJdn(date)) == date
  {
    var n, i, w, j, l1 := GregorianMarchParts(date);
    GregorianFormulaByCentury(n, i, j, date.day);
    var jdn := ToJdn(date);
    assert jdn == 36525 * (n - 1) + (1461 * i) / 4 + (367 * j) / 12 - (3 * n) / 4 + date.day - 32075;
    assert jdn + 68569 == 36525 * n - (3 * n) / 4 + l1;
    GregorianFromJdnBy(jdn, n, l1, i, w, j, date.day);
  }

  /** The quotients the Gregorian decoder will meet on the day number of a
      Gregorian-era date, read off the date itself. */
  lemma GregorianMarchParts(date: Date) returns (n: int, i: int, w: int, j: int, l1: int)
    requires IsValidGregorian(date) && IsGregorianEra(date)
    ensures n >= 0 && 0 <= i <= 99 && 0 <= w <= 365 && 1 <= j <= 12 && 0 <= l1 <= 36524
    ensures date.year == 100 * (n - 49) + i + j / 11 && date.month == j + 2 - 12 * (j / 11)
    ensures (367 * j) / 12 == (2447 * j) / 80
    ensures (80 * (w + 31)) / 2447 == j && w + 31 - (2447 * j) / 80 == date.day
    ensures l1 == (1461 * i) / 4 + w && (4000 * (l1 + 1)) / 1461001 == i
    ensures (4 * (36525 * n - (3 * n) / 4 + l1)) / 146097 == n
    ensures (146097 * n + 3) / 4 == 36525 * n - (3 * n) / 4
    ensures 36525 * n - (3 * n) / 4 + l1 - 68569 > LastJulianJdn
  {
    var y, m, d := date.year, date.month, date.day;
    var l3 := if m <= 2 then 1 else 0;
    j := m - 2 + 12 * l3;
    var y4800 := y + 4800 - l3;
    var c := y4800 / 100;
    i := y4800 % 100;
    n := c + 1;
    MarchToCivilMonth(j);
    MarchMonthOf(j, d);
    w := (367 * j) / 12 - 31 + d;
    assert y == 100 * c + i - 4800 + l3;
    if w == 365 {
      assert IsGregorianLeap(y);
      assert (i + 1) % 4 == 0;
    }
    GregorianYearOfCenturyOf(i, w);
    l1 := (1461 * i) / 4 + w;
    if l1 == 36524 {
      assert y == 100 * (c - 47);
      assert n % 4 == 0;
    }
    GregorianCenturyOf(n, l1);
    assert w + 31 - (367 * j) / 12 == d;
    GregorianEraFloor(n, i, j, w);
  }

  /** A Gregorian-era date lies after the last Julian day number. */
  lemma GregorianEraFloor(n: int, i: int, j: int, w: int)
    requires 0 <= i <= 99 && 1 <= j <= 12 && 0 <= w <= 365 && w + 31 - (367 * j) / 12 >= 1
    requires IsGregorianEra(Date(100 * (n - 49) + i + j / 11, j + 2 - 12 * (j / 11), w + 31 - (367 * j) / 12))
    ensures 36525 * n - (3 * n) / 4 + (1461 * i) / 4 + w - 68569 > LastJulianJdn
  {
    MarchToCivilMonth(j);
    if n == 64 {
      assert i >= 82;
      if i == 82 {
        assert (1461 * i) / 4 == 29950;
        assert j >= 8;
        assert (367 * j) / 12 >= 244;
      } else {
        assert (1461 * i) / 4 >= 30315;
      }
    }
  }

  /** GregorianFromJdn once its quotients are known. */
  lemma GregorianFromJdnBy(jdn: int, n: int, l1: int, i: int, w: int, j: int, d: int)
    requires jdn + 68569 >= 0 && n >= 0 && l1 >= 0 && i >= 0 && w >= 0 && j >= 0
    requires (4 * (jdn + 68569)) / 146097 == n
    requires jdn + 68569 - (146097 * n + 3) / 4 == l1
    requires (4000 * (l1 + 1)) / 1461001 == i
    requires l1 - (1461 * i) / 4 == w
    requires (80 * (w + 31)) / 2447 == j
    requires w + 31 - (2447 * j) / 80 == d
    ensures GregorianFromJdn(jdn) == Date(100 * (n - 49) + i + j / 11, j + 2 - 12 * (j / 11), d)
  {
    GoDivNonNegative(4 * (jdn + 68569), 146097);
    GoDivNonNegative(146097 * n + 3, 4);
    GregorianFromCenturyDayBy(n, l1, i, w, j, d);
  }

  lemma GregorianFromCenturyDayBy(n: int, l1: int, i: int, w: int, j: int, d: int)
    requires l1 >= 0 && i >= 0 && w >= 0 && j >= 0
    requires (4000 * (l1 + 1)) / 1461001 == i
    requires l1 - (1461 * i) / 4 == w
    requires (80 * (w + 31)) / 2447 == j
    requires w + 31 - (2447 * j) / 80 == d
    ensures GregorianFromCenturyDay(n, l1) == Date(100 * (n - 49) + i + j / 11, j + 2 - 12 * (j / 11), d)
  {
    GoDivNonNegative(4000 * (l1 + 1), 1461001);
    GoDivNonNegative(1461 * i, 4);
    MarchDateBy(w, j, d);
  }

  /** The month and day step shared by both decoders, once its quotients are known. */
  lemma MarchDateBy(w: int, j: int, d: int)
    requires w >= 0 && j >= 0
    requires (80 * (w + 31)) / 2447 == j
    requires w + 31 - (2447 * j) / 80 == d
    ensures GoDiv(80 * (w + 31), 2447) == j
    ensures (w + 31) - GoDiv(2447 * j, 80) == d
    ensures GoDiv(j, 11) == j / 11
  {
    GoDivNonNegative(80 * (w + 31), 2447);
    GoDivNonNegative(2447 * j, 80);
    GoDivNonNegative(j, 11);
  }

  // ---------------------------------------------------------------------
  // Julian branch

  /** Julian 1582-10-04 or earlier: the dates the Julian formulas serve. */
  predicate IsJulianEra(date: Date) {
    date.year < 1582
    || (date.year == 1582 && date.month < 10)
    || (date.year == 1582 && date.month == 10 && date.day <= 4)
  }

  /** Julian -4716-03-01 or later: where the truncating quotients of the Julian
      decoder coincide with floors. */
  predicate IsAfterJulianEpoch(date: Date) {
    date.year > -4716 || (date.year == -4716 && date.month >= 3)
  }

  /** l is the day within a four-year cycle that starts on 1 March; n is the
      year within the cycle and w the day within that year. */
  lemma JulianYearOfCycle(l: int)
    requires 1 <= l <= 1461
    ensures var n := (l - 1) / 365 - l / 1461;
            var w := l - 365 * n - 1;
            && 0 <= n <= 3
            && 0 <= w <= 365
            && (w == 365 ==> n == 3)
  {
  }

  /** The converse of JulianYearOfCycle. */
  lemma JulianYearOfCycleOf(n: int, w: int)
    requires 0 <= n <= 3 && 0 <= w <= 365
    requires w == 365 ==> n == 3
    ensures var l := 365 * n + w + 1;
            && 1 <= l <= 1461
            && (l - 1) / 365 - l / 1461 == n
  {
  }

  /** The cycle, year of cycle and day of year of a day number, read back. */
  lemma JulianCycleOf(jdn: int, k: int, n: int, w: int)
    requires k >= 0 && 0 <= n <= 3 && 0 <= w <= 365 && (w == 365 ==> n == 3)
    requires jdn == 1461 * k + 365 * n + w - 1401
    ensures (jdn + 1401) / 1461 == k
    ensures 1 <= jdn + 1402 - 1461 * k <= 1461
    ensures (jdn + 1401 - 1461 * k) / 365 - (jdn + 1402 - 1461 * k) / 1461 == n
  {
    JulianYearOfCycleOf(n, w);
    var l := 365 * n + w + 1;
    assert jdn + 1402 - 1461 * k == l;
    assert jdn + 1401 == 1461 * k + (l - 1);
  }

  /** The Julian formula on a date given by cycle k, year of cycle n and
      March-based month j, the form in which the decoder builds it. */
  lemma JulianFormulaByCycle(k: int, n: int, j: int, day: int)
    requires k >= 0 && 0 <= n <= 3 && 1 <= j <= 12
    ensures JulianFormulaJdn(4 * k + n + j / 11 - 4716, j + 2 - 12 * (j / 11), day)
         == 1461 * k + 365 * n + (2447 * j) / 80 + day - 1432
  {
    var l3 := j / 11;
    var year := 4 * k + n + l3 - 4716;
    var month := j + 2 - 12 * l3;
    MarchToCivilMonth(j);
    var t := GoDiv(month - 9, 7);
    assert t == -l3;
    assert year + 5001 + t == 4 * k + n + 285;
    assert GoDiv(7 * (year + 5001 + t), 4) == 7 * k + (7 * n + 1995) / 4;
    assert 367 * n - (7 * n + 1995) / 4 == 365 * n - 498;
    assert GoDiv(275 * month, 9) == (275 * month) / 9;
    assert 367 * l3 + (275 * month) / 9 == (2447 * j) / 80 + 61;
  }

  /** JulianFromJdn once its quotients are known. */
  lemma JulianFromJdnBy(jdn: int, k: int, n: int, w: int, j: int, d: int)
    requires jdn + 1401 >= 0 && k >= 0 && w >= 0 && j >= 0
    requires (jdn + 1401) / 1461 == k
    requires 1 <= jdn + 1402 - 1461 * k <= 1461
    requires (jdn + 1401 - 1461 * k) / 365 - (jdn + 1402 - 1461 * k) / 1461 == n
    requires jdn + 1402 - 1461 * k - 365 * n - 1 == w
    requires (80 * (w + 31)) / 2447 == j
    requires w + 31 - (2447 * j) / 80 == d
    ensures JulianFromJdn(jdn) == Date(4 * k + n + j / 11 - 4716, j + 2 - 12 * (j / 11), d)
  {
    GoDivNonNegative(jdn + 1401, 1461);
    JulianFromCycleDayBy(k, jdn + 1402 - 1461 * k, n, w, j, d);
  }

  lemma JulianFromCycleDayBy(k: int, l: int, n: int, w: int, j: int, d: int)
    requires 1 <= l <= 1461 && w >= 0 && j >= 0
    requires (l - 1) / 365 - l / 1461 == n
    requires l - 365 * n - 1 == w
    requires (80 * (w + 31)) / 2447 == j
    requires w + 31 - (2447 * j) / 80 == d
    ensures JulianFromCycleDay(k, l) == Date(4 * k + n + j / 11 - 4716, j + 2 - 12 * (j / 11), d)
  {
    GoDivNonNegative(l - 1, 365);
    GoDivNonNegative(l, 1461);
    JulianFromYearDayBy(k, n, w, j, d);
  }

  lemma JulianFromYearDayBy(k: int, n: int, w: int, j: int, d: int)
    requires w >= 0 && j >= 0
    requires (80 * (w + 31)) / 2447 == j
    requires w + 31 - (2447 * j) / 80 == d
    ensures JulianFromYearDay(k, n, w + 31) == Date(4 * k + n + j / 11 - 4716, j + 2 - 12 * (j / 11), d)
  {
    MarchDateBy(w, j, d);
  }

  /** The Julian date the decoder assembles is valid and falls in the Julian era. */
  lemma JulianDecodedValid(jdn: int, k: int, n: int, w: int, j: int)
    requires -1401 <= jdn <= LastJulianJdn
    requires k == (jdn + 1401) / 1461
    requires 0 <= n <= 3 && 0 <= w <= 365 && (w == 365 ==> n == 3)
    requires jdn == 1461 * k + 365 * n + w - 1401
    requires j == (80 * (w + 31)) / 2447
    ensures var date := Date(4 * k + n + j / 11 - 4716, j + 2 - 12 * (j / 11), w + 31 - (2447 * j) / 80);
            IsValidJulian(date) && IsJulianEra(date) && IsAfterJulianEpoch(date)
  {
    MarchMonth(w);
    MarchToCivilMonth(j);
    if k == 1574 {
      assert n <= 2;
      assert n == 2 ==> w <= 217;
    }
  }

  /** Decoding a JDN from -1401 up to the reform gives a valid Julian date up
      to 1582-10-04 that the Julian formula encodes back to the same JDN. */
  lemma JulianDecodeEncode(jdn: int)
    requires -1401 <= jdn <= LastJulianJdn
    ensures var date := FromJdn(jdn);
            && IsValidJulian(date)
            && IsJulianEra(date)
            && IsAfterJulianEpoch(date)
            && ToJdn(date) == jdn
  {
    var k, n, w, j, day := JulianJdnParts(jdn);
    JulianFromJdnBy(jdn, k, n, w, j, day);
    JulianDecodedEncodes(jdn, k, n, w, j, day);
  }

  /** The date the Julian decoder assembles from its quotients is a valid
      Julian-era date that encodes back to jdn. */
  lemma JulianDecodedEncodes(jdn: int, k: int, n: int, w: int, j: int, day: int)
    requires -1401 <= jdn <= LastJulianJdn
    requires k == (jdn + 1401) / 1461
    requires 0 <= n <= 3 && 0 <= w <= 365 && (w == 365 ==> n == 3)
    requires jdn == 1461 * k + 365 * n + w - 1401
    requires j == (80 * (w + 31)) / 2447
    requires day == w + 31 - (2447 * j) / 80
    ensures var date := Date(4 * k + n + j / 11 - 4716, j + 2 - 12 * (j / 11), day);
            && IsValidJulian(date) && IsJulianEra(date) && IsAfterJulianEpoch(date)
            && ToJdn(date) == jdn
  {
    JulianDecodedValid(jdn, k, n, w, j);
    JulianFormulaByCycle(k, n, j, day);
  }

  /** The quotients the Julian decoder meets on a day number from -1401 up to the reform. */
  lemma JulianJdnParts(jdn: int) returns (k: int, n: int, w: int, j: int, day: int)
    requires -1401 <= jdn <= LastJulianJdn
    ensures k >= 0 && 0 <= n <= 3 && 0 <= w <= 365 && (w == 365 ==> n == 3) && 1 <= j <= 12
    ensures k == (jdn + 1401) / 1461
    ensures 1 <= jdn + 1402 - 1461 * k <= 1461
    ensures (jdn + 1401 - 1461 * k) / 365 - (jdn + 1402 - 1461 * k) / 1461 == n
    ensures jdn + 1402 - 1461 * k - 365 * n - 1 == w
    ensures jdn == 1461 * k + 365 * n + w - 1401
    ensures (80 * (w + 31)) / 2447 == j
    ensures w + 31 - (2447 * j) / 80 == day
  {
    k := (jdn + 1401) / 1461;
    var l := jdn + 1402 - 1461 * k;
    JulianYearOfCycle(l);
    n := (l - 1) / 365 - l / 1461;
    w := l - 365 * n - 1;
    MarchMonth(w);
    j := (80 * (w + 31)) / 2447;
    day := w + 31 - (2447 * j) / 80;
  }

  /** The quotients the Julian decoder will meet on the day number of a Julian
      date, read off the date itself. */
  lemma JulianMarchParts(date: Date) returns (k: int, n: int, w: int, j: int)
    requires IsValidJulian(date) && IsJulianEra(date) && IsAfterJulianEpoch(date)
    ensures k >= 0 && 0 <= n <= 3 && 0 <= w <= 365 && 1 <= j <= 12 && (w == 365 ==> n == 3)
    ensures date.year == 4 * k + n + j / 11 - 4716 && date.month == j + 2 - 12 * (j / 11)
    ensures (80 * (w + 31)) / 2447 == j && w + 31 - (2447 * j) / 80 == date.day
    ensures -1401 <= 1461 * k + 365 * n + w - 1401 <= LastJulianJdn
  {
    var y, m, d := date.year, date.month, date.day;
    var l3 := if m <= 2 then 1 else 0;
    j := m - 2 + 12 * l3;
    var y4716 := y + 4716 - l3;
    k := y4716 / 4;
    n := y4716 % 4;
    MarchToCivilMonth(j);
    MarchMonthOf(j, d);
    w := (367 * j) / 12 - 31 + d;
    assert (2447 * j) / 80 == (367 * j) / 12 by {
      MarchMonth(w);
    }
    if w == 365 {
      assert IsJulianLeap(y);
    }
    if k >= 1574 {
      assert k == 1574 && n <= 2;
      assert n == 2 ==> y == 1582 && m <= 10 && j <= 8;
    }
  }

  /** Encoding a valid Julian date from -4716-03-01 up to 1582-10-04 gives a JDN
      from -1401 up to the reform that decodes back to the same date. */
  lemma JulianEncodeDecode(date: Date)
    requires IsValidJulian(date) && IsJulianEra(date) && IsAfterJulianEpoch(date)
    ensures -1401 <= ToJdn(date) <= LastJulianJdn
    ensures FromJdn(ToJdn(date)) == date
  {
    var k, n, w, j := JulianMarchParts(date);
    JulianFormulaByCycle(k, n, j, date.day);
    var jdn := ToJdn(date);
    assert jdn == 1461 * k + 365 * n + w - 1401;
    JulianCycleOf(jdn, k, n, w);
    JulianFromJdnBy(jdn, k, n, w, j, date.day);
  }

  // ---------------------------------------------------------------------
  // Every day number has a host date

  /** Every JDN after the reform is the Gregorian formula's encoding of some
      valid Gregorian date after 1582-10-14. */
  lemma GregorianOnto(jdn: int)
    requires jdn > LastJulianJdn
    ensures exists date :: IsValidGregorian(date) && IsGregorianEra(date) && ToJdn(date) == jdn
  {
    GregorianDecodeEncode(jdn);
  }

  /** Every JDN from -1401 up to the reform is the Julian formula's encoding of
      some valid Julian date from -4716-03-01 up to 1582-10-04. */
  lemma JulianOnto(jdn: int)
    requires -1401 <= jdn <= LastJulianJdn
    ensures exists date :: IsValidJulian(date) && IsJulianEra(date) && IsAfterJulianEpoch(date)
                           && ToJdn(date) == jdn
  {
    JulianDecodeEncode(jdn);
  }

  // ---------------------------------------------------------------------
  // Known days

  /** Below JDN -1401 the Julian decoder can leave the civil calendar: JDN
      -1494 comes out as day -1 of month 0 of -4716. */
  lemma JulianDecoderBelowRange()
    ensures FromJdn(-1494) == Date(-4716, 0, -1)
  {
  }

  /** The last Julian day of the reform, 1582-10-04, is JDN 2299160 ... */
  lemma LastJulianDay()
    ensures ToJdn(Date(1582, 10, 4)) == LastJulianJdn
    ensures FromJdn(LastJulianJdn) == Date(1582, 10, 4)
  {
    LastJulianDayEncodes();
    JulianFromJdnBy(2299160, 1574, 2, 217, 8, 4);
  }

  lemma LastJulianDayEncodes()
    ensures ToJdn(Date(1582, 10, 4)) == LastJulianJdn
  {
  }

  /** ... and the day after it is the first Gregorian day, 1582-10-15. */
  lemma FirstGregorianDay()
    ensures ToJdn(Date(1582, 10, 15)) == LastJulianJdn + 1
    ensures FromJdn(LastJulianJdn + 1) == Date(1582, 10, 15)
  {
    FirstGregorianDayEncodes();
    GregorianFromJdnBy(2299161, 64, 30178, 82, 228, 8, 15);
  }

  lemma FirstGregorianDayEncodes()
    ensures ToJdn(Date(1582, 10, 15)) == LastJulianJdn + 1
  {
  }

  /** 2016-03-20, the first day of the Persian year 1395, is JDN 2457468. */
  lemma Nowruz1395Day()
    ensures ToJdn(Date(2016, 3, 20)) == 2457468
    ensures FromJdn(2457468) == Date(2016, 3, 20)
  {
    Nowruz1395DayEncodes();
    GregorianFromJdnBy(2457468, 69, 5863, 16, 19, 1, 20);
  }

  lemma Nowruz1395DayEncodes()
    ensures ToJdn(Date(2016, 3, 20)) == 2457468
  {
  }
}
