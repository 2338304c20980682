/**
 * The ECMAScript Date model (section 21.4.1 of ECMA-262), restricted to whole
 * days.  A date is an integer day number: day 0 is 1970-01-01, negative days
 * lie before it.  Months are numbered 0..11 as in JavaScript, and a "month
 * index" k = 12 * year + month numbers all months of all years consecutively.
 *
 * Local time is taken to be a fixed offset from UTC (no daylight saving), so
 * a Date at local midnight is exactly one day number.
 */
module EcmaDate {

  /** Number of the day that is 1 January of year `y` (ECMA-262 DayFromYear). */
  function DayFromYear(y: int): int
  {
    365 * (y - 1970) + (y - 1969) / 4 - (y - 1901) / 100 + (y - 1601) / 400
  }

  /** The Gregorian leap-year rule (ECMA-262 DaysInYear). */
  predicate InLeapYear(y: int)
  {
    y % 4 == 0 && (y % 100 != 0 || y % 400 == 0)
  }

  function DaysInYear(y: int): int
  {
    if InLeapYear(y) then 366 else 365
  }

  /** Length of month `m` (0..11) of a year that is or is not a leap year. */
  function DaysInMonth(m: int, leap: bool): (r: int)
    requires 0 <= m < 12
    ensures 28 <= r <= 31
  {
    if m == 1 then (if leap then 29 else 28)
    else if m == 3 || m == 5 || m == 8 || m == 10 then 30
    else 31
  }

  /** Days of the year that precede the first of month `m`; `m == 12` gives the whole year. */
  function DaysBeforeMonth(m: int, leap: bool): (r: int)
    requires 0 <= m <= 12
    ensures 28 * m <= r <= 31 * m
  {
    if m == 0 then 0 else DaysBeforeMonth(m - 1, leap) + DaysInMonth(m - 1, leap)
  }

  /** The twelve months make up the year. */
  lemma DaysBeforeYearEnd(leap: bool)
    ensures DaysBeforeMonth(12, leap) == if leap then 366 else 365
  {
    if leap {
      assert DaysBeforeMonth(12, true) == 366;
    } else {
      assert DaysBeforeMonth(12, false) == 365;
    }
  }

  /** The month index of January 1970, the month that holds day 0. */
  const EpochMonth: int := 12 * 1970

  /** Length of the month with index `k`. */
  function MonthLengthAt(k: int): (r: int)
    ensures 28 <= r <= 31
  {
    DaysInMonth(k % 12, InLeapYear(k / 12))
  }

  /** The first day of month index `k`, counted month by month from January 1970. */
  function MonthStart(k: int): int
    decreases if k < EpochMonth then EpochMonth - k else k - EpochMonth
  {
    if k == EpochMonth then 0
    else if k > EpochMonth then MonthStart(k - 1) + MonthLengthAt(k - 1)
    else MonthStart(k + 1) - MonthLengthAt(k)
  }

  /** ECMA-262 MakeDay for whole numbers: the day `date` of month `month` of `year`,
      where a month outside 0..11 rolls over into neighbouring years and a date
      outside the month rolls over into neighbouring months. */
  function MakeDay(year: int, month: int, date: int): (r: int)
    ensures r == MonthStart(12 * year + month) + date - 1
  {
    var ym := year + month / 12;
    var mn := month % 12;
    assert 12 * year + month == 12 * ym + mn;
    DayFromYearIsMonthStart(ym);
    MonthStartInYear(ym, mn);
    DayFromYear(ym) + DaysBeforeMonth(mn, InLeapYear(ym)) + date - 1
  }

  /** ECMA-262 MakeFullYear: the Date constructor reads a year 0..99 as 1900..1999. */
  function MakeFullYear(year: int): int
  {
    if 0 <= year <= 99 then 1900 + year else year
  }

  /** `new Date(year, month, date)` at local midnight: ECMA-262 MakeDay applied
      to MakeFullYear(year), written as the day `date` of a month index. */
  function NewDate(year: int, month: int, date: int): (r: int)
  {
    MonthStart(MonthIndex(year, month)) + date - 1
  }

  /** NewDate is ECMA-262's MakeDay(MakeFullYear(year), month, date). */
  lemma NewDateIsMakeDay(year: int, month: int, date: int)
    ensures NewDate(year, month, date) == MakeDay(MakeFullYear(year), month, date)
  {
  }

  /** ECMA-262 WeekDay (`getDay()`): 0 is Sunday; 1970-01-01 was a Thursday. */
  function WeekDay(d: int): (r: int)
    ensures 0 <= r < 7
    ensures (d - r) % 7 == 3
  {
    (d + 4) % 7
  }

  /** Stepping back by the week day lands on a Sunday; whole weeks keep the week day. */
  lemma SundayOnOrBefore(d: int, n: int)
    ensures WeekDay(d - WeekDay(d)) == 0
    ensures WeekDay(d + 7 * n) == WeekDay(d)
  {
  }

  /** A product of a nonzero integer and `n` is at least `n` away from 0. */
  lemma MulAtLeast(d: int, n: int)
    requires n > 0
    ensures d >= 1 ==> d * n >= n
    ensures d <= -1 ==> d * n <= -n
  {
  }

  /** Quotient and remainder of Euclidean division are unique. */
  lemma DivModUnique(x: int, n: int, q: int, r: int)
    requires n > 0 && 0 <= r < n && x == q * n + r
    ensures x / n == q && x % n == r
  {
    var q0, r0 := x / n, x % n;
    assert (q - q0) * n == r0 - r;
    MulAtLeast(q - q0, n);
  }

  /** Adding whole multiples of `n` does not change the remainder. */
  lemma ModAddMultiple(x: int, k: int, n: int)
    requires n > 0
    ensures (x + k * n) % n == x % n
  {
    DivModUnique(x + k * n, n, x / n + k, x % n);
  }

  /** Moving the dividend up by one raises the floor quotient by one exactly
      when the new dividend is a multiple of `c`. */
  lemma FloorStep(a: int, c: int)
    requires c > 0
    ensures (a + 1) / c == a / c + (if (a + 1) % c == 0 then 1 else 0)
  {
    var q, r := a / c, a % c;
    if r + 1 < c {
      DivModUnique(a + 1, c, q, r + 1);
    } else {
      DivModUnique(a + 1, c, q + 1, 0);
    }
  }

  /** Consecutive years start one year length apart. */
  lemma DayFromYearStep(y: int)
    ensures DayFromYear(y + 1) == DayFromYear(y) + DaysInYear(y)
  {
    FloorStep(y - 1969, 4);
    FloorStep(y - 1901, 100);
    FloorStep(y - 1601, 400);
    ModAddMultiple(y - 1968, 492, 4);
    ModAddMultiple(y - 1900, 19, 100);
    ModAddMultiple(y - 1600, 4, 400);
    var b4 := if y % 4 == 0 then 1 else 0;
    var b100 := if y % 100 == 0 then 1 else 0;
    var b400 := if y % 400 == 0 then 1 else 0;
    assert (y - 1968) / 4 == (y - 1969) / 4 + b4;
    assert (y - 1900) / 100 == (y - 1901) / 100 + b100;
    assert (y - 1600) / 400 == (y - 1601) / 400 + b400;
    assert DayFromYear(y + 1) == DayFromYear(y) + 365 + b4 - b100 + b400;
    LeapDivisors(y);
  }

  /** A multiple of 400 is a multiple of 100, and a multiple of 100 one of 4. */
  lemma LeapDivisors(y: int)
    ensures y % 400 == 0 ==> y % 100 == 0
    ensures y % 100 == 0 ==> y % 4 == 0
  {
    ModAddMultiple(0, 4 * (y / 400), 100);
    ModAddMultiple(0, 25 * (y / 100), 4);
    assert y == 400 * (y / 400) + y % 400;
    assert y == 100 * (y / 100) + y % 100;
  }

  /** Consecutive month indices start one month length apart. */
  lemma MonthLength(k: int)
    ensures MonthStart(k + 1) == MonthStart(k) + MonthLengthAt(k)
  {
  }

  /** Within a year, the months start where the table of month lengths says. */
  lemma {:induction false} MonthStartInYear(y: int, m: int)
    requires 0 <= m <= 12
    ensures MonthStart(12 * y + m) == MonthStart(12 * y) + DaysBeforeMonth(m, InLeapYear(y))
  {
    if m > 0 {
      MonthStartInYear(y, m - 1);
      MonthLength(12 * y + m - 1);
      assert (12 * y + m - 1) / 12 == y && (12 * y + m - 1) % 12 == m - 1;
    }
  }

  /** ECMA-262's closed formula for 1 January agrees with counting months. */
  lemma {:induction false} DayFromYearIsMonthStart(y: int)
    ensures DayFromYear(y) == MonthStart(12 * y)
    decreases if y < 1970 then 1970 - y else y - 1970
  {
    if y > 1970 {
      DayFromYearIsMonthStart(y - 1);
      DayFromYearStep(y - 1);
      MonthStartInYear(y - 1, 12);
      DaysBeforeYearEnd(InLeapYear(y - 1));
    } else if y < 1970 {
      DayFromYearIsMonthStart(y + 1);
      DayFromYearStep(y);
      MonthStartInYear(y, 12);
      DaysBeforeYearEnd(InLeapYear(y));
    }
  }

  /** MonthStart is strictly increasing, by at least 28 days per month. */
  lemma {:induction false} MonthStartMonotone(j: int, k: int)
    requires j < k
    ensures MonthStart(j) + 28 * (k - j) <= MonthStart(k)
    decreases k - j
  {
    MonthLength(k - 1);
    if j < k - 1 {
      MonthStartMonotone(j, k - 1);
    }
  }

  /** Walks down from month index `k` to a month that starts on or before `d`. */
  function ScanDown(k: int, d: int): (r: int)
    ensures r <= k && MonthStart(r) <= d
    decreases MonthStart(k) - d
  {
    if MonthStart(k) <= d then k
    else
      MonthLength(k - 1);
      ScanDown(k - 1, d)
  }

  /** Walks up from a month that starts on or before `d` to the month holding `d`. */
  function ScanUp(k: int, d: int): (r: int)
    requires MonthStart(k) <= d
    ensures k <= r && MonthStart(r) <= d < MonthStart(r + 1)
    decreases d - MonthStart(k)
  {
    if d < MonthStart(k + 1) then k
    else
      MonthLength(k);
      ScanUp(k + 1, d)
  }

  /** The month index of the month that contains day `d`. */
  function MonthIndexOf(d: int): (k: int)
    ensures MonthStart(k) <= d < MonthStart(k + 1)
  {
    // Scan from January 1970, down to a month starting on or before d and
    // then up to the month that holds it.
    ScanUp(ScanDown(EpochMonth, d), d)
  }

  /** A day lies in exactly one month. */
  lemma MonthIndexOfUnique(k: int, d: int)
    requires MonthStart(k) <= d < MonthStart(k + 1)
    ensures MonthIndexOf(d) == k
  {
    var r := MonthIndexOf(d);
    if r < k {
      MonthStartMonotone(r + 1, k);
      assert false;
    } else if r > k {
      MonthStartMonotone(k + 1, r);
      assert false;
    }
  }

  /** `getFullYear()` (ECMA-262 YearFromTime). */
  function YearFromDay(d: int): int
  {
    MonthIndexOf(d) / 12
  }

  /** `getMonth()` (ECMA-262 MonthFromTime), in 0..11. */
  function MonthFromDay(d: int): (m: int)
    ensures 0 <= m < 12
  {
    MonthIndexOf(d) % 12
  }

  /** `getDate()` (ECMA-262 DateFromTime): the day of the month, from 1. */
  function DateFromDay(d: int): (r: int)
    ensures 1 <= r <= DaysInMonth(MonthFromDay(d), InLeapYear(YearFromDay(d)))
  {
    var k := MonthIndexOf(d);
    MonthLength(k);
    d - MonthStart(k) + 1
  }

  /** YearFromTime is the year whose 1 January is the last one on or before `d`. */
  lemma YearFromDayBounds(d: int)
    ensures DayFromYear(YearFromDay(d)) <= d < DayFromYear(YearFromDay(d) + 1)
  {
    var k := MonthIndexOf(d);
    YearBracket(k, d);
    YearOfDay(k / 12, d);
  }

  /** A day between two Januaries lies in the year the standard's formula names. */
  lemma YearOfDay(y: int, d: int)
    requires MonthStart(12 * y) <= d < MonthStart(12 * (y + 1))
    ensures DayFromYear(y) <= d < DayFromYear(y + 1)
  {
    DayFromYearIsMonthStart(y);
    DayFromYearIsMonthStart(y + 1);
  }

  /** The year of a month runs from its January to the next January. */
  lemma YearBracket(k: int, d: int)
    requires MonthStart(k) <= d < MonthStart(k + 1)
    ensures MonthStart(12 * (k / 12)) <= d < MonthStart(12 * (k / 12 + 1))
  {
    var y := k / 12;
    assert 12 * y <= k < 12 * y + 12;
    MonthStartOrdered(12 * y, k);
    MonthStartOrdered(k + 1, 12 * (y + 1));
  }

  /** A later month does not start earlier. */
  lemma MonthStartOrdered(j: int, k: int)
    requires j <= k
    ensures MonthStart(j) <= MonthStart(k)
  {
    if j < k {
      MonthStartMonotone(j, k);
    }
  }

  /** `setDate(date)` on a Date at day `d`: the day `date` of the month of `d`,
      rolling over into neighbouring months. */
  function SetDate(d: int, date: int): (r: int)
    ensures r == d + (date - DateFromDay(d))
  {
    MonthStart(MonthIndexOf(d)) + date - 1
  }

  /** `d.setDate(d.getDate() + n)`: moves a Date `n` days on (or back, for a
      negative `n`), across month and year ends. */
  method AddDays(d: int, n: int) returns (r: int)
    ensures r == d + n
  {
    r := SetDate(d, DateFromDay(d) + n);
  }

  /** SetDate is ECMA-262's MakeDay on the year and month of `d`. */
  lemma SetDateIsMakeDay(d: int, date: int)
    ensures SetDate(d, date) == MakeDay(YearFromDay(d), MonthFromDay(d), date)
  {
    var k := MonthIndexOf(d);
    assert 12 * (k / 12) + k % 12 == k;
  }

  /** The month index that `new Date(year, month, ...)` lands in: the constructor
      reads a two-digit year as 19xx and rolls `month` over into other years. */
  function MonthIndex(year: int, month: int): int
  {
    12 * MakeFullYear(year) + month
  }

  /** `new Date(year, month, 1)` and `new Date(year, month + 1, 0)` are the first
      and the last day of month index MonthIndex(year, month), the day after the
      last is the first of the next month, and a month has 28 to 31 days. */
  lemma MonthBounds(year: int, month: int)
    ensures NewDate(year, month, 1) == MonthStart(MonthIndex(year, month))
    ensures NewDate(year, month + 1, 0) == MonthStart(MonthIndex(year, month) + 1) - 1
    ensures NewDate(year, month + 1, 1) == NewDate(year, month + 1, 0) + 1
    ensures 28 <= NewDate(year, month + 1, 0) - NewDate(year, month, 1) + 1 <= 31
  {
    MonthLength(MonthIndex(year, month));
  }

  /** Every day from the first to the last of a month reports that month and its
      year through `getMonth()` and `getFullYear()`. */
  lemma DaysOfMonth(year: int, month: int, d: int)
    requires NewDate(year, month, 1) <= d <= NewDate(year, month + 1, 0)
    ensures MonthIndexOf(d) == MonthIndex(year, month)
    ensures MonthFromDay(d) == month % 12
    ensures YearFromDay(d) == MakeFullYear(year) + month / 12
  {
    var k := MonthIndex(year, month);
    MonthBounds(year, month);
    MonthIndexOfUnique(k, d);
    assert k / 12 == MakeFullYear(year) + month / 12 && k % 12 == month % 12;
  }
}
