/** The proleptic Gregorian calendar, counted day by day. */
module GregorianCalendar {
  datatype Date = Date(year: int, month: int, day: int)

  predicate IsLeapYear(year: int) {
    year % 4 == 0 && (year % 100 != 0 || year % 400 == 0)
  }

  function DaysInYear(year: int): int {
    if IsLeapYear(year) then 366 else 365
  }

  function DaysInMonth(year: int, month: int): int {
    if month == 2 then (if IsLeapYear(year) then 29 else 28)
    else if month == 4 || month == 6 || month == 9 || month == 11 then 30
    else 31
  }

  predicate ValidDate(d: Date) {
    1 <= d.month <= 12 && 1 <= d.day <= DaysInMonth(d.year, d.month)
  }

  /** The calendar's rule: the day after. */
  function NextDay(d: Date): Date {
    if d.day < DaysInMonth(d.year, d.month) then d.(day := d.day + 1)
    else if d.month < 12 then Date(d.year, d.month + 1, 1)
    else Date(d.year + 1, 1, 1)
  }

  /** Days from the epoch to 1 January, year by year in either direction. */
  function YearStart(year: int): int
    decreases if year >= 1970 then year - 1970 else 1970 - year
  {
    if year == 1970 then 0
    else if year > 1970 then YearStart(year - 1) + DaysInYear(year - 1)
    else YearStart(year + 1) - DaysInYear(year)
  }

  /** Days from 1 January to the first of the month, month by month. */
  function MonthStart(year: int, month: nat): int {
    if month <= 1 then 0 else MonthStart(year, month - 1) + DaysInMonth(year, month - 1)
  }

  /** Days since 1 January of the date's own year. */
  function DayOfYear(d: Date): int
    requires 1 <= d.month
  {
    MonthStart(d.year, d.month) + d.day - 1
  }

  /** Days since the epoch. */
  function DayNumber(d: Date): int
    requires 1 <= d.month
  {
    YearStart(d.year) + DayOfYear(d)
  }

  lemma YearStartStep(year: int)
    ensures YearStart(year + 1) == YearStart(year) + DaysInYear(year)
  {}

  lemma MonthStarts(year: int)
    ensures MonthStart(year, 1) == 0 && MonthStart(year, 2) == 31
    ensures var f := if IsLeapYear(year) then 60 else 59;
            MonthStart(year, 3) == f && MonthStart(year, 4) == f + 31 && MonthStart(year, 5) == f + 61
            && MonthStart(year, 6) == f + 92 && MonthStart(year, 7) == f + 122 && MonthStart(year, 8) == f + 153
            && MonthStart(year, 9) == f + 184 && MonthStart(year, 10) == f + 214
            && MonthStart(year, 11) == f + 245 && MonthStart(year, 12) == f + 275
    ensures DaysInYear(year) == MonthStart(year, 12) + 31
  {
    assert MonthStart(year, 3) == MonthStart(year, 2) + DaysInMonth(year, 2);
    assert MonthStart(year, 5) == MonthStart(year, 4) + DaysInMonth(year, 4);
    assert MonthStart(year, 7) == MonthStart(year, 6) + DaysInMonth(year, 6);
    assert MonthStart(year, 9) == MonthStart(year, 8) + DaysInMonth(year, 8);
    assert MonthStart(year, 11) == MonthStart(year, 10) + DaysInMonth(year, 10);
  }

  /** One day later in the calendar is one more day counted. */
  lemma NextDayCounts(d: Date)
    requires ValidDate(d)
    ensures ValidDate(NextDay(d))
    ensures DayNumber(NextDay(d)) == DayNumber(d) + 1
  {
    MonthStarts(d.year);
    YearStartStep(d.year);
    MonthStarts(d.year + 1);
  }

  lemma DayOfYearBounds(d: Date)
    requires ValidDate(d)
    ensures 0 <= DayOfYear(d) < DaysInYear(d.year)
  {
    MonthStarts(d.year);
  }

  lemma {:induction false} YearStartsGrow(y: int, z: int)
    requires y < z
    ensures YearStart(y) + DaysInYear(y) <= YearStart(z)
    decreases z - y
  {
    YearStartStep(z - 1);
    if y < z - 1 {
      YearStartsGrow(y, z - 1);
    }
  }

  predicate Earlier(d: Date, e: Date) {
    d.year < e.year ||
    (d.year == e.year && (d.month < e.month || (d.month == e.month && d.day < e.day)))
  }

  lemma {:induction false} MonthStartsGrow(year: int, m: nat, n: nat)
    requires 1 <= m < n
    ensures MonthStart(year, m) + DaysInMonth(year, m) <= MonthStart(year, n)
    decreases n
  {
    if m < n - 1 {
      MonthStartsGrow(year, m, n - 1);
    }
  }

  /** Counting days respects the order of dates, so no two dates share a number. */
  lemma DayNumberIsMonotone(d: Date, e: Date)
    requires ValidDate(d) && ValidDate(e)
    ensures Earlier(d, e) <==> DayNumber(d) < DayNumber(e)
    ensures d == e <==> DayNumber(d) == DayNumber(e)
  {
    if Earlier(d, e) {
      EarlierIsLess(d, e);
    } else if Earlier(e, d) {
      EarlierIsLess(e, d);
    }
  }

  lemma EarlierIsLess(d: Date, e: Date)
    requires ValidDate(d) && ValidDate(e) && Earlier(d, e)
    ensures DayNumber(d) < DayNumber(e)
  {
    DayOfYearBounds(d);
    DayOfYearBounds(e);
    if d.year < e.year {
      YearStartsGrow(d.year, e.year);
    } else if d.month < e.month {
      MonthStartsGrow(d.year, d.month, e.month);
    }
  }

  function LeapYearsBefore(year: int): int {
    (year - 1) / 4 - (year - 1) / 100 + (year - 1) / 400
  }

  lemma LeapYearsStep(year: int)
    ensures LeapYearsBefore(year + 1) == LeapYearsBefore(year) + if IsLeapYear(year) then 1 else 0
  {
    NextMultiple(year, 4);
    NextMultiple(year, 100);
    NextMultiple(year, 400);
    assert year % 100 == 0 ==> year % 4 == 0;
    assert year % 400 == 0 ==> year % 100 == 0;
  }

  lemma NextMultiple(n: int, k: int)
    requires k > 1
    ensures n / k == (n - 1) / k + if n % k == 0 then 1 else 0
  {
    var q, r := n / k, n % k;
    assert n == q * k + r;
    if r == 0 {
      QuotientIs(n - 1, k, q - 1, k - 1);
    } else {
      QuotientIs(n - 1, k, q, r - 1);
    }
  }

  lemma QuotientIs(n: int, k: int, q: int, r: int)
    requires k > 0 && n == q * k + r && 0 <= r < k
    ensures n / k == q && n % k == r
  {
    var d := n / k - q;
    assert n == (n / k) * k + n % k;
    assert d * k == r - n % k;
    assert -k < d * k < k;
  }

  lemma {:induction false} YearStartClosedForm(year: int)
    ensures YearStart(year) == 365 * (year - 1970) + LeapYearsBefore(year) - LeapYearsBefore(1970)
    decreases if year >= 1970 then year - 1970 else 1970 - year
  {
    if year > 1970 {
      YearStartClosedForm(year - 1);
      LeapYearsStep(year - 1);
    } else if year < 1970 {
      YearStartClosedForm(year + 1);
      LeapYearsStep(year);
    }
  }
}
