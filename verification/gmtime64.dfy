/** The 64-bit gmtime of libmseed/gmtime64.c. */
module Gmtime64 {
  import opened GregorianCalendar
  import opened Options

  type Int64 = x: int | -0x8000_0000_0000_0000 <= x < 0x8000_0000_0000_0000
  type Int32 = x: int | -0x8000_0000 <= x < 0x8000_0000

  /** C division, which truncates toward zero. */
  function Div(a: int, b: int): int
    requires b > 0
  {
    if a >= 0 then a / b else -(-a / b)
  }

  /** C remainder, which takes the sign of the dividend. */
  function Rem(a: int, b: int): int
    requires b > 0
  {
    a - b * Div(a, b)
  }

  lemma DivRem(a: int, b: int)
    requires b > 0
    ensures a >= 0 ==> 0 <= Rem(a, b) < b && Div(a, b) == a / b
    ensures a < 0 ==> -b < Rem(a, b) <= 0
    ensures a < 0 ==> Div(a, b) == if Rem(a, b) == 0 then a / b else a / b + 1
    ensures Rem(a, b) == if a >= 0 || a % b == 0 then a % b else a % b - b
  {
    var q, r := -a / b, -a % b;
    assert -a == q * b + r;
    if a < 0 {
      if r == 0 {
        QuotientIs(a, b, -q, 0);
      } else {
        QuotientIs(a, b, -q - 1, b - r);
      }
    }
  }

  // ----- Days to civil date -----

  const DAYS_IN_ERA := 146097
  const EPOCH_SHIFT := 719468

  function Era(z: int): int {
    Div(if z >= 0 then z else z - 146096, DAYS_IN_ERA)
  }

  function DayOfEra(z: int): int {
    z - Era(z) * DAYS_IN_ERA
  }

  function YearOfEra(doe: int): int
    requires 0 <= doe
  {
    Div(doe - Div(doe, 1460) + Div(doe, 36524) - Div(doe, 146096), 365)
  }

  lemma EraIsFloor(z: int)
    ensures Era(z) == z / DAYS_IN_ERA && DayOfEra(z) == z % DAYS_IN_ERA
    ensures 0 <= DayOfEra(z) <= 146096
  {
    DivRem(z, DAYS_IN_ERA);
    DivRem(z - 146096, DAYS_IN_ERA);
  }

  /** Days of the 400-year era before its year `y`, years starting in March. */
  function EraYearStart(y: int): int {
    365 * y + y / 4 - y / 100
  }

  /** Century, four-year cycle, and year of the cycle of a day of the era. */
  lemma SplitDayOfEra(doe: int) returns (c: int, q: int, y: int, doy: int)
    requires 0 <= doe <= 146096
    ensures 0 <= c <= 3 && 0 <= q <= 24 && 0 <= y <= 3
    ensures doe == 36524 * c + 1461 * q + 365 * y + doy
    ensures 0 <= doy <= 365
    ensures doy == 365 ==> y == 3 && (q == 24 ==> c == 3)
  {
    c := if doe == 146096 then 3 else doe / 36524;
    var doc := doe - 36524 * c;
    q := doc / 1461;
    var d := doc - 1461 * q;
    y := if d == 1460 then 3 else d / 365;
    doy := d - 365 * y;
  }

  lemma FormulaQuotients(doe: int, c: int, q: int, d: int)
    requires 0 <= c <= 3 && 0 <= q <= 24 && 0 <= d <= 1460
    requires doe == 36524 * c + 1461 * q + d && (q == 24 && d == 1460 ==> c == 3)
    ensures doe - doe / 1460 + doe / 36524 - doe / 146096
         == 365 * (100 * c + 4 * q) + d - if 24 * c + q + d >= 1460 then 1 else 0
  {
    var e := if 24 * c + q + d >= 1460 then 1 else 0;
    QuotientIs(doe, 1460, 25 * c + q + e, 24 * c + q + d - 1460 * e);
    if doe == 146096 {
      assert doe / 36524 == 4 && doe / 146096 == 1;
    } else {
      QuotientIs(doe, 36524, c, 1461 * q + d);
      QuotientIs(doe, 146096, 0, doe);
    }
  }

  /** The three correction terms of the year formula count exactly the leap days passed. */
  lemma YearOfEraIs(doe: int, c: int, q: int, y: int, doy: int)
    requires 0 <= c <= 3 && 0 <= q <= 24 && 0 <= y <= 3 && 0 <= doy <= 365
    requires doe == 36524 * c + 1461 * q + 365 * y + doy
    requires doy == 365 ==> y == 3 && (q == 24 ==> c == 3)
    ensures 0 <= doe && YearOfEra(doe) == 100 * c + 4 * q + y
    ensures EraYearStart(100 * c + 4 * q + y) == doe - doy
  {
    var d, k := 365 * y + doy, 100 * c + 4 * q + y;
    FormulaQuotients(doe, c, q, d);
    var e := if 24 * c + q + d >= 1460 then 1 else 0;
    QuotientIs(365 * (100 * c + 4 * q) + d - e, 365, k, doy - e);
    QuotientIs(k, 4, 25 * c + q, y);
    QuotientIs(k, 100, c, 4 * q + y);
  }

  function DayOfInternalYear(doe: int): int
    requires 0 <= doe
  {
    var yoe := YearOfEra(doe);
    doe - (365 * yoe + Div(yoe, 4) - Div(yoe, 100))
  }

  /** Month counted from March. */
  function MonthFromMarch(doy: int): int {
    Div(5 * doy + 2, 153)
  }

  function MonthFromJanuary(mp: int): int {
    mp + if mp < 10 then 3 else -9
  }

  function DayOfMonth(doy: int): int {
    doy - Div(153 * MonthFromMarch(doy) + 2, 5)
  }

  function CivilYear(z: int, doe: int): int
    requires 0 <= doe
  {
    YearOfEra(doe) + Era(z) * 400 + if MonthFromJanuary(MonthFromMarch(DayOfInternalYear(doe))) <= 2 then 1 else 0
  }

  /** The date the closed-form conversion gives for a day number. */
  function CivilDate(day: int): Date {
    var z := day + EPOCH_SHIFT;
    EraIsFloor(z);
    var doe := DayOfEra(z);
    var doy := DayOfInternalYear(doe);
    Date(CivilYear(z, doe), MonthFromJanuary(MonthFromMarch(doy)), DayOfMonth(doy) + 1)
  }

  /** The source's comments on the ranges of its intermediate results. */
  lemma CommentedRanges(doe: int)
    requires 0 <= doe <= 146096
    ensures 0 <= YearOfEra(doe) <= 399
    ensures 0 <= DayOfInternalYear(doe) <= 365
    ensures 0 <= MonthFromMarch(DayOfInternalYear(doe)) <= 11
    ensures 1 <= MonthFromJanuary(MonthFromMarch(DayOfInternalYear(doe))) <= 12
    ensures 0 <= DayOfMonth(DayOfInternalYear(doe)) <= 30
    ensures doe == EraYearStart(YearOfEra(doe)) + DayOfInternalYear(doe)
    ensures DayOfInternalYear(doe) == 365 ==> IsLeapYear(YearOfEra(doe) + 1)
  {
    var c, q, y, doy := SplitDayOfEra(doe);
    YearOfEraIs(doe, c, q, y, doy);
    var k := 100 * c + 4 * q + y;
    assert DayOfInternalYear(doe) == doy;
    MonthOfDay(doy);
    if doy == 365 {
      QuotientIs(k + 1, 4, 25 * c + q + 1, 0);
      if q == 24 {
        assert k + 1 == 400;
      } else {
        QuotientIs(k + 1, 100, c, 4 * q + 4);
      }
    }
  }

  lemma MonthOfDay(doy: int)
    requires 0 <= doy <= 365
    ensures 0 <= MonthFromMarch(doy) <= 11
    ensures 0 <= DayOfMonth(doy) <= 30
    ensures DayOfMonth(doy) == 30 ==> MonthFromMarch(doy) !in {1, 3, 6, 8, 11}
    ensures MonthFromMarch(doy) == 11 ==> DayOfMonth(doy) == doy - 337
  {}

  /** Day number of 1 March of a year, the first day of the shifted year. */
  lemma FirstOfMarch(year: int, era: int, yoe: int)
    requires year == yoe + 400 * era && 0 <= yoe <= 399
    ensures YearStart(year) + MonthStart(year, 3) == era * DAYS_IN_ERA + EraYearStart(yoe) - EPOCH_SHIFT
    ensures YearStart(year + 1) == YearStart(year) + MonthStart(year, 3) + 306
    ensures IsLeapYear(year + 1) <==> IsLeapYear(yoe + 1)
  {
    YearStartClosedForm(year);
    LeapYearsStep(year);
    YearStartStep(year);
    MonthStarts(year);
    QuotientIs(year, 4, yoe / 4 + 100 * era, yoe % 4);
    QuotientIs(year, 100, yoe / 100 + 4 * era, yoe % 100);
    QuotientIs(year, 400, era, yoe);
    QuotientIs(year + 1, 4, (yoe + 1) / 4 + 100 * era, (yoe + 1) % 4);
    QuotientIs(year + 1, 100, (yoe + 1) / 100 + 4 * era, (yoe + 1) % 100);
    QuotientIs(year + 1, 400, era + (yoe + 1) / 400, (yoe + 1) % 400);
  }

  /** The month formula agrees with adding up month lengths. */
  lemma MonthFormula(year: int, mp: int)
    requires 0 <= mp <= 11
    ensures mp < 10 ==> MonthStart(year, mp + 3) == MonthStart(year, 3) + Div(153 * mp + 2, 5)
    ensures mp >= 10 ==> MonthStart(year, mp - 9) + 306 == Div(153 * mp + 2, 5)
  {
    MonthStarts(year);
  }

  /** The date at a day of the shifted year that starts on 1 March of `year`. */
  function DateInShiftedYear(year: int, doy: int): Date {
    var month := MonthFromJanuary(MonthFromMarch(doy));
    Date(year + if month <= 2 then 1 else 0, month, DayOfMonth(doy) + 1)
  }

  lemma DateInShiftedYearIsCorrect(year: int, doy: int)
    requires 0 <= doy <= 365 && (doy == 365 ==> IsLeapYear(year + 1))
    ensures ValidDate(DateInShiftedYear(year, doy))
    ensures DayNumber(DateInShiftedYear(year, doy)) == YearStart(year) + MonthStart(year, 3) + doy
  {
    hide YearStart, MonthStart;
    var mp := MonthFromMarch(doy);
    FirstOfMarch(year, year / 400, year % 400);
    MonthOfDay(doy);
    MonthFormula(year, mp);
    MonthFormula(year + 1, mp);
  }

  /** The closed form is right: its date is valid and counts back to the day it came from. */
  lemma CivilDateIsCorrect(day: int)
    ensures ValidDate(CivilDate(day)) && DayNumber(CivilDate(day)) == day
  {
    hide YearStart, MonthStart, ValidDate, DayNumber, YearOfEra, MonthFromMarch, MonthFromJanuary, DayOfMonth, Era;
    var z := day + EPOCH_SHIFT;
    EraIsFloor(z);
    var era, doe := Era(z), DayOfEra(z);
    CommentedRanges(doe);
    var yoe, doy := YearOfEra(doe), DayOfInternalYear(doe);
    var year := yoe + era * 400;
    FirstOfMarch(year, era, yoe);
    DateInShiftedYearIsCorrect(year, doy);
    assert CivilDate(day) == DateInShiftedYear(year, doy);
  }

  // ----- The broken-down time -----

  const JULIAN_DAYS_BY_MONTH: seq<seq<int>> := [
    [0, 31, 59, 90, 120, 151, 181, 212, 243, 273, 304, 334],
    [0, 31, 60, 91, 121, 152, 182, 213, 244, 274, 305, 335]
  ]

  /** The fields of a `struct tm` as a value. */
  datatype Fields = Fields(year: int, mon: int, mday: int, yday: int, wday: int, hour: int, min: int, sec: int) {
    function ToDate(): Date {
      Date(year + 1900, mon + 1, mday)
    }

    function SecondOfDay(): int {
      3600 * hour + 60 * min + sec
    }

    predicate Valid() {
      ValidDate(ToDate()) && 0 <= hour < 24 && 0 <= min < 60 && 0 <= sec < 60
    }
  }

  /** `f` is the broken-down form of `time`: a valid date and clock that count back to it. */
  predicate IsTimeOf(f: Fields, time: int) {
    && f.Valid()
    && DayNumber(f.ToDate()) * 86400 + f.SecondOfDay() == time
    && f.wday == (DayNumber(f.ToDate()) + 4) % 7
    && f.yday == DayOfYear(f.ToDate())
  }

  /** The times whose year, counted from 1900, fits a C `int`. */
  const FIRST_TIME := -67768040609740800
  const LAST_TIME := 67768036191676799

  class Tm {
    var year: Int32
    var mon: Int32
    var mday: Int32
    var yday: Int32
    var wday: Int32
    var hour: Int32
    var min: Int32
    var sec: Int32

    ghost function Value(): Fields
      reads this
    {
      Fields(year, mon, mday, yday, wday, hour, min, sec)
    }
  }

  /** Conversion to `int` drops the high half. */
  function ToInt32(x: int): Int32 {
    (x + 0x8000_0000) % 0x1_0000_0000 - 0x8000_0000
  }

  /** The clock fields and the day, borrowing for times before the epoch. */
  method SplitClock(time: Int64) returns (sec: Int32, min: Int32, hour: Int32, day: Int64)
    ensures 0 <= sec < 60 && 0 <= min < 60 && 0 <= hour < 24
    ensures time == day * 86400 + 3600 * hour + 60 * min + sec
  {
    DivRem(time, 60);
    sec := Rem(time, 60);
    var minutes: Int64 := Div(time, 60);
    DivRem(minutes, 60);
    min := Rem(minutes, 60);
    var hours: Int64 := Div(minutes, 60);
    DivRem(hours, 24);
    hour := Rem(hours, 24);
    day := Div(hours, 24);
    if sec < 0 {
      min, sec := min - 1, sec + 60;
    }
    if min < 0 {
      hour, min := hour - 1, min + 60;
    }
    if hour < 0 {
      day, hour := day - 1, hour + 24;
    }
  }

  method Weekday(day: Int64) returns (wday: Int32)
    requires -0x1_0000_0000_0000 <= day <= 0x1_0000_0000_0000
    ensures wday == (day + 4) % 7
  {
    var shifted: Int64 := day + 4;
    DivRem(shifted, 7);
    wday := Rem(shifted, 7);
    if wday < 0 {
      wday := wday + 7;
    }
  }

  /** Days to civil date, every intermediate result a 64-bit integer. */
  method DaysToCivil(day: Int64) returns (year: Int64, mon: Int32, m: Int64)
    requires -0x1_0000_0000_0000 <= day <= 0x1_0000_0000_0000
    ensures Date(year + 1900, mon + 1, m + 1) == CivilDate(day)
    ensures 0 <= mon < 12 && 0 <= m <= 30
  {
    hide Div, IsLeapYear;
    var z: Int64 := day + EPOCH_SHIFT;
    EraIsFloor(z);
    var down: Int64 := if z >= 0 then z else z - 146096;
    var era: Int64 := Div(down, DAYS_IN_ERA);
    var eraStart: Int64 := era * DAYS_IN_ERA;
    var doe: Int64 := z - eraStart;
    CommentedRanges(doe);
    var yoe: Int64 := Div(doe - Div(doe, 1460) + Div(doe, 36524) - Div(doe, 146096), 365);
    var doy: Int64 := doe - (365 * yoe + Div(yoe, 4) - Div(yoe, 100));
    var mp: Int64 := Div(5 * doy + 2, 153);
    var mon1: Int64 := mp + if mp < 10 then 3 else -9;
    m := doy - Div(153 * mp + 2, 5);
    mon := mon1 - 1;
    var eraYears: Int64 := era * 400;
    year := yoe + eraYears + (if mon1 <= 2 then 1 else 0) - 1900;
  }

  /** The macro `IS_LEAP`. */
  function IsLeap(n: int): nat {
    if Rem(n + 1900, 400) == 0 || (Rem(n + 1900, 4) == 0 && Rem(n + 1900, 100) != 0) then 1 else 0
  }

  lemma IsLeapAgrees(n: int)
    ensures IsLeap(n) == if IsLeapYear(n + 1900) then 1 else 0
  {
    hide Div, Rem;
    var y := n + 1900;
    DivRem(y, 400);
    DivRem(y, 100);
    DivRem(y, 4);
    MultipleOf(y, 400, 100, 4);
    MultipleOf(y, 100, 4, 25);
  }

  lemma MultipleOf(y: int, n: int, k: int, j: int)
    requires k > 0 && n == k * j && j > 0
    ensures n > 0 && (y % n == 0 ==> y % k == 0)
  {
    if y % n == 0 {
      var q := y / n;
      assert y == q * n == (q * j) * k;
      QuotientIs(y, k, q * j, 0);
    }
  }

  lemma JulianDays(year: int, mon: int)
    requires 0 <= mon < 12
    ensures IsLeap(year) < 2
    ensures 0 <= JULIAN_DAYS_BY_MONTH[IsLeap(year)][mon] == MonthStart(year + 1900, mon + 1) <= 335
  {
    hide IsLeap;
    IsLeapAgrees(year);
    MonthStarts(year + 1900);
  }

  /** `ms_gmtime64_r`. */
  method MsGmtime64R(inTime: Option<Int64>, p: Tm?) returns (r: Tm?)
    modifies p
    ensures inTime.None? || p == null ==> r == null && (p != null ==> p.Value() == old(p.Value()))
    ensures inTime.Some? && p != null ==> (r == p <==> FIRST_TIME <= inTime.value <= LAST_TIME)
    ensures inTime.Some? && p != null && r == p ==> IsTimeOf(p.Value(), inTime.value)
    ensures r == null || r == p
    ensures inTime.Some? && p != null && r == null ==>
              p.Value() == old(p.Value()).(year := p.year)
              && exists f :: IsTimeOf(f, inTime.value) && (p.year - f.year) % 0x1_0000_0000 == 0
  {
    if inTime.None? || p == null {
      return null;
    }
    hide IsTimeOf, MonthStart, ToInt32;
    var sec, min, hour, wday, year, mon, m := BreakDown(inTime.value);
    p.year := ToInt32(year);
    if p.year != year {
      return null;
    }
    FillFields(p, sec, min, hour, wday, mon, m);
    return p;
  }

  /** Everything the source computes before its first store. */
  method BreakDown(time: Int64)
    returns (sec: Int32, min: Int32, hour: Int32, wday: Int32, year: Int64, mon: Int32, m: Int64)
    ensures 0 <= mon < 12 && 0 <= m <= 30
    ensures ToInt32(year) == year <==> FIRST_TIME <= time <= LAST_TIME
    ensures IsTimeOf(Fields(year, mon, m + 1, MonthStart(year + 1900, mon + 1) + m, wday, hour, min, sec), time)
  {
    hide CivilDate, ValidDate, DayNumber, MonthStart, IsTimeOf;
    var day;
    sec, min, hour, day := SplitClock(time);
    wday := Weekday(day);
    year, mon, m := DaysToCivil(day);
    CivilDateIsCorrect(day);
    YearRange(CivilDate(day), day, time);
    AssembledFields(time, day, Fields(year, mon, m + 1, MonthStart(year + 1900, mon + 1) + m, wday, hour, min, sec));
  }

  /** The stores after the year: every field but the year, which is already in place. */
  method FillFields(p: Tm, sec: Int32, min: Int32, hour: Int32, wday: Int32, mon: Int32, m: Int64)
    requires 0 <= mon < 12 && 0 <= m <= 30
    modifies p
    ensures p.Value() == Fields(old(p.year), mon, m + 1, MonthStart(old(p.year) + 1900, mon + 1) + m,
                                wday, hour, min, sec)
  {
    var leap := IsLeap(p.year);
    JulianDays(p.year, mon);
    p.mday := m + 1;
    p.yday := JULIAN_DAYS_BY_MONTH[leap][mon] + m;
    p.sec, p.min, p.hour, p.mon, p.wday := sec, min, hour, mon, wday;
  }

  lemma AssembledFields(time: int, day: int, f: Fields)
    requires 0 <= f.sec < 60 && 0 <= f.min < 60 && 0 <= f.hour < 24
    requires time == day * 86400 + 3600 * f.hour + 60 * f.min + f.sec
    requires f.wday == (day + 4) % 7
    requires ValidDate(f.ToDate()) && DayNumber(f.ToDate()) == day
    requires f.yday == MonthStart(f.year + 1900, f.mon + 1) + f.mday - 1
    ensures IsTimeOf(f, time)
  {
    hide ValidDate, DayNumber, MonthStart;
  }

  /** The year fits exactly between the first and the last time. */
  lemma YearRange(date: Date, day: int, time: int)
    requires ValidDate(date) && DayNumber(date) == day && day == time / 86400
    ensures -0x8000_0000 <= date.year - 1900 < 0x8000_0000 <==> FIRST_TIME <= time <= LAST_TIME
  {
    hide YearStart, DayOfYear, DayNumber;
    var low, high := 1900 - 0x8000_0000, 1900 + 0x8000_0000;
    YearStartClosedForm(low);
    YearStartClosedForm(high);
    assert YearStart(low) * 86400 == FIRST_TIME && YearStart(high) * 86400 == LAST_TIME + 1;
    DayOfYearBounds(date);
    YearIsBefore(date, low);
    YearIsBefore(date, high);
  }

  lemma YearIsBefore(date: Date, year: int)
    requires ValidDate(date)
    ensures date.year < year <==> DayNumber(date) < YearStart(year)
  {
    hide YearStart, DaysInYear, MonthStart;
    DayOfYearBounds(date);
    if date.year < year {
      YearStartsGrow(date.year, year);
    } else if year < date.year {
      DaysInYearPositive(year);
      YearStartsGrow(year, date.year);
    }
  }

  lemma DaysInYearPositive(year: int)
    ensures DaysInYear(year) > 0
  {}

  // ----- What broken-down times promise -----

  /** Year, month, day of the month, hour, minute, second: the first that differs decides. */
  predicate FieldsEarlier(f: Fields, g: Fields) {
    Earlier(f.ToDate(), g.ToDate()) || (f.ToDate() == g.ToDate() && ClockEarlier(f, g))
  }

  predicate ClockEarlier(f: Fields, g: Fields) {
    f.hour < g.hour || (f.hour == g.hour && (f.min < g.min || (f.min == g.min && f.sec < g.sec)))
  }

  lemma ClockOrder(f: Fields, g: Fields)
    requires f.Valid() && g.Valid()
    ensures 0 <= f.SecondOfDay() < 86400
    ensures ClockEarlier(f, g) <==> f.SecondOfDay() < g.SecondOfDay()
    ensures f.SecondOfDay() == g.SecondOfDay() <==> f.hour == g.hour && f.min == g.min && f.sec == g.sec
  {
    hide ValidDate;
  }

  /** Broken-down times are in the order of the times they stand for. */
  lemma FieldsFollowTime(f: Fields, t: int, g: Fields, u: int)
    requires IsTimeOf(f, t) && IsTimeOf(g, u)
    ensures t < u <==> FieldsEarlier(f, g)
  {
    hide ValidDate, DayNumber, Earlier, DayOfYear, ClockEarlier;
    ClockOrder(f, g);
    ClockOrder(g, f);
    DayNumberIsMonotone(f.ToDate(), g.ToDate());
  }

  /** A time has one broken-down form: the converter's result is the only one there is. */
  lemma FieldsAreUnique(f: Fields, g: Fields, t: int)
    requires IsTimeOf(f, t) && IsTimeOf(g, t)
    ensures f == g
  {
    hide ValidDate, DayNumber, Earlier, DayOfYear;
    ClockOrder(f, g);
    ClockOrder(g, f);
    DayNumberIsMonotone(f.ToDate(), g.ToDate());
  }

  /** A day later the clock is the same, the date is the calendar's next day, and the weekday the next. */
  lemma OneDayLater(f: Fields, g: Fields, t: int)
    requires IsTimeOf(f, t) && IsTimeOf(g, t + 86400)
    ensures g.ToDate() == NextDay(f.ToDate())
    ensures g.hour == f.hour && g.min == f.min && g.sec == f.sec
    ensures g.wday == (f.wday + 1) % 7
    ensures g.yday == if g.mon == 0 && g.mday == 1 then 0 else f.yday + 1
  {
    hide ValidDate, DayNumber, Earlier, NextDay, DayOfYear;
    ClockOrder(f, g);
    NextDayCounts(f.ToDate());
    DayNumberIsMonotone(g.ToDate(), NextDay(f.ToDate()));
    NextDayOfYear(f.ToDate());
  }

  lemma NextDayOfYear(d: Date)
    requires ValidDate(d)
    ensures var e := NextDay(d);
            1 <= e.month && DayOfYear(e) == if e.month == 1 && e.day == 1 then 0 else DayOfYear(d) + 1
  {
    MonthStarts(d.year);
    MonthStarts(d.year + 1);
  }
}
