/** Proleptic Gregorian calendar arithmetic on day numbers.

    A calendar day is an integer: day 0 is 1 January 1970, negative numbers are
    earlier days. This plays the part of the JavaScript `Date` time value at
    local midnight, at day granularity. `MakeDate` is the normalising
    constructor `new Date(year, monthIndex, date)` (months counted from 0,
    out-of-range months and dates rolling over into neighbouring months and
    years), and `FullYear`, `MonthIndex`, `DayOfMonth` and `Weekday` are the
    accessors `getFullYear`, `getMonth`, `getDate` and `getDay`. */
module Civil {

  /** A calendar day, counted in days from 1 January 1970. */
  type Day = int

  /** The year of day 0. */
  const EpochYear: int := 1970

  /** Weekday of day 0 (1 January 1970 was a Thursday; 0 is Sunday). */
  const EpochWeekday: int := 4

  predicate IsLeapYear(y: int) {
    y % 4 == 0 && (y % 100 != 0 || y % 400 == 0)
  }

  function DaysInYear(y: int): int {
    if IsLeapYear(y) then 366 else 365
  }

  /** Length of month `m` (1 = January … 12 = December) of year `y`. */
  function DaysInMonth(y: int, m: int): int {
    if m == 2 then (if IsLeapYear(y) then 29 else 28)
    else if m == 4 || m == 6 || m == 9 || m == 11 then 30
    else 31
  }

  lemma MonthLengthBounds(y: int, m: int)
    requires 1 <= m <= 12
    ensures 28 <= DaysInMonth(y, m) <= 31
  {
  }

  /** Days of year `y` that lie before the first of month `m`;
      `m == 13` stands for the first of the following year. */
  function DaysBeforeMonth(y: int, m: int): int {
    var leap := if IsLeapYear(y) then 1 else 0;
    if m == 1 then 0
    else if m == 2 then 31
    else if m == 3 then 59 + leap
    else if m == 4 then 90 + leap
    else if m == 5 then 120 + leap
    else if m == 6 then 151 + leap
    else if m == 7 then 181 + leap
    else if m == 8 then 212 + leap
    else if m == 9 then 243 + leap
    else if m == 10 then 273 + leap
    else if m == 11 then 304 + leap
    else if m == 12 then 334 + leap
    else 365 + leap
  }

  /** Day number of 1 January of year `y`. */
  function DaysBeforeYear(y: int): Day
    decreases if y < EpochYear then EpochYear - y else y - EpochYear
  {
    if y == EpochYear then 0
    else if y > EpochYear then DaysBeforeYear(y - 1) + DaysInYear(y - 1)
    else DaysBeforeYear(y + 1) - DaysInYear(y)
  }

  /** A calendar date with a 1-based month. */
  datatype Ymd = Ymd(year: int, month: int, day: int)

  predicate Valid(c: Ymd) {
    1 <= c.month <= 12 && 1 <= c.day <= DaysInMonth(c.year, c.month)
  }

  /** Day number of a calendar date (meaningful for valid dates). */
  function ToDays(c: Ymd): Day {
    DaysBeforeYear(c.year) + DaysBeforeMonth(c.year, c.month) + c.day - 1
  }

  lemma MonthTable(y: int, m: int)
    requires 1 <= m <= 12
    ensures DaysBeforeMonth(y, m + 1) == DaysBeforeMonth(y, m) + DaysInMonth(y, m)
    ensures DaysBeforeMonth(y, 13) == DaysInYear(y)
  {
  }

  lemma YearStep(y: int)
    ensures DaysBeforeYear(y + 1) == DaysBeforeYear(y) + DaysInYear(y)
  {
  }

  /** A later year starts at least 365 days per year later. */
  lemma {:induction false} YearsAscend(a: int, b: int)
    requires a <= b
    ensures DaysBeforeYear(a) + 365 * (b - a) <= DaysBeforeYear(b)
    decreases b - a
  {
    if a < b {
      YearsAscend(a, b - 1);
      YearStep(b - 1);
    }
  }

  /** Searches upwards from year `y` for the year holding day `n`. */
  function YearUp(n: Day, y: int): (r: int)
    requires DaysBeforeYear(y) <= n
    ensures y <= r
    ensures DaysBeforeYear(r) <= n < DaysBeforeYear(r + 1)
    decreases n - DaysBeforeYear(y)
  {
    YearStep(y);
    if DaysBeforeYear(y + 1) <= n then YearUp(n, y + 1) else y
  }

  /** Searches downwards from year `y` for the year holding day `n`. */
  function YearDown(n: Day, y: int): (r: int)
    requires n < DaysBeforeYear(y + 1)
    ensures r <= y
    ensures DaysBeforeYear(r) <= n < DaysBeforeYear(r + 1)
    decreases DaysBeforeYear(y + 1) - n
  {
    YearStep(y);
    if n < DaysBeforeYear(y) then YearDown(n, y - 1) else y
  }

  /** The year whose days include day `n`. */
  function YearContaining(n: Day): (r: int)
    ensures DaysBeforeYear(r) <= n < DaysBeforeYear(r + 1)
  {
    if n >= 0 then YearUp(n, EpochYear) else YearDown(n, EpochYear - 1)
  }

  /** Searches upwards from month `m` for the month of year `y` holding the `k`-th day of the year. */
  function MonthFrom(y: int, k: int, m: int): (r: int)
    requires 1 <= m <= 12
    requires DaysBeforeMonth(y, m) <= k < DaysInYear(y)
    ensures m <= r <= 12
    ensures DaysBeforeMonth(y, r) <= k < DaysBeforeMonth(y, r + 1)
    decreases DaysInYear(y) - DaysBeforeMonth(y, m)
  {
    MonthTable(y, m);
    if m < 12 && DaysBeforeMonth(y, m + 1) <= k then MonthFrom(y, k, m + 1) else m
  }

  /** The calendar date of day `n`; it is the one valid date whose day number is `n`. */
  function FromDays(n: Day): (c: Ymd)
    ensures Valid(c) && ToDays(c) == n
  {
    var y := YearContaining(n);
    YearStep(y);
    var k := n - DaysBeforeYear(y);
    var m := MonthFrom(y, k, 1);
    MonthTable(y, m);
    Ymd(y, m, k - DaysBeforeMonth(y, m) + 1)
  }

  /** The days of a valid date's year bracket its day number. */
  lemma DayInItsYear(c: Ymd)
    requires Valid(c)
    ensures DaysBeforeYear(c.year) <= ToDays(c) < DaysBeforeYear(c.year + 1)
  {
    YearStep(c.year);
    MonthTable(c.year, c.month);
  }

  /** Only one year can hold a given day. */
  lemma YearUnique(n: Day, a: int, b: int)
    requires DaysBeforeYear(a) <= n < DaysBeforeYear(a + 1)
    requires DaysBeforeYear(b) <= n < DaysBeforeYear(b + 1)
    ensures a == b
  {
    if a < b {
      YearsAscend(a + 1, b);
    } else if b < a {
      YearsAscend(b + 1, a);
    }
  }

  /** Only one month of a year can hold a given day of that year. */
  lemma MonthUnique(y: int, k: int, a: int, b: int)
    requires 1 <= a <= 12 && 1 <= b <= 12
    requires DaysBeforeMonth(y, a) <= k < DaysBeforeMonth(y, a + 1)
    requires DaysBeforeMonth(y, b) <= k < DaysBeforeMonth(y, b + 1)
    ensures a == b
  {
  }

  /** Valid dates with the same day number are in the same year. */
  lemma SameYear(a: Ymd, b: Ymd)
    requires Valid(a) && Valid(b) && ToDays(a) == ToDays(b)
    ensures a.year == b.year
  {
    DayInItsYear(a);
    DayInItsYear(b);
    YearUnique(ToDays(a), a.year, b.year);
  }

  /** Distinct valid dates have distinct day numbers. */
  lemma ToDaysInjective(a: Ymd, b: Ymd)
    requires Valid(a) && Valid(b) && ToDays(a) == ToDays(b)
    ensures a == b
  {
    SameYear(a, b);
    MonthTable(a.year, a.month);
    MonthTable(b.year, b.month);
    MonthUnique(a.year, ToDays(a) - DaysBeforeYear(a.year), a.month, b.month);
  }

  /** `FromDays` inverts `ToDays`. */
  lemma FromToDays(c: Ymd)
    requires Valid(c)
    ensures FromDays(ToDays(c)) == c
  {
    ToDaysInjective(c, FromDays(ToDays(c)));
  }

  /** A year and a 1-based month. */
  datatype YearMonth = YearMonth(year: int, month: int)

  /** Carries a month index outside 0..11 into the year, as the `Date`
      constructor does: month index 13 of 2024 is February 2025 and month
      index -1 of 2024 is December 2023. */
  function NormalizeMonth(year: int, monthIndex: int): (ym: YearMonth)
    ensures 1 <= ym.month <= 12
    ensures 12 * ym.year + ym.month - 1 == 12 * year + monthIndex
    decreases if monthIndex < 0 then 12 - monthIndex else monthIndex
  {
    if monthIndex < 0 then NormalizeMonth(year - 1, monthIndex + 12)
    else if monthIndex >= 12 then NormalizeMonth(year + 1, monthIndex - 12)
    else YearMonth(year, monthIndex + 1)
  }

  /** The normalised month is floor division of the month count by 12. */
  lemma NormalizeIsFloorDivision(year: int, monthIndex: int)
    ensures NormalizeMonth(year, monthIndex) == YearMonth(year + monthIndex / 12, monthIndex % 12 + 1)
  {
    var ym := NormalizeMonth(year, monthIndex);
    YearMonthUnique(ym, YearMonth(year + monthIndex / 12, monthIndex % 12 + 1));
  }

  /** A year and month is fixed by its month count. */
  lemma YearMonthUnique(a: YearMonth, b: YearMonth)
    requires 1 <= a.month <= 12 && 1 <= b.month <= 12
    requires 12 * a.year + a.month == 12 * b.year + b.month
    ensures a == b
  {
  }

  /** The month after `ym`. */
  function NextMonth(ym: YearMonth): YearMonth {
    if ym.month < 12 then YearMonth(ym.year, ym.month + 1) else YearMonth(ym.year + 1, 1)
  }

  /** One more month index is the month after. */
  lemma NormalizeNext(year: int, monthIndex: int)
    ensures NormalizeMonth(year, monthIndex + 1) == NextMonth(NormalizeMonth(year, monthIndex))
  {
    YearMonthUnique(NormalizeMonth(year, monthIndex + 1), NextMonth(NormalizeMonth(year, monthIndex)));
  }

  /** Day number of the first of a month. */
  function FirstOfMonth(ym: YearMonth): Day {
    ToDays(Ymd(ym.year, ym.month, 1))
  }

  /** Same as `new Date(year, monthIndex, date)`: month indices outside 0..11
      roll over into other years and dates outside the month roll over into
      other months. */
  function MakeDate(year: int, monthIndex: int, date: int): Day {
    FirstOfMonth(NormalizeMonth(year, monthIndex)) + date - 1
  }

  /** Dates of the same month are consecutive days. */
  lemma MakeDateShift(year: int, monthIndex: int, date: int)
    ensures MakeDate(year, monthIndex, date) == MakeDate(year, monthIndex, 1) + (date - 1)
  {
  }

  /** `getFullYear` */
  function FullYear(t: Day): int {
    FromDays(t).year
  }

  /** `getMonth`: 0 for January … 11 for December. */
  function MonthIndex(t: Day): int {
    FromDays(t).month - 1
  }

  /** `getDate`: the day of the month, from 1. */
  function DayOfMonth(t: Day): int {
    FromDays(t).day
  }

  /** `getDay`: 0 for Sunday … 6 for Saturday. */
  function Weekday(t: Day): (w: int)
    ensures 0 <= w < 7
  {
    (t + EpochWeekday) % 7
  }

  /** From 1970 up to 2100 every fourth year, starting with 1972, is a leap
      year. */
  lemma {:induction false} DaysBeforeYearSince1970(y: int)
    requires EpochYear <= y <= 2100
    ensures DaysBeforeYear(y) == 365 * (y - EpochYear) + (y - EpochYear + 1) / 4
  {
    if y > EpochYear {
      DaysBeforeYearSince1970(y - 1);
    }
  }

  /** The weekday count agrees with the calendar: 1 January 2024 is day
      19723 and a Monday. */
  lemma WeekdayAnchor()
    ensures ToDays(Ymd(2024, 1, 1)) == 19723
    ensures Weekday(ToDays(Ymd(2024, 1, 1))) == 1
  {
    DaysBeforeYearSince1970(2024);
  }

  /** Length of the month that day `t` lies in. */
  function MonthLength(t: Day): int {
    DaysInMonth(FullYear(t), MonthIndex(t) + 1)
  }

  /** Length of a month. */
  function LengthOf(ym: YearMonth): int {
    DaysInMonth(ym.year, ym.month)
  }

  /** The parts of a day: a valid date, rebuilt by `MakeDate` from its own year, month and date. */
  lemma MakeDateOfParts(t: Day)
    ensures 0 <= MonthIndex(t) < 12 && 1 <= DayOfMonth(t) <= MonthLength(t)
    ensures 28 <= MonthLength(t) <= 31
    ensures NormalizeMonth(FullYear(t), MonthIndex(t)) == YearMonth(FullYear(t), MonthIndex(t) + 1)
    ensures MakeDate(FullYear(t), MonthIndex(t), DayOfMonth(t)) == t
    ensures MakeDate(FullYear(t), MonthIndex(t), 1) == t - DayOfMonth(t) + 1
  {
    var c := FromDays(t);
    MonthLengthBounds(c.year, c.month);
    assert NormalizeMonth(c.year, c.month - 1) == YearMonth(c.year, c.month);
  }

  /** A date within the (normalised) month reads back as that year, month and date. */
  lemma PartsOfMakeDate(year: int, monthIndex: int, date: int)
    requires 1 <= date <= LengthOf(NormalizeMonth(year, monthIndex))
    ensures FullYear(MakeDate(year, monthIndex, date)) == NormalizeMonth(year, monthIndex).year
    ensures MonthIndex(MakeDate(year, monthIndex, date)) == NormalizeMonth(year, monthIndex).month - 1
    ensures DayOfMonth(MakeDate(year, monthIndex, date)) == date
  {
    var ym := NormalizeMonth(year, monthIndex);
    var c := Ymd(ym.year, ym.month, date);
    assert MakeDate(year, monthIndex, date) == ToDays(c);
    FromToDays(c);
  }

  /** A day `x` within the month of `t` differs from `t` only in the date
      of the month. */
  lemma ShiftWithinMonth(t: Day, x: Day)
    requires 1 <= DayOfMonth(t) + (x - t) <= MonthLength(t)
    ensures FromDays(x) == Ymd(FromDays(t).year, FromDays(t).month, FromDays(t).day + (x - t))
  {
    var c := FromDays(t);
    var d := Ymd(c.year, c.month, c.day + (x - t));
    assert ToDays(d) == x;
    FromToDays(d);
  }

  /** Two days of the same month lie as far apart as their dates of the month. */
  lemma SameMonthOffset(t: Day, x: Day)
    requires FullYear(x) == FullYear(t) && MonthIndex(x) == MonthIndex(t)
    ensures x - t == DayOfMonth(x) - DayOfMonth(t)
    ensures 1 <= DayOfMonth(x) <= MonthLength(t)
  {
    var c, d := FromDays(t), FromDays(x);
    assert c.year == d.year && c.month == d.month;
  }

  /** The first of the next month comes one month-length after the first of this one. */
  lemma NextFirstOfMonth(ym: YearMonth)
    requires 1 <= ym.month <= 12
    ensures FirstOfMonth(NextMonth(ym)) == FirstOfMonth(ym) + LengthOf(ym)
  {
    MonthTable(ym.year, ym.month);
    if ym.month == 12 {
      YearStep(ym.year);
    }
  }

  /** Date 0 of the next month is the last date of this one. */
  lemma LastOfMonth(year: int, monthIndex: int)
    ensures MakeDate(year, monthIndex + 1, 0) == MakeDate(year, monthIndex, LengthOf(NormalizeMonth(year, monthIndex)))
  {
    NormalizeNext(year, monthIndex);
    NextFirstOfMonth(NormalizeMonth(year, monthIndex));
  }

  /** Dates past the end of a month continue into the month after. */
  lemma OverflowIntoNextMonth(year: int, monthIndex: int, date: int)
    ensures MakeDate(year, monthIndex, date) == MakeDate(year, monthIndex + 1, date - LengthOf(NormalizeMonth(year, monthIndex)))
  {
    NormalizeNext(year, monthIndex);
    NextFirstOfMonth(NormalizeMonth(year, monthIndex));
  }

  /** A date of the month past the end of the (normalised) month reads back
      as a date in the month after. */
  lemma PartsOfOverflow(year: int, monthIndex: int, date: int)
    requires LengthOf(NormalizeMonth(year, monthIndex)) < date <= 31
    ensures FullYear(MakeDate(year, monthIndex, date)) == NextMonth(NormalizeMonth(year, monthIndex)).year
    ensures MonthIndex(MakeDate(year, monthIndex, date)) == NextMonth(NormalizeMonth(year, monthIndex)).month - 1
    ensures DayOfMonth(MakeDate(year, monthIndex, date)) == date - LengthOf(NormalizeMonth(year, monthIndex))
  {
    var ym := NormalizeMonth(year, monthIndex);
    NormalizeNext(year, monthIndex);
    MonthLengthBounds(ym.year, ym.month);
    MonthLengthBounds(NextMonth(ym).year, NextMonth(ym).month);
    OverflowIntoNextMonth(year, monthIndex, date);
    PartsOfMakeDate(year, monthIndex + 1, date - LengthOf(ym));
  }
}
