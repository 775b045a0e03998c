/** Calendar-date utilities: weekends, holidays, business days, day and month
    arithmetic and the day list of a month (src/lib/date.ts). */
module Dates {
  import opened Civil

  /** The public-holiday table, as the set of days it lists. A Dafny set is
      finite, and that is the whole hypothesis the unbounded business-day
      scans need to terminate. */
  type Holidays = set<Day>

  /** `isWeekend`: Sunday or Saturday. */
  predicate IsWeekend(t: Day) {
    Weekday(t) == 0 || Weekday(t) == 6
  }

  /** `isSameDay`: year, month and date all agree. */
  predicate IsSameDay(a: Day, b: Day) {
    FullYear(a) == FullYear(b) && MonthIndex(a) == MonthIndex(b) && DayOfMonth(a) == DayOfMonth(b)
  }

  /** `isWithinRange`: inclusive at both ends. */
  predicate IsWithinRange(t: Day, start: Day, end: Day) {
    t >= start && t <= end
  }

  /** `addDays`: the day `days` days later (earlier, for negative `days`). */
  function AddDays(t: Day, days: int): Day {
    t + days
  }

  /** `addDays` moves the date of the month by `days` and lets the
      constructor roll it over into other months and years; on day numbers
      that is plain addition. */
  lemma AddDaysIsSetDate(t: Day, days: int)
    ensures AddDays(t, days) == MakeDate(FullYear(t), MonthIndex(t), DayOfMonth(t) + days)
  {
    MakeDateOfParts(t);
  }

  /** Successive moves add up, and a move by zero days stays put. */
  lemma AddDaysAdditive(t: Day, a: int, b: int)
    ensures AddDays(AddDays(t, a), b) == AddDays(t, a + b)
    ensures AddDays(t, 0) == t
  {
  }

  /** `isHoliday`: a lookup in the holiday table. */
  predicate IsHoliday(h: Holidays, t: Day) {
    t in h
  }

  /** `isBusinessDay` */
  predicate IsBusinessDay(h: Holidays, t: Day) {
    !IsWeekend(t) && !IsHoliday(h, t)
  }

  /** `startOfMonth`: `new Date(year, month, 1)`. */
  function StartOfMonth(t: Day): (r: Day)
    ensures FullYear(r) == FullYear(t) && MonthIndex(r) == MonthIndex(t) && DayOfMonth(r) == 1
    ensures r == t - (DayOfMonth(t) - 1)
  {
    MakeDateOfParts(t);
    PartsOfMakeDate(FullYear(t), MonthIndex(t), 1);
    MakeDate(FullYear(t), MonthIndex(t), 1)
  }

  /** `endOfMonth`: `new Date(year, month + 1, 0)`, the day before the first of the next month. */
  function EndOfMonth(t: Day): (r: Day)
    ensures FullYear(r) == FullYear(t) && MonthIndex(r) == MonthIndex(t) && DayOfMonth(r) == MonthLength(t)
    ensures r == t + (MonthLength(t) - DayOfMonth(t))
  {
    LastDayOffset(t);
    MakeDateOfParts(t);
    ShiftWithinMonth(t, t + (MonthLength(t) - DayOfMonth(t)));
    MakeDate(FullYear(t), MonthIndex(t) + 1, 0)
  }

  /** `new Date(year, month + 1, 0)` lies as far after `t` as the month has
      dates left. */
  lemma LastDayOffset(t: Day)
    ensures MakeDate(FullYear(t), MonthIndex(t) + 1, 0) == t + (MonthLength(t) - DayOfMonth(t))
  {
    MakeDateOfParts(t);
    LastOfMonth(FullYear(t), MonthIndex(t));
  }

  /** A day lies between the start and the end of its month. */
  lemma MonthBrackets(t: Day)
    ensures StartOfMonth(t) <= t <= EndOfMonth(t)
  {
    MakeDateOfParts(t);
  }

  /** The start and the end of a month belong to that month, so taking the
      start or the end again changes nothing. */
  lemma MonthBoundsOfStart(t: Day)
    ensures StartOfMonth(StartOfMonth(t)) == StartOfMonth(t)
    ensures EndOfMonth(StartOfMonth(t)) == EndOfMonth(t)
    ensures EndOfMonth(EndOfMonth(t)) == EndOfMonth(t)
    ensures StartOfMonth(EndOfMonth(t)) == StartOfMonth(t)
    ensures MonthLength(StartOfMonth(t)) == MonthLength(t)
  {
    MakeDateOfParts(t);
  }

  /** `k` days after the 1st of a month, within its length, is the
      `(k + 1)`-th of the same month. */
  lemma DaysIntoMonth(first: Day, k: int)
    requires DayOfMonth(first) == 1 && 0 <= k < MonthLength(first)
    ensures FullYear(first + k) == FullYear(first) && MonthIndex(first + k) == MonthIndex(first)
    ensures DayOfMonth(first + k) == 1 + k
  {
    ShiftWithinMonth(first, first + k);
  }

  /** `isSameDay` is equality of days; in particular it is an equivalence. */
  lemma SameDayIsEquality(a: Day, b: Day)
    ensures IsSameDay(a, b) <==> a == b
  {
    MakeDateOfParts(a);
    MakeDateOfParts(b);
  }

  /** A day is within the range from the start to the end of the month of
      `t` exactly when it lies in the same year and month as `t`. */
  lemma WithinMonth(t: Day, x: Day)
    ensures IsWithinRange(x, StartOfMonth(t), EndOfMonth(t)) <==> FullYear(x) == FullYear(t) && MonthIndex(x) == MonthIndex(t)
  {
    if StartOfMonth(t) <= x <= EndOfMonth(t) {
      ShiftWithinMonth(t, x);
    }
    if FullYear(x) == FullYear(t) && MonthIndex(x) == MonthIndex(t) {
      SameMonthOffset(t, x);
    }
  }

  /** `addMonths`: moves the month by `months` and keeps the date of the month;
      a date past the end of the target month rolls over into the month after. */
  function AddMonths(t: Day, months: int): (r: Day)
    ensures var target := NormalizeMonth(FullYear(t), MonthIndex(t) + months);
      DayOfMonth(t) <= LengthOf(target) ==>
        FullYear(r) == target.year && MonthIndex(r) == target.month - 1 && DayOfMonth(r) == DayOfMonth(t)
    ensures var target := NormalizeMonth(FullYear(t), MonthIndex(t) + months);
      DayOfMonth(t) > LengthOf(target) ==>
        && FullYear(r) == NextMonth(target).year && MonthIndex(r) == NextMonth(target).month - 1
        && DayOfMonth(r) == DayOfMonth(t) - LengthOf(target)
  {
    var y, m, d := FullYear(t), MonthIndex(t) + months, DayOfMonth(t);
    MakeDateOfParts(t);
    if d <= LengthOf(NormalizeMonth(y, m)) then
      PartsOfMakeDate(y, m, d);
      MakeDate(y, m, d)
    else
      PartsOfOverflow(y, m, d);
      MakeDate(y, m, d)
  }

  /** `generateCalendarDays`: every day of month `month` (from 0, rolled over
      like the constructor does) of `year`, first to last. */
  method GenerateCalendarDays(year: int, month: int) returns (days: seq<Day>)
    ensures |days| == LengthOf(NormalizeMonth(year, month))
    ensures forall i :: 0 <= i < |days| ==>
      && FullYear(days[i]) == NormalizeMonth(year, month).year
      && MonthIndex(days[i]) == NormalizeMonth(year, month).month - 1
      && DayOfMonth(days[i]) == i + 1
    ensures forall i :: 0 < i < |days| ==> days[i] == days[i - 1] + 1
    ensures days[0] == StartOfMonth(days[0]) && days[|days| - 1] == EndOfMonth(days[0])
  {
    var lastDay := MakeDate(year, month + 1, 0);
    var lastDate := DayOfMonth(lastDay);
    LastDateOfMonth(year, month);
    days := [];
    var i := 1;
    while i <= lastDate
      invariant 1 <= i <= lastDate + 1
      invariant |days| == i - 1
      invariant forall k :: 0 <= k < |days| ==> days[k] == MakeDate(year, month, 1) + k
    {
      var day := MakeDate(year, month, i);
      MakeDateShift(year, month, i);
      days := days + [day];
      i := i + 1;
    }
    MonthDaysFacts(year, month, days);
  }

  /** `new Date(year, month + 1, 0)` is the last date of the month. */
  lemma LastDateOfMonth(year: int, month: int)
    ensures DayOfMonth(MakeDate(year, month + 1, 0)) == LengthOf(NormalizeMonth(year, month))
  {
    MonthLengthBounds(NormalizeMonth(year, month).year, NormalizeMonth(year, month).month);
    LastOfMonth(year, month);
    PartsOfMakeDate(year, month, LengthOf(NormalizeMonth(year, month)));
  }

  /** The consecutive days from the first of a month, as many as the month
      has, are that month's dates 1, 2, … in order, from its start to its end. */
  lemma MonthDaysFacts(year: int, month: int, days: seq<Day>)
    requires |days| == LengthOf(NormalizeMonth(year, month))
    requires forall k :: 0 <= k < |days| ==> days[k] == MakeDate(year, month, 1) + k
    ensures forall i :: 0 <= i < |days| ==>
      && FullYear(days[i]) == NormalizeMonth(year, month).year
      && MonthIndex(days[i]) == NormalizeMonth(year, month).month - 1
      && DayOfMonth(days[i]) == i + 1
    ensures days[0] == StartOfMonth(days[0]) && days[|days| - 1] == EndOfMonth(days[0])
  {
    var ym := NormalizeMonth(year, month);
    MonthLengthBounds(ym.year, ym.month);
    forall k | 0 <= k < |days|
      ensures FullYear(days[k]) == ym.year && MonthIndex(days[k]) == ym.month - 1 && DayOfMonth(days[k]) == k + 1
    {
      assert days[k] == MakeDate(year, month, k + 1);
      PartsOfMakeDate(year, month, k + 1);
    }
    assert MonthLength(days[0]) == |days|;
  }

  /** Number of business days in the half-open range [from, to). */
  function CountBusinessDays(h: Holidays, from: Day, to: Day): nat
    decreases to - from
  {
    if to <= from then 0
    else (if IsBusinessDay(h, from) then 1 else 0) + CountBusinessDays(h, from + 1, to)
  }

  /** Counting over adjacent ranges adds up. */
  lemma {:induction false} CountSplit(h: Holidays, a: Day, b: Day, c: Day)
    requires a <= b <= c
    ensures CountBusinessDays(h, a, c) == CountBusinessDays(h, a, b) + CountBusinessDays(h, b, c)
    decreases b - a
  {
    if a < b {
      CountSplit(h, a + 1, b, c);
    }
  }

  /** A longer range holds at least as many business days. */
  lemma CountAscends(h: Holidays, a: Day, b: Day, c: Day)
    requires b <= c
    ensures CountBusinessDays(h, a, b) <= CountBusinessDays(h, a, c)
  {
    if a <= b {
      CountSplit(h, a, b, c);
    }
  }

  /** A range holds no business day exactly when its count is zero. */
  lemma {:induction false} CountZero(h: Holidays, a: Day, b: Day)
    ensures CountBusinessDays(h, a, b) == 0 <==> forall k :: a <= k < b ==> !IsBusinessDay(h, k)
    decreases b - a
  {
    if a < b {
      CountZero(h, a + 1, b);
    }
  }

  lemma WeekdayStep(t: Day)
    ensures Weekday(t + 1) == (Weekday(t) + 1) % 7
    ensures Weekday(t - 1) == (Weekday(t) + 6) % 7
  {
  }

  /** Without holidays, any seven consecutive days hold exactly five
      business days: the weekend is exactly Saturday and Sunday. */
  lemma FiveBusinessDaysAWeek(t: Day)
    ensures CountBusinessDays({}, t, t + 7) == 5
  {
    WeekAsSum(t);
    FiveWorkdays(t);
  }

  /** 1 on a weekday, 0 on a weekend day. */
  function Workday(t: Day): nat {
    if IsWeekend(t) then 0 else 1
  }

  lemma WeekAsSum(t: Day)
    ensures CountBusinessDays({}, t, t + 7) == Workday(t) + Workday(t + 1) + Workday(t + 2) + Workday(t + 3) + Workday(t + 4) + Workday(t + 5) + Workday(t + 6)
  {
    assert CountBusinessDays({}, t + 6, t + 7) == Workday(t + 6) + CountBusinessDays({}, t + 7, t + 7);
    assert CountBusinessDays({}, t + 5, t + 7) == Workday(t + 5) + CountBusinessDays({}, t + 6, t + 7);
    assert CountBusinessDays({}, t + 4, t + 7) == Workday(t + 4) + CountBusinessDays({}, t + 5, t + 7);
    assert CountBusinessDays({}, t + 3, t + 7) == Workday(t + 3) + CountBusinessDays({}, t + 4, t + 7);
    assert CountBusinessDays({}, t + 2, t + 7) == Workday(t + 2) + CountBusinessDays({}, t + 3, t + 7);
    assert CountBusinessDays({}, t + 1, t + 7) == Workday(t + 1) + CountBusinessDays({}, t + 2, t + 7);
    assert CountBusinessDays({}, t + 0, t + 7) == Workday(t + 0) + CountBusinessDays({}, t + 1, t + 7);
  }

  lemma FiveWorkdays(t: Day)
    ensures Workday(t) + Workday(t + 1) + Workday(t + 2) + Workday(t + 3) + Workday(t + 4) + Workday(t + 5) + Workday(t + 6) == 5
  {
    var w := Weekday(t);
    assert Weekday(t + 1) == if w + 1 < 7 then w + 1 else w + 1 - 7;
    assert Weekday(t + 2) == if w + 2 < 7 then w + 2 else w + 2 - 7;
    assert Weekday(t + 3) == if w + 3 < 7 then w + 3 else w + 3 - 7;
    assert Weekday(t + 4) == if w + 4 < 7 then w + 4 else w + 4 - 7;
    assert Weekday(t + 5) == if w + 5 < 7 then w + 5 else w + 5 - 7;
    assert Weekday(t + 6) == if w + 6 < 7 then w + 6 else w + 6 - 7;
  }

  lemma HasElement(h: Holidays)
    requires h != {}
    ensures exists x :: x in h
  {
    if forall y :: y !in h {
      assert false;
    }
  }

  /** A day after every holiday. */
  ghost function Horizon(h: Holidays): (b: Day)
    ensures forall x :: x in h ==> x < b
  {
    if h == {} then 0
    else
      HasElement(h);
      var x :| x in h;
      var rest := Horizon(h - {x});
      assert forall y :: y in h ==> y == x || y in h - {x};
      if x < rest then rest else x + 1
  }

  /** A day before every holiday. */
  ghost function Floor(h: Holidays): (b: Day)
    ensures forall x :: x in h ==> b < x
  {
    if h == {} then 0
    else
      HasElement(h);
      var x :| x in h;
      var rest := Floor(h - {x});
      assert forall y :: y in h ==> y == x || y in h - {x};
      if rest < x then rest else x - 1
  }

  /** Bounds how many more days a forward scan from `t` can pass before a
      business day: up to the horizon, then at most a weekend. */
  ghost function ForwardMeasure(h: Holidays, t: Day): nat {
    if t < Horizon(h) then Horizon(h) - t + 2
    else if Weekday(t) == 6 then 2
    else if Weekday(t) == 0 then 1
    else 0
  }

  /** Bounds how many more days a backward scan from `t` can pass before a business day. */
  ghost function BackwardMeasure(h: Holidays, t: Day): nat {
    if t > Floor(h) then t - Floor(h) + 2
    else if Weekday(t) == 0 then 2
    else if Weekday(t) == 6 then 1
    else 0
  }

  lemma ForwardProgress(h: Holidays, t: Day)
    requires !IsBusinessDay(h, t)
    ensures ForwardMeasure(h, t + 1) < ForwardMeasure(h, t)
  {
    WeekdayStep(t);
  }

  lemma BackwardProgress(h: Holidays, t: Day)
    requires !IsBusinessDay(h, t)
    ensures BackwardMeasure(h, t - 1) < BackwardMeasure(h, t)
  {
    WeekdayStep(t);
  }

  /** `addBusinessDays`: steps one day at a time, spending one of `days` on
      each business day, and stops on the business day that spends the last. */
  function AddBusinessDays(h: Holidays, t: Day, days: int): (r: Day)
    ensures days <= 0 ==> r == t
    ensures days > 0 ==> t < r && IsBusinessDay(h, r) && CountBusinessDays(h, t + 1, r + 1) == days
    decreases if days > 0 then days else 0, ForwardMeasure(h, t + 1)
  {
    if days <= 0 then t
    else
      var next := AddDays(t, 1);
      if IsBusinessDay(h, next) then AddBusinessDays(h, next, days - 1)
      else
        ForwardProgress(h, next);
        AddBusinessDays(h, next, days)
  }

  /** `addMonths(startOfMonth(t), 1)` is the first day of the following
      month, the day after the end of this one; December rolls over into
      January of the next year. */
  lemma NextMonthStart(t: Day)
    ensures AddMonths(StartOfMonth(t), 1) == EndOfMonth(t) + 1
    ensures var n := AddMonths(StartOfMonth(t), 1);
      && DayOfMonth(n) == 1
      && MonthIndex(n) == (if MonthIndex(t) == 11 then 0 else MonthIndex(t) + 1)
      && FullYear(n) == (if MonthIndex(t) == 11 then FullYear(t) + 1 else FullYear(t))
  {
    NextMonthIsDayAfterEnd(t);
    NextMonthParts(t);
  }

  lemma NextMonthIsDayAfterEnd(t: Day)
    ensures AddMonths(StartOfMonth(t), 1) == EndOfMonth(t) + 1
  {
    var y, mi := FullYear(t), MonthIndex(t);
    var s := StartOfMonth(t);
    assert FullYear(s) == y && MonthIndex(s) == mi && DayOfMonth(s) == 1;
    MakeDateOfParts(t);
    MonthLengthBounds(NormalizeMonth(y, mi + 1).year, NormalizeMonth(y, mi + 1).month);
    assert AddMonths(s, 1) == MakeDate(y, mi + 1, 1);
    assert EndOfMonth(t) == MakeDate(y, mi + 1, 0);
  }

  lemma NextMonthParts(t: Day)
    ensures var n := AddMonths(StartOfMonth(t), 1);
      && DayOfMonth(n) == 1
      && MonthIndex(n) == (if MonthIndex(t) == 11 then 0 else MonthIndex(t) + 1)
      && FullYear(n) == (if MonthIndex(t) == 11 then FullYear(t) + 1 else FullYear(t))
  {
    var y, mi := FullYear(t), MonthIndex(t);
    MakeDateOfParts(t);
    var target := NormalizeMonth(y, mi + 1);
    MonthLengthBounds(target.year, target.month);
    var expected := if mi == 11 then YearMonth(y + 1, 1) else YearMonth(y, mi + 2);
    YearMonthUnique(target, expected);
  }
}
