/** The release-schedule calculator (src/lib/release.ts): weekly cycles of
    development, QA and release over the current and the next month. */
module Release {
  import opened Wrappers
  import opened Civil
  import opened Dates
  import opened Versions

  /** `Period`: a first and a last day, both inclusive. */
  datatype Period = Period(start: Day, end: Day)

  /** `ReleaseSchedule`: one weekly cycle; the release day is absent when it
      would fall after the end of the month. */
  datatype ReleaseSchedule = ReleaseSchedule(
    version: Version,
    developmentPeriod: Period,
    qaPeriod: Period,
    releaseDate: Option<Day>)

  /** `findNthBusinessDay`: walks forward from `weekStart` and stops on the
      `n`-th business day it meets; for `n <= 0` the walk never starts. */
  function FindNthBusinessDay(h: Holidays, weekStart: Day, n: int): (r: Day)
    ensures n <= 0 ==> r == weekStart
    ensures n >= 1 ==> weekStart <= r && IsBusinessDay(h, r) && CountBusinessDays(h, weekStart, r) == n - 1
    decreases if n > 0 then n else 0, ForwardMeasure(h, weekStart)
  {
    if n <= 0 then weekStart
    else if IsBusinessDay(h, weekStart) then
      if n == 1 then weekStart else FindNthBusinessDay(h, AddDays(weekStart, 1), n - 1)
    else
      ForwardProgress(h, weekStart);
      FindNthBusinessDay(h, AddDays(weekStart, 1), n)
  }

  /** The `n`-th business day from `d` is the only business day at or after
      `d` with `n - 1` business days before it. */
  lemma NthBusinessDayUnique(h: Holidays, d: Day, n: int, r: Day)
    requires n >= 1 && d <= r && IsBusinessDay(h, r) && CountBusinessDays(h, d, r) == n - 1
    ensures FindNthBusinessDay(h, d, n) == r
  {
    var q := FindNthBusinessDay(h, d, n);
    if q < r {
      BusinessDayCounts(h, d, q, r);
    } else if r < q {
      BusinessDayCounts(h, d, r, q);
    }
  }

  /** A business day at `a` is counted in any range [from, b) that holds it. */
  lemma BusinessDayCounts(h: Holidays, from: Day, a: Day, b: Day)
    requires from <= a < b && IsBusinessDay(h, a)
    ensures CountBusinessDays(h, from, b) > CountBusinessDays(h, from, a)
  {
    CountSplit(h, from, a, b);
  }

  /** Later business days of the same walk come strictly later. */
  lemma NthAscending(h: Holidays, d: Day, m: int, n: int)
    requires 1 <= m < n
    ensures FindNthBusinessDay(h, d, m) < FindNthBusinessDay(h, d, n)
  {
    var p, q := FindNthBusinessDay(h, d, m), FindNthBusinessDay(h, d, n);
    if q <= p {
      CountAscends(h, d, q, p);
    }
  }

  /** A walk that starts later ends no earlier. */
  lemma NthMonotone(h: Holidays, a: Day, b: Day, n: int)
    requires a <= b && n >= 1
    ensures FindNthBusinessDay(h, a, n) <= FindNthBusinessDay(h, b, n)
  {
    CountOrder(h, a, b, FindNthBusinessDay(h, a, n), FindNthBusinessDay(h, b, n), n - 1);
  }

  /** A business day `q` with `c` business days before it from `b` comes no
      earlier than any day `p` with `c` business days before it from `a <= b`. */
  lemma CountOrder(h: Holidays, a: Day, b: Day, p: Day, q: Day, c: int)
    requires a <= b <= q && a <= p && IsBusinessDay(h, q)
    requires CountBusinessDays(h, a, p) == c && CountBusinessDays(h, b, q) == c
    ensures p <= q
  {
    if q < p {
      BusinessDayCounts(h, b, q, q + 1);
      CountSplit(h, a, b, q + 1);
      CountAscends(h, a, q + 1, p);
    }
  }

  /** `addBusinessDays(t, n)` for `n >= 1` is the `n`-th business day of the
      walk that starts the day after `t`. */
  lemma AddBusinessDaysIsNth(h: Holidays, t: Day, n: int)
    requires n >= 1
    ensures AddBusinessDays(h, t, n) == FindNthBusinessDay(h, t + 1, n)
  {
    var r := AddBusinessDays(h, t, n);
    CountSplit(h, t + 1, r, r + 1);
    NthBusinessDayUnique(h, t + 1, n, r);
  }

  /** The forward scan for the start of the development window: the first
      business day at or after `t`. */
  function FirstBusinessDayFrom(h: Holidays, t: Day): (r: Day)
    ensures t <= r && IsBusinessDay(h, r)
    ensures forall k :: t <= k < r ==> !IsBusinessDay(h, k)
    decreases ForwardMeasure(h, t)
  {
    if IsBusinessDay(h, t) then t
    else
      ForwardProgress(h, t);
      FirstBusinessDayFrom(h, AddDays(t, 1))
  }

  /** The backward scan for the end of the development window: the last
      business day at or before `t`. */
  function LastBusinessDayUpTo(h: Holidays, t: Day): (r: Day)
    ensures r <= t && IsBusinessDay(h, r)
    ensures forall k :: r < k <= t ==> !IsBusinessDay(h, k)
    decreases BackwardMeasure(h, t)
  {
    if IsBusinessDay(h, t) then t
    else
      BackwardProgress(h, t);
      LastBusinessDayUpTo(h, AddDays(t, -1))
  }

  /** The forward scan finds the same day as the walk for the first business day. */
  lemma FirstIsFirstNth(h: Holidays, t: Day)
    ensures FirstBusinessDayFrom(h, t) == FindNthBusinessDay(h, t, 1)
  {
    var r := FirstBusinessDayFrom(h, t);
    CountZero(h, t, r);
    NthBusinessDayUnique(h, t, 1, r);
  }

  /** The QA period of the cycle starting on `currentWeek`: its first and
      second business days. */
  function QaPeriodOf(h: Holidays, currentWeek: Day): (p: Period)
    ensures currentWeek <= p.start < p.end
    ensures IsBusinessDay(h, p.start) && IsBusinessDay(h, p.end)
    ensures CountBusinessDays(h, currentWeek, p.start) == 0
    ensures CountBusinessDays(h, currentWeek, p.end) == 1
  {
    NthAscending(h, currentWeek, 1, 2);
    Period(FindNthBusinessDay(h, currentWeek, 1), FindNthBusinessDay(h, currentWeek, 2))
  }

  /** The release day of the cycle starting on `currentWeek`: its third
      business day, or nothing when that day is after `monthEnd`. It is
      nothing exactly when the rest of the month holds fewer than three
      business days. */
  function ReleaseDateOf(h: Holidays, currentWeek: Day, monthEnd: Day): (r: Option<Day>)
    ensures r.None? <==> CountBusinessDays(h, currentWeek, monthEnd + 1) < 3
    ensures r.Some? ==>
      && currentWeek <= r.value <= monthEnd
      && IsBusinessDay(h, r.value)
      && CountBusinessDays(h, currentWeek, r.value) == 2
  {
    var releaseDate := FindNthBusinessDay(h, currentWeek, 3);
    ThirdWithinMonth(h, currentWeek, monthEnd);
    if releaseDate > monthEnd then None else Some(releaseDate)
  }

  lemma ThirdWithinMonth(h: Holidays, currentWeek: Day, monthEnd: Day)
    ensures FindNthBusinessDay(h, currentWeek, 3) <= monthEnd <==> CountBusinessDays(h, currentWeek, monthEnd + 1) >= 3
  {
    WithinBound(h, currentWeek, FindNthBusinessDay(h, currentWeek, 3), monthEnd, 2);
  }

  /** A business day `r` with `c` business days before it from `a` lies at
      or before `e` exactly when [a, e] holds more than `c` business days. */
  lemma WithinBound(h: Holidays, a: Day, r: Day, e: Day, c: int)
    requires a <= r && IsBusinessDay(h, r) && CountBusinessDays(h, a, r) == c
    ensures r <= e <==> CountBusinessDays(h, a, e + 1) > c
  {
    if r <= e {
      BusinessDayCounts(h, a, r, r + 1);
      CountAscends(h, a, r + 1, e + 1);
    } else {
      CountAscends(h, a, e + 1, r);
    }
  }

  /** The development period of the cycle starting on `currentWeek`: from the
      first business day on or after the day a week earlier to the last
      business day on or before the day before. Every business day of that
      week lies within it, and it runs forwards exactly when the week holds
      a business day. */
  function DevelopmentPeriodOf(h: Holidays, currentWeek: Day): (p: Period)
    ensures currentWeek - 7 <= p.start && IsBusinessDay(h, p.start)
    ensures forall k :: currentWeek - 7 <= k < p.start ==> !IsBusinessDay(h, k)
    ensures p.end <= currentWeek - 1 && IsBusinessDay(h, p.end)
    ensures forall k :: p.end < k <= currentWeek - 1 ==> !IsBusinessDay(h, k)
  {
    var devWeekStart := AddDays(currentWeek, -7);
    var devWeekEnd := AddDays(currentWeek, -1);
    Period(FirstBusinessDayFrom(h, devWeekStart), LastBusinessDayUpTo(h, devWeekEnd))
  }

  /** The development period runs forwards exactly when the week before the
      cycle holds a business day; otherwise it is inverted, starting on or
      after the cycle start and ending more than a week before it. */
  lemma DevelopmentPeriodDirection(h: Holidays, currentWeek: Day)
    ensures var p := DevelopmentPeriodOf(h, currentWeek);
      p.start <= p.end <==> CountBusinessDays(h, currentWeek - 7, currentWeek) > 0
    ensures var p := DevelopmentPeriodOf(h, currentWeek);
      CountBusinessDays(h, currentWeek - 7, currentWeek) == 0 ==> p.end < currentWeek - 7 && currentWeek <= p.start
  {
    var p := DevelopmentPeriodOf(h, currentWeek);
    CountZero(h, currentWeek - 7, currentWeek);
    if p.start <= p.end {
      assert currentWeek - 7 <= p.start < currentWeek;
    }
  }

  /** One weekly cycle of `calculateMonthReleases`, for the week starting on
      `currentWeek` in the month ending on `monthEnd`. */
  function Cycle(h: Holidays, version: Version, currentWeek: Day, monthEnd: Day): (s: ReleaseSchedule)
    ensures s.version == version
    ensures s.releaseDate.Some? ==> s.qaPeriod.end < s.releaseDate.value
  {
    ReleaseAfterQa(h, currentWeek, monthEnd);
    ReleaseSchedule(version, DevelopmentPeriodOf(h, currentWeek), QaPeriodOf(h, currentWeek), ReleaseDateOf(h, currentWeek, monthEnd))
  }

  lemma ReleaseAfterQa(h: Holidays, currentWeek: Day, monthEnd: Day)
    ensures ReleaseDateOf(h, currentWeek, monthEnd).Some? ==>
      QaPeriodOf(h, currentWeek).end < ReleaseDateOf(h, currentWeek, monthEnd).value
  {
    var qa := QaPeriodOf(h, currentWeek);
    var release := ReleaseDateOf(h, currentWeek, monthEnd);
    if release.Some? && release.value <= qa.end {
      CountAscends(h, currentWeek, release.value, qa.end);
    }
  }

  /** Number of 7-day steps from `start` that begin on or before `monthEnd`. */
  function WeekCount(start: Day, monthEnd: Day): nat {
    if start <= monthEnd then (monthEnd - start) / 7 + 1 else 0
  }

  /** The loop of `calculateMonthReleases` from the cycle starting on
      `currentWeek`: while the week starts within the month, push the cycle
      of that week with the current version, then move on a week and
      increment the version. */
  function MonthLoop(h: Holidays, version: Version, currentWeek: Day, monthEnd: Day): (s: seq<ReleaseSchedule>)
    ensures |s| == WeekCount(currentWeek, monthEnd)
    decreases monthEnd - currentWeek + 7
  {
    if currentWeek > monthEnd then []
    else [Cycle(h, version, currentWeek, monthEnd)] + MonthLoop(h, IncrementVersion(version), AddDays(currentWeek, 7), monthEnd)
  }

  /** Start day of the cycle `k` weeks after the one starting on `first`. */
  function WeekStart(first: Day, k: nat): Day {
    first + 7 * k
  }

  /** The schedules of the weeks from `start`, each worked out on its own:
      the `i`-th from the version incremented `i` times and the week `i`
      weeks on. */
  function WeeklyCycles(h: Holidays, baseVersion: Version, start: Day, monthEnd: Day): (s: seq<ReleaseSchedule>)
    ensures |s| == WeekCount(start, monthEnd)
    ensures forall i {:trigger s[i]} :: 0 <= i < |s| ==>
      s[i] == Cycle(h, IncrementVersionTimes(baseVersion, i), WeekStart(start, i), monthEnd)
  {
    seq(WeekCount(start, monthEnd),
      i requires 0 <= i => Cycle(h, IncrementVersionTimes(baseVersion, i), WeekStart(start, i), monthEnd))
  }

  /** The loop computes the weekly cycles: its `i`-th pass sees the version
      incremented `i` times and the week `i` weeks after the first. */
  lemma {:induction false} MonthLoopIsWeeklyCycles(h: Holidays, version: Version, currentWeek: Day, monthEnd: Day)
    ensures MonthLoop(h, version, currentWeek, monthEnd) == WeeklyCycles(h, version, currentWeek, monthEnd)
    decreases monthEnd - currentWeek + 7
  {
    if currentWeek <= monthEnd {
      var s := MonthLoop(h, version, currentWeek, monthEnd);
      var w := WeeklyCycles(h, version, currentWeek, monthEnd);
      MonthLoopIsWeeklyCycles(h, IncrementVersion(version), currentWeek + 7, monthEnd);
      forall i | 0 <= i < |s|
        ensures s[i] == w[i]
      {
        LoopPass(h, version, currentWeek, monthEnd, i);
      }
    }
  }

  /** Pass `i` of the loop from `currentWeek` is the cycle of week `i`,
      given that the loop from the following week computes its weekly
      cycles. */
  lemma LoopPass(h: Holidays, version: Version, currentWeek: Day, monthEnd: Day, i: nat)
    requires currentWeek <= monthEnd && i < WeekCount(currentWeek, monthEnd)
    requires MonthLoop(h, IncrementVersion(version), currentWeek + 7, monthEnd)
      == WeeklyCycles(h, IncrementVersion(version), currentWeek + 7, monthEnd)
    ensures MonthLoop(h, version, currentWeek, monthEnd)[i] == WeeklyCycles(h, version, currentWeek, monthEnd)[i]
  {
    MonthLoopStep(h, version, currentWeek, monthEnd);
    if i == 0 {
      FirstPass(h, version, currentWeek, monthEnd);
    } else {
      NextPassArguments(version, currentWeek, i);
      LaterPass(h, version, currentWeek, monthEnd, i);
    }
  }

  /** The first pass pushes the cycle of the first week with the version
      it was given. */
  lemma FirstPass(h: Holidays, version: Version, currentWeek: Day, monthEnd: Day)
    requires currentWeek <= monthEnd
    ensures MonthLoop(h, version, currentWeek, monthEnd)[0] == WeeklyCycles(h, version, currentWeek, monthEnd)[0]
  {
    var first := Cycle(h, version, currentWeek, monthEnd);
    var rest := MonthLoop(h, IncrementVersion(version), currentWeek + 7, monthEnd);
    MonthLoopStep(h, version, currentWeek, monthEnd);
    assert IncrementVersionTimes(version, 0) == version;
    assert WeekStart(currentWeek, 0) == currentWeek;
    PickFirst(MonthLoop(h, version, currentWeek, monthEnd), [first], rest, 0, first);
  }

  /** A later pass `i` is pass `i - 1` of the loop from the following week. */
  lemma LaterPass(h: Holidays, version: Version, currentWeek: Day, monthEnd: Day, i: nat)
    requires currentWeek <= monthEnd && 1 <= i < WeekCount(currentWeek, monthEnd)
    ensures MonthLoop(h, version, currentWeek, monthEnd)[i]
      == MonthLoop(h, IncrementVersion(version), currentWeek + 7, monthEnd)[i - 1]
  {
    var first := Cycle(h, version, currentWeek, monthEnd);
    var rest := MonthLoop(h, IncrementVersion(version), currentWeek + 7, monthEnd);
    MonthLoopStep(h, version, currentWeek, monthEnd);
    PickSecond(MonthLoop(h, version, currentWeek, monthEnd), [first], rest, 1, i, rest[i - 1]);
  }

  /** One pass of the loop, then the loop from the following week. */
  lemma MonthLoopStep(h: Holidays, version: Version, currentWeek: Day, monthEnd: Day)
    requires currentWeek <= monthEnd
    ensures MonthLoop(h, version, currentWeek, monthEnd)
      == [Cycle(h, version, currentWeek, monthEnd)] + MonthLoop(h, IncrementVersion(version), currentWeek + 7, monthEnd)
  {
  }

  /** The pass after the first, `i - 1` passes on, sees what pass `i` sees. */
  lemma NextPassArguments(version: Version, currentWeek: Day, i: nat)
    requires i >= 1
    ensures IncrementVersionTimes(IncrementVersion(version), i - 1) == IncrementVersionTimes(version, i)
    ensures WeekStart(currentWeek + 7, i - 1) == WeekStart(currentWeek, i)
  {
    IncrementTimesShift(version, i - 1);
  }

  /** Number of weekly cycles in the month of `t`: five when the month has a
      29th day, four otherwise. */
  function CycleCount(t: Day): nat {
    if MonthLength(t) >= 29 then 5 else 4
  }

  /** `calculateMonthReleases`: the loop from the 1st of the month of
      `month` to its last day, with versions counted up from `baseVersion`. */
  function CalculateMonthReleases(h: Holidays, baseVersion: Version, month: Day): (s: seq<ReleaseSchedule>)
    ensures |s| == CycleCount(month)
    ensures forall i {:trigger s[i]} :: 0 <= i < |s| ==>
      s[i] == Cycle(h, IncrementVersionTimes(baseVersion, i), WeekStart(StartOfMonth(month), i), EndOfMonth(month))
  {
    CycleCountOfMonth(month);
    MonthLoopIsWeeklyCycles(h, baseVersion, StartOfMonth(month), EndOfMonth(month));
    MonthLoop(h, baseVersion, StartOfMonth(month), EndOfMonth(month))
  }

  /** A month is four whole weeks and, from the 29th on, part of a fifth. */
  lemma CycleCountOfMonth(month: Day)
    ensures WeekCount(StartOfMonth(month), EndOfMonth(month)) == CycleCount(month)
  {
    MakeDateOfParts(month);
  }

  /** The cycles start on the 1st, 8th, 15th, 22nd and (in months that have
      one) 29th of the month. */
  lemma CycleStartDates(month: Day, i: nat)
    requires i < CycleCount(month)
    ensures var t := StartOfMonth(month) + 7 * i;
      FullYear(t) == FullYear(month) && MonthIndex(t) == MonthIndex(month) && DayOfMonth(t) == 1 + 7 * i
  {
    MakeDateOfParts(month);
    PartsOfMakeDate(FullYear(month), MonthIndex(month), 1 + 7 * i);
  }

  /** `calculateReleaseSchedules`, with the current day `today` given: the
      cycles of this month from `baseVersion`, then those of the next month
      from `baseVersion` incremented once. */
  function CalculateReleaseSchedules(h: Holidays, baseVersion: Version, today: Day): (s: seq<ReleaseSchedule>)
    ensures |s| == CycleCount(today) + CycleCount(EndOfMonth(today) + 1)
  {
    var thisMonth := StartOfMonth(today);
    var nextMonth := AddMonths(thisMonth, 1);
    NextMonthStart(today);
    CalculateMonthReleases(h, baseVersion, thisMonth) + CalculateMonthReleases(h, IncrementVersion(baseVersion), nextMonth)
  }

  /** Start day of the `i`-th cycle of `calculateReleaseSchedules`. */
  function CycleWeek(today: Day, i: nat): Day {
    if i < CycleCount(today) then WeekStart(StartOfMonth(today), i)
    else WeekStart(EndOfMonth(today) + 1, i - CycleCount(today))
  }

  /** Last day of the month of the `i`-th cycle. */
  function CycleMonthEnd(today: Day, i: nat): Day {
    if i < CycleCount(today) then EndOfMonth(today) else EndOfMonth(EndOfMonth(today) + 1)
  }

  /** Version of the `i`-th cycle: counted up from the base version in this
      month, and afresh from the base version incremented once in the next. */
  function CycleVersion(baseVersion: Version, today: Day, i: nat): Version {
    if i < CycleCount(today) then IncrementVersionTimes(baseVersion, i)
    else IncrementVersionTimes(IncrementVersion(baseVersion), i - CycleCount(today))
  }

  /** The `i`-th schedule is the cycle of its week, month and version. */
  lemma ScheduleLayout(h: Holidays, baseVersion: Version, today: Day, i: nat)
    requires i < |CalculateReleaseSchedules(h, baseVersion, today)|
    ensures CalculateReleaseSchedules(h, baseVersion, today)[i]
      == Cycle(h, CycleVersion(baseVersion, today, i), CycleWeek(today, i), CycleMonthEnd(today, i))
  {
    var s := CalculateReleaseSchedules(h, baseVersion, today);
    var a := WeeklyCycles(h, baseVersion, StartOfMonth(today), EndOfMonth(today));
    var b := WeeklyCycles(h, IncrementVersion(baseVersion), EndOfMonth(today) + 1, EndOfMonth(EndOfMonth(today) + 1));
    SchedulesByWeek(h, baseVersion, today);
    if i < CycleCount(today) {
      PickFirst(s, a, b, i, a[i]);
    } else {
      PickSecond(s, a, b, CycleCount(today), i, b[i - CycleCount(today)]);
    }
  }

  /** An index into the first part of a concatenation. */
  lemma PickFirst<T>(s: seq<T>, a: seq<T>, b: seq<T>, i: nat, x: T)
    requires s == a + b && i < |a| && a[i] == x
    ensures s[i] == x
  {
  }

  /** An index into the second part of a concatenation, `n` being the
      length of the first. */
  lemma PickSecond<T>(s: seq<T>, a: seq<T>, b: seq<T>, n: nat, i: nat, x: T)
    requires s == a + b && |a| == n <= i < n + |b| && b[i - n] == x
    ensures s[i] == x
  {
  }

  /** `calculateReleaseSchedules` as the weekly cycles of this month followed
      by those of the next. */
  lemma SchedulesByWeek(h: Holidays, baseVersion: Version, today: Day)
    ensures CalculateReleaseSchedules(h, baseVersion, today)
      == WeeklyCycles(h, baseVersion, StartOfMonth(today), EndOfMonth(today))
       + WeeklyCycles(h, IncrementVersion(baseVersion), EndOfMonth(today) + 1, EndOfMonth(EndOfMonth(today) + 1))
    ensures |WeeklyCycles(h, baseVersion, StartOfMonth(today), EndOfMonth(today))| == CycleCount(today)
    ensures |WeeklyCycles(h, IncrementVersion(baseVersion), EndOfMonth(today) + 1, EndOfMonth(EndOfMonth(today) + 1))|
      == CycleCount(EndOfMonth(today) + 1)
  {
    NextMonthStart(today);
    MonthBoundsOfStart(today);
    var next := EndOfMonth(today) + 1;
    assert StartOfMonth(next) == next;
    CycleCountOfMonth(today);
    CycleCountOfMonth(next);
    MonthLoopIsWeeklyCycles(h, baseVersion, StartOfMonth(today), EndOfMonth(today));
    MonthLoopIsWeeklyCycles(h, IncrementVersion(baseVersion), next, EndOfMonth(next));
  }

  /** Each month of `calculateReleaseSchedules` starts from the version after
      the base, so the second schedule of this month and the first of the
      next month carry the same version. */
  lemma VersionRepeats(h: Holidays, baseVersion: Version, today: Day)
    ensures var s := CalculateReleaseSchedules(h, baseVersion, today);
      s[1].version == s[CycleCount(today)].version == IncrementVersion(baseVersion)
  {
    ScheduleVersion(h, baseVersion, today, 1);
    ScheduleVersion(h, baseVersion, today, CycleCount(today));
    RepeatedVersion(baseVersion, today);
  }

  /** The second cycle of this month and the first of the next month are
      both one increment past the base version. */
  lemma RepeatedVersion(baseVersion: Version, today: Day)
    ensures CycleVersion(baseVersion, today, 1) == IncrementVersion(baseVersion)
    ensures CycleVersion(baseVersion, today, CycleCount(today)) == IncrementVersion(baseVersion)
  {
    IncrementTimesClosedForm(baseVersion, 1);
    IncrementTimesClosedForm(IncrementVersion(baseVersion), 0);
  }

  /** The version of the `i`-th schedule. */
  lemma ScheduleVersion(h: Holidays, baseVersion: Version, today: Day, i: nat)
    requires i < |CalculateReleaseSchedules(h, baseVersion, today)|
    ensures CalculateReleaseSchedules(h, baseVersion, today)[i].version == CycleVersion(baseVersion, today, i)
  {
    ScheduleLayout(h, baseVersion, today, i);
  }

  /** The cycles of the next month start on its 1st, 8th, …; a January
      follows a December. */
  lemma NextMonthWeekDates(today: Day, k: nat)
    requires k < CycleCount(EndOfMonth(today) + 1)
    ensures var t := EndOfMonth(today) + 1 + 7 * k;
      && FullYear(t) == (if MonthIndex(today) == 11 then FullYear(today) + 1 else FullYear(today))
      && MonthIndex(t) == (if MonthIndex(today) == 11 then 0 else MonthIndex(today) + 1)
      && DayOfMonth(t) == 1 + 7 * k
  {
    var next := EndOfMonth(today) + 1;
    FollowingMonth(today);
    WeeksFitMonth(next, k);
    ShiftWithinMonth(next, EndOfMonth(today) + 1 + 7 * k);
  }

  /** The cycles of a month start within it. */
  lemma WeeksFitMonth(t: Day, k: nat)
    requires k < CycleCount(t)
    ensures 7 * k < MonthLength(t)
  {
  }

  /** The day after the end of a month is the 1st of the following month. */
  lemma FollowingMonth(today: Day)
    ensures var next := EndOfMonth(today) + 1;
      && StartOfMonth(next) == next && DayOfMonth(next) == 1
      && FullYear(next) == (if MonthIndex(today) == 11 then FullYear(today) + 1 else FullYear(today))
      && MonthIndex(next) == (if MonthIndex(today) == 11 then 0 else MonthIndex(today) + 1)
  {
    NextMonthStart(today);
  }

  /** Cycle weeks never go backwards. */
  lemma CycleWeekAscending(today: Day, i: nat, j: nat)
    requires i <= j < CycleCount(today) + CycleCount(EndOfMonth(today) + 1)
    ensures CycleWeek(today, i) <= CycleWeek(today, j)
  {
    CycleCountOfMonth(today);
    MakeDateOfParts(today);
  }

  /** Schedules are emitted in the order of their cycles: QA periods and
      development periods never move backwards from one schedule to the next. */
  lemma SchedulesAscending(h: Holidays, baseVersion: Version, today: Day, i: nat, j: nat)
    requires i <= j < |CalculateReleaseSchedules(h, baseVersion, today)|
    ensures var s := CalculateReleaseSchedules(h, baseVersion, today);
      && s[i].qaPeriod.start <= s[j].qaPeriod.start
      && s[i].qaPeriod.end <= s[j].qaPeriod.end
      && s[i].developmentPeriod.start <= s[j].developmentPeriod.start
      && s[i].developmentPeriod.end <= s[j].developmentPeriod.end
  {
    ScheduleLayout(h, baseVersion, today, i);
    ScheduleLayout(h, baseVersion, today, j);
    var a, b := CycleWeek(today, i), CycleWeek(today, j);
    CycleWeekAscending(today, i, j);
    NthMonotone(h, a, b, 1);
    NthMonotone(h, a, b, 2);
    FirstMonotone(h, a - 7, b - 7);
    LastMonotone(h, a - 1, b - 1);
  }

  lemma FirstMonotone(h: Holidays, a: Day, b: Day)
    requires a <= b
    ensures FirstBusinessDayFrom(h, a) <= FirstBusinessDayFrom(h, b)
  {
  }

  lemma LastMonotone(h: Holidays, a: Day, b: Day)
    requires a <= b
    ensures LastBusinessDayUpTo(h, a) <= LastBusinessDayUpTo(h, b)
  {
  }

  /** `isDevelopmentDate`: within the period, both ends included, and a business day. */
  predicate IsDevelopmentDate(h: Holidays, t: Day, p: Period) {
    t >= p.start && t <= p.end && IsBusinessDay(h, t)
  }

  /** `isQADate`: the same test as `isDevelopmentDate`. */
  predicate IsQADate(h: Holidays, t: Day, p: Period) {
    t >= p.start && t <= p.end && IsBusinessDay(h, t)
  }

  /** The two period tests agree, and both are range membership in the sense
      of `isWithinRange` on business days. */
  lemma PeriodTestsAgree(h: Holidays, t: Day, p: Period)
    ensures IsDevelopmentDate(h, t, p) == IsQADate(h, t, p)
    ensures IsDevelopmentDate(h, t, p) <==> IsWithinRange(t, p.start, p.end) && IsBusinessDay(h, t)
  {
  }

  /** The development days of a cycle are the business days of the week
      before it. */
  lemma DevelopmentDatesOfCycle(h: Holidays, currentWeek: Day, t: Day)
    ensures IsDevelopmentDate(h, t, DevelopmentPeriodOf(h, currentWeek))
      <==> currentWeek - 7 <= t < currentWeek && IsBusinessDay(h, t)
  {
  }

  /** The QA days of a cycle are its first two business days. */
  lemma QaDatesOfCycle(h: Holidays, currentWeek: Day, t: Day)
    ensures IsQADate(h, t, QaPeriodOf(h, currentWeek))
      <==> currentWeek <= t && IsBusinessDay(h, t) && CountBusinessDays(h, currentWeek, t) < 2
  {
    var qa := QaPeriodOf(h, currentWeek);
    if currentWeek <= t && IsBusinessDay(h, t) {
      if t < qa.start {
        BusinessDayCounts(h, currentWeek, t, qa.start);
      } else if qa.end < t {
        BusinessDayCounts(h, currentWeek, qa.end, t);
      } else if t < qa.end {
        CountAscends(h, currentWeek, t, qa.end);
      }
    }
  }
}
