# Release calendar: schedule calculator and date utilities

A Dafny model of the release-schedule calculator of app-release-calender
(`src/lib/release.ts`) and of the calendar-date utilities it relies on
(`src/lib/date.ts`). Each week of a month is a release cycle:
- QA takes the first two business days of the week.
- The release comes on the third business day, unless that day falls after
  the end of the month.
- Development covers the business days of the week before.
- Every cycle bumps the minor version.

`calculateReleaseSchedules` lists the cycles of the current month and then
those of the next month.

Layout:
- `civil.dfy` (module `Civil`): the proleptic Gregorian calendar on day numbers.
  - Day 0 is Thursday 1970-01-01.
  - `FromDays`/`ToDays` convert between day numbers and dates and are proved
    inverse to each other.
  - `MakeDate` is the `new Date(year, monthIndex, date)` constructor. It rolls
    months over into years and dates over into months.
  - `FullYear`, `MonthIndex`, `DayOfMonth` and `Weekday` are `getFullYear`,
    `getMonth`, `getDate` and `getDay`.
- `dates.dfy` (module `Dates`): `src/lib/date.ts`, plus `CountBusinessDays`.
  That function counts the business days in a half-open range and is how
  the business-day walks are specified.
- `release.dfy` (module `Release`): `src/lib/release.ts`, except for the
  version arithmetic and the text formatting.
- `versions.dfy` (module `Versions`): `incrementVersion` on structured
  versions and on version text.
- `format.dfy` (module `ReleaseInfo`): `formatReleaseInfo`.
- `text.dfy` (module `Text`): decimal numerals and `split`.
- `wrappers.dfy` (module `Wrappers`): `Option`.

A date is an integer day number. The holiday table is a parameter `h`, a
finite set of day numbers. Because the set is finite, there is a last
holiday and, after it, at most a weekend before the next business day. That
is the termination argument of every unbounded scan in the source:
- `findNthBusinessDay`
- `addBusinessDays`
- the two development-window scans

The measures are `ForwardMeasure` and `BackwardMeasure`; there is no fuel
cap. The current day, which the source reads from the clock, is the
parameter `today`.

Consequences of the source's logic, stated as lemmas rather than as
corrections:
- **Repeated version.** The next month is seeded with the base version
  incremented once, however many cycles this month had. The second schedule
  of this month therefore carries the same version as the first schedule of
  the next month (`Release.VersionRepeats`).
- **Inverted development window.** When the week before a cycle holds no
  business day, the forward scan ends on or after the cycle start. The
  backward scan ends before that week. The development period is then
  inverted (`Release.DevelopmentPeriodDirection`).

## Model

| member | source | states |
|---|---|---|
| Civil.MakeDate | src/lib/date.ts:57 | no contract of its own: the body is `new Date(year, monthIndex, date)` with month and date rollover; `PartsOfMakeDate`, `LastOfMonth` and `PartsOfOverflow` state what it yields |
| Civil.Weekday | src/lib/date.ts:5 | `getDay` numbering: always 0 (Sunday) to 6 (Saturday) |
| Civil.WeekdayAnchor | src/lib/date.ts:5 | the weekday count matches the calendar: 1 January 2024 is day 19723 and gets weekday 1, a Monday |
| Civil.FromDays | src/lib/date.ts:12-14 | every day number has a valid calendar date (month 1..12, date within the month's length) that converts back to that day number |
| Civil.FromToDays | src/lib/date.ts:10-16 | reading the date of a valid calendar date's day number gives that calendar date back, so year, month and date determine the day |
| Civil.NormalizeMonth | src/lib/date.ts:62 | a month index outside 0..11 rolls over into other years: the result's month is 1..12 and counts the same number of months from year 0 |
| Civil.NormalizeIsFloorDivision | src/lib/date.ts:62 | that rollover is floor division and remainder of the month index by 12 |
| Civil.PartsOfMakeDate | src/lib/date.ts:78 | `new Date(year, month, date)` with a date inside the (rolled-over) month reads back as that year, month and date |
| Civil.LastOfMonth | src/lib/date.ts:62 | date 0 of the next month is the last date of this month |
| Civil.PartsOfOverflow | src/lib/date.ts:68 | a date past the end of the month rolls over into the following month, the surplus becoming the date there |
| Dates.IsWeekend | src/lib/date.ts:4-7 | no contract: the body is the source's Sunday-or-Saturday test on `Weekday` |
| Dates.IsSameDay | src/lib/date.ts:10-16 | no contract: the body compares year, month and date as the source does; `SameDayIsEquality` states what it means |
| Dates.IsWithinRange | src/lib/date.ts:19-21 | no contract: the body is the source's inclusive comparison at both ends |
| Dates.AddDays | src/lib/date.ts:24-28 | no contract: the body is day-number addition; `AddDaysIsSetDate` proves it equal to the source's `setDate` form |
| Dates.IsHoliday | src/lib/date.ts:31-33 | no contract: a lookup in the holiday table `h` |
| Dates.IsBusinessDay | src/lib/date.ts:36-38 | no contract: the body is the source's "not a weekend and not a holiday" |
| Dates.AddDaysIsSetDate | src/lib/date.ts:24-28 | `setDate(getDate() + days)` lands exactly `days` days away, across month and year ends |
| Dates.AddDaysAdditive | src/lib/date.ts:24-28 | moving by `a` then `b` days is moving by `a + b` days; moving by 0 days stays put |
| Dates.FiveBusinessDaysAWeek | src/lib/date.ts:4-7 | with no holidays, every seven consecutive days hold exactly five business days, so the weekend is two days a week |
| Dates.StartOfMonth | src/lib/date.ts:56-58 | same year and month as the argument, date 1, and `date - 1` days before the argument |
| Dates.EndOfMonth | src/lib/date.ts:61-63 | same year and month as the argument, date equal to the month's length, and the remaining days of the month after the argument |
| Dates.MonthBrackets | src/lib/date.ts:56-63 | start of month ≤ day ≤ end of month |
| Dates.MonthBoundsOfStart | src/lib/date.ts:56-63 | start and end of month are idempotent and each maps the other's month to the same bounds |
| Dates.DaysIntoMonth | src/lib/date.ts:57 | `k` days after the 1st, within the month's length, is date `k + 1` of the same month |
| Dates.SameDayIsEquality | src/lib/date.ts:10-16 | `isSameDay` holds exactly for equal days, hence is an equivalence |
| Dates.WithinMonth | src/lib/date.ts:19-21 | the inclusive range from start to end of a month holds exactly the days with that year and month |
| Dates.AddMonths | src/lib/date.ts:66-70 | the month moves by `months` with rollover into years; the date is kept, or rolls over into the following month when the target month is shorter |
| Dates.NextMonthStart | src/lib/date.ts:66-70 | one month after the start of a month is the day after its end: date 1 of the next month, January of the next year after December |
| Dates.GenerateCalendarDays | src/lib/date.ts:73-82 | as many days as the rolled-over month has, the `i`-th being its date `i + 1`, consecutive, from the start to the end of the month |
| Dates.AddBusinessDays | src/lib/date.ts:41-53 | `n <= 0` returns the day itself; otherwise a business day strictly later with exactly `n` business days in (day, result] |
| Release.FindNthBusinessDay | src/lib/release.ts:21-34 | `n <= 0` returns the start; otherwise a business day at or after the start with exactly `n - 1` business days between the start (inclusive) and it |
| Release.NthBusinessDayUnique | src/lib/release.ts:21-34 | any business day with `n - 1` business days before it from the start is the one `findNthBusinessDay` returns |
| Release.NthAscending | src/lib/release.ts:50-54 | the 1st, 2nd and 3rd business days of a week come in strictly increasing order |
| Release.NthMonotone | src/lib/release.ts:50-54 | a walk that starts later ends no earlier |
| Release.AddBusinessDaysIsNth | src/lib/date.ts:41-53 | `addBusinessDays(t, n)` for `n >= 1` is the `n`-th business day counting from the day after `t` |
| Release.FirstBusinessDayFrom | src/lib/release.ts:64-66 | a business day at or after the start with no business day in between |
| Release.LastBusinessDayUpTo | src/lib/release.ts:67-69 | a business day at or before the start with no business day in between |
| Release.FirstIsFirstNth | src/lib/release.ts:64-66 | the forward development scan finds the same day as `findNthBusinessDay(t, 1)` |
| Release.QaPeriodOf | src/lib/release.ts:52-54 | QA runs from the first to the second business day of the cycle week, strictly increasing, both at or after the cycle start |
| Release.ReleaseDateOf | src/lib/release.ts:50-72 | no release day exactly when the rest of the month holds fewer than three business days; otherwise the cycle's third business day, within the month |
| Release.DevelopmentPeriodOf | src/lib/release.ts:56-69 | development starts on the first business day on or after the day a week before the cycle and ends on the last business day on or before the day before it; no business day lies between either window edge and the day found there |
| Release.DevelopmentPeriodDirection | src/lib/release.ts:57-69 | the development period runs forwards exactly when the prior week holds a business day, and is inverted otherwise |
| Release.Cycle | src/lib/release.ts:48-85 | a cycle keeps its version and releases strictly after QA ends |
| Release.MonthLoop | src/lib/release.ts:48-90 | the `while` loop as written: one pass, and one pushed schedule, per 7-day step from the first week while the step starts within the month |
| Release.MonthLoopIsWeeklyCycles | src/lib/release.ts:48-90 | the loop's `i`-th pushed schedule is the cycle of the week `7i` days after the first, with the version incremented `i` times |
| Release.CycleCountOfMonth | src/lib/release.ts:44-48 | a month has five cycles when it has a 29th day and four otherwise |
| Release.CalculateMonthReleases | src/lib/release.ts:39-93 | the loop run from the 1st to the last day of the month gives four or five schedules, the `i`-th being the cycle starting `7i` days after the 1st with the base version incremented `i` times |
| Release.CycleStartDates | src/lib/release.ts:44-88 | the cycles start on dates 1, 8, 15, 22 (and 29) of the month |
| Release.NextMonthWeekDates | src/lib/release.ts:102-107 | the next month's cycles start on its dates 1, 8, 15, …, with December followed by January of the next year |
| Release.CalculateReleaseSchedules | src/lib/release.ts:98-109 | this month's cycle count plus the next month's |
| Release.ScheduleLayout | src/lib/release.ts:98-109 | the `i`-th schedule is the cycle of its week, month end and version: this month's from the base version, the next month's from the base version incremented once |
| Release.VersionRepeats | src/lib/release.ts:105-107 | the second schedule of this month and the first of the next month both carry the base version incremented once |
| Release.SchedulesAscending | src/lib/release.ts:74-89 | QA and development periods never move backwards along the list |
| Release.IsDevelopmentDate | src/lib/release.ts:114-116 | no contract: the body is the source's inclusive range test and business-day test |
| Release.IsQADate | src/lib/release.ts:121-123 | no contract: the body is the same test as `isDevelopmentDate` |
| Release.PeriodTestsAgree | src/lib/release.ts:114-123 | `isDevelopmentDate` and `isQADate` are the same test, inclusive range membership on business days |
| Release.DevelopmentDatesOfCycle | src/lib/release.ts:114-116 | a day is a development day of a cycle exactly when it is a business day of the 7 days before the cycle |
| Release.QaDatesOfCycle | src/lib/release.ts:121-123 | a day is a QA day of a cycle exactly when it is one of the cycle's first two business days |
| Versions.IncrementVersion | src/lib/release.ts:13-16 | no contract: the body keeps the major number, adds one to the minor number and sets the patch to 0 |
| Versions.IncrementVersionText | src/lib/release.ts:13-16 | no contract: read, increment and write back; `IncrementTextReadsBack` and `IncrementFormatted` state what it yields |
| Versions.IncrementIsNextMinor | src/lib/release.ts:13-16 | an increment gives a later version with the same major number, and no version with that major and a larger minor precedes it |
| Versions.IncrementTimesClosedForm | src/lib/release.ts:88-89 | `k` increments add `k` to the minor number and reset the patch to 0 when `k > 0` |
| Versions.IncrementTimesAscending | src/lib/release.ts:88-89 | more increments give a strictly later version |
| Versions.ParseFormatVersion | src/lib/release.ts:14 | formatting a version and reading it back gives the same version |
| Versions.IncrementTextReadsBack | src/lib/release.ts:13-16 | incrementing version text succeeds exactly on readable versions and the result reads as the incremented version |
| Versions.IncrementFormatted | src/lib/release.ts:15 | on `M.m.p` the result is `M.(m+1).0` |
| Text.ParseNatToString | src/lib/release.ts:14 | reading a decimal numeral gives back the number written |
| Text.SplitJoin | src/lib/release.ts:14 | splitting undoes joining pieces free of the separator |
| Text.JoinSplit | src/lib/release.ts:14 | joining the pieces of a split rebuilds the string |
| ReleaseInfo.FormatDate | src/lib/release.ts:129-132 | no contract: the body is the source's `month/date` or "N/A"; `FormatDateReadsBack` states what it yields |
| ReleaseInfo.FormatReleaseInfo | src/lib/release.ts:134-140 | no contract: the body is the source's template; `ReleaseInfoVersion` and `ReleaseInfoEnding` state what it yields |
| ReleaseInfo.FormatDateReadsBack | src/lib/release.ts:129-132 | a date renders as `month/date`, two pieces with no leading zeros, that read back as its month (from 1) and date; a missing date renders as "N/A", which does not read as a date |
| ReleaseInfo.ReleaseInfoEnding | src/lib/release.ts:134-140 | the summary ends with the release day, and ends in "N/A" exactly when there is none |
| ReleaseInfo.ReleaseInfoVersion | src/lib/release.ts:134 | the text between the leading "v" and the first colon reads back as the schedule's version |

## Left out

- The holiday table (`@holiday-jp/holiday_jp`, `src/lib/date.ts:1` and `31-33`) is a foreign library. It is the parameter `h` of every business-day operation, an arbitrary finite set of days.
- Time of day, time zones and daylight-saving changes of JavaScript `Date` are not modelled. Days are whole day numbers, and `isWithinRange` and the `<=`/`>` comparisons in `release.ts` compare days.
- The JavaScript time-value range (±10^8 days) is not modelled. Day numbers are unbounded integers.
- `new Date(year, month, date)` maps years 0 to 99 to 1900 to 1999. `MakeDate` is the plain proleptic Gregorian constructor for every year.
- The ambient clock (`new Date()` at `src/lib/release.ts:101`) is the parameter `today`.
- Versions are `major.minor.patch` triples of natural numbers. `IncrementVersionText` rejects any text that is not three dot-separated decimal numerals.
- IncrementVersionText: the source reads only the first two pieces of the text, each with `Number`, and never fails. Some text the model rejects still gives clean output there: `"1.2"` and `"1.2.x"` give `"1.3.0"`, `".2.3"` gives `"0.3.0"` because `Number("")` is 0, and `" 1.2.3"` gives `"1.3.0"` because `Number` skips blanks. Other malformed text gives `NaN` pieces, such as `"a.b.c"` giving `"NaN.NaN.0"`. The model reproduces none of these outputs.
- IncrementVersion: JavaScript numbers are doubles, so the source loses the increment once the minor number reaches 2^53, where `minor + 1 == minor`. From 10^21 on it also prints numbers in exponent form, such as `1e+21`. Here the numbers are unbounded naturals that always increment and always print in plain decimal.
- `addDays` does not mutate its argument. Every operation here is a pure function on values, so there is nothing to mutate.
- `src/components/calendar.ts` (DOM rendering, its own clock read) and `src/main.ts` (form handling, URL parameters, history) are outside the model. `src/lib/types.ts` holds only declarations, mirrored by `Period` and `ReleaseSchedule`.
