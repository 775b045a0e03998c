/** `formatReleaseInfo` (src/lib/release.ts): the one-line summary of a
    schedule. */
module ReleaseInfo {
  import opened Wrappers
  import opened Civil
  import opened Text
  import opened Versions
  import opened Release

  /** The date format of the summary: month and date of the month without
      padding and without the year, or "N/A" for a missing date. */
  function FormatDate(d: Option<Day>): string {
    match d
    case None => "N/A"
    case Some(t) =>
      NatToString(MonthIndex(t) + 1) + "/" + NatToString(DayOfMonth(t))
  }

  /** Reads `month/date` back; anything else is rejected. */
  function ParseMonthDay(s: string): Option<(nat, nat)> {
    var pieces := Split(s, '/');
    if |pieces| != 2 then None
    else
      match (ParseNat(pieces[0]), ParseNat(pieces[1]))
      case (Some(m), Some(d)) => Some((m, d))
      case _ => None
  }

  /** A formatted date reads back as its month (from 1) and date of the
      month, each written without leading zeros; the missing date is
      "N/A", which does not read as a date at all. */
  lemma FormatDateReadsBack(d: Option<Day>)
    ensures d.Some? ==> ParseMonthDay(FormatDate(d)) == Some((MonthIndex(d.value) + 1, DayOfMonth(d.value)))
    ensures d.Some? ==>
      var p := Split(FormatDate(d), '/');
      |p| == 2 && (|p[0]| > 1 ==> p[0][0] != '0') && (|p[1]| > 1 ==> p[1][0] != '0')
    ensures d.None? ==> FormatDate(d) == "N/A"
    ensures d.None? ==> ParseMonthDay(FormatDate(d)) == None
  {
    if d.Some? {
      DayReadsBack(d.value);
    } else {
      SplitAtFirst("N", "A", '/');
      SplitWithoutSeparator("A", '/');
      assert "N" + ['/'] + "A" == "N/A";
    }
  }

  lemma DayReadsBack(t: Day)
    ensures ParseMonthDay(FormatDate(Some(t))) == Some((MonthIndex(t) + 1, DayOfMonth(t)))
    ensures Split(FormatDate(Some(t)), '/') == [NatToString(MonthIndex(t) + 1), NatToString(DayOfMonth(t))]
  {
    MonthDayReadsBack(MonthIndex(t) + 1, DayOfMonth(t));
  }

  lemma MonthDayReadsBack(m: nat, d: nat)
    ensures Split(NatToString(m) + "/" + NatToString(d), '/') == [NatToString(m), NatToString(d)]
    ensures ParseMonthDay(NatToString(m) + "/" + NatToString(d)) == Some((m, d))
  {
    var a, b := NatToString(m), NatToString(d);
    NumeralAvoids(m, '/');
    NumeralAvoids(d, '/');
    SplitAtFirst(a, b, '/');
    SplitWithoutSeparator(b, '/');
    ParseNatToString(m);
    ParseNatToString(d);
  }

  /** `formatReleaseInfo`: version, development period, QA period and
      release day, in that order. */
  function FormatReleaseInfo(info: ReleaseSchedule): string {
    "v" + FormatVersion(info.version) + ":" + PeriodsText(info)
  }

  /** The part of the summary after the version. */
  function PeriodsText(info: ReleaseSchedule): string {
    " 開発期間 " + FormatDate(Some(info.developmentPeriod.start))
      + "-" + FormatDate(Some(info.developmentPeriod.end))
      + ", QA期間 " + FormatDate(Some(info.qaPeriod.start))
      + "-" + FormatDate(Some(info.qaPeriod.end))
      + ", リリース " + FormatDate(info.releaseDate)
  }

  /** The summary ends with the release day, and it ends in "N/A" exactly
      when there is no release day. */
  lemma ReleaseInfoEnding(info: ReleaseSchedule)
    ensures var text := FormatReleaseInfo(info);
      var r := FormatDate(info.releaseDate);
      |r| <= |text| && text[|text| - |r|..] == r
    ensures var text := FormatReleaseInfo(info);
      text[|text| - 1] == 'A' <==> info.releaseDate.None?
  {
    var r := FormatDate(info.releaseDate);
    if info.releaseDate.Some? {
      assert IsDigit(r[|r| - 1]);
    }
  }

  /** The text between the leading "v" and the first colon reads back as
      the schedule's version. */
  lemma ReleaseInfoVersion(info: ReleaseSchedule)
    ensures var text := FormatReleaseInfo(info);
      ParseVersion(Split(text, ':')[0][1..]) == Some(info.version)
  {
    var v := info.version;
    var a := "v" + FormatVersion(v);
    NumeralAvoids(v.major, ':');
    NumeralAvoids(v.minor, ':');
    NumeralAvoids(v.patch, ':');
    assert ':' !in a;
    SplitAtFirst(a, PeriodsText(info), ':');
    assert a[1..] == FormatVersion(v);
    ParseFormatVersion(v);
  }
}
