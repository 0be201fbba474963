/** The dashboard figures of `calculateStats`: the seconds logged today, in
    the current calendar week and in the current calendar month, and the
    per-day chart of hours in ascending date order. */
module Stats {
  import opened Wrappers
  import opened Text
  import opened Calendar
  import opened IsoDate
  import opened Window
  import opened Worklogs
  import opened Buckets
  import opened StringSort

  /** One bar of the chart: a date and its hours in tenths, so that
      `parseFloat((seconds / 3600).toFixed(1))` is `tenths / 10`. */
  datatype ChartPoint = ChartPoint(date: string, tenths: nat)

  datatype Stats = Stats(todaySeconds: nat, weekSeconds: nat, monthSeconds: nat, chart: seq<ChartPoint>)

  /** Hours to one decimal: the nearest tenth of an hour, halves rounded up. */
  function Tenths(seconds: nat): (t: nat)
    ensures 360 * t <= seconds + 180 < 360 * t + 360
  {
    (seconds + 180) / 360
  }

  function TotalSeconds(logs: seq<Worklog>): nat {
    if |logs| == 0 then 0 else TotalSeconds(logs[..|logs| - 1]) + logs[|logs| - 1].timeSpentSeconds
  }

  /** The seconds of the worklogs whose start text begins with `todayStr`. */
  function TodaySeconds(logs: seq<Worklog>, todayStr: string): nat {
    if |logs| == 0 then 0
    else
      var log := logs[|logs| - 1];
      TodaySeconds(logs[..|logs| - 1], todayStr) + (if StartsWith(log.started, todayStr) then log.timeSpentSeconds else 0)
  }

  /** `new Date(log.started)` falls within the days of `w`; a start text that
      is not a date is an invalid date, which no comparison accepts. */
  predicate StartedIn(log: Worklog, w: Span) {
    var d := ParseDate(log.started);
    d.Some? && Contains(w, d.value)
  }

  /** The seconds of the worklogs started within `w`. */
  function SecondsIn(logs: seq<Worklog>, w: Span): nat {
    if |logs| == 0 then 0
    else
      var log := logs[|logs| - 1];
      SecondsIn(logs[..|logs| - 1], w) + (if StartedIn(log, w) then log.timeSpentSeconds else 0)
  }

  /** The entries of `daysMap`: each worklog's date part and its seconds. */
  function DayEntries(logs: seq<Worklog>): seq<(string, nat)> {
    if |logs| == 0 then []
    else
      var log := logs[|logs| - 1];
      DayEntries(logs[..|logs| - 1]) + [(LogDate(log.started), log.timeSpentSeconds)]
  }

  /** `Array.from(daysMap.keys()).sort()` */
  function ChartDates(logs: seq<Worklog>): seq<string> {
    Sort(Distinct(DayEntries(logs)))
  }

  /** One point per date, in the order given, with that date's hours. */
  function Points(dates: seq<string>, entries: seq<(string, nat)>): seq<ChartPoint> {
    seq(|dates|, i requires 0 <= i < |dates| => ChartPoint(dates[i], Tenths(SumFor(entries, dates[i]))))
  }

  /** The chart: one point per date, in ascending order. */
  function Chart(logs: seq<Worklog>): seq<ChartPoint> {
    Points(ChartDates(logs), DayEntries(logs))
  }

  /** `new Date(y, m, 1)` and `new Date(y, m + 1, 0)`, with `m` counted from
      0, are the first and last days of month `m` of year `y`. */
  lemma MonthBoundsOf(ym: YearMonth, year: int, month: int, next: int)
    requires ValidMonth(ym) && year == ym.year && month == ym.month - 1 && next == month + 1
    ensures MakeDay(year, month, 1) == DayNumber(ym.year, ym.month, 1)
    ensures MakeDay(year, next, 0) == DayNumber(ym.year, ym.month, DaysInMonth(ym.year, ym.month))
  {
    MonthIndexInjective(MonthOfIndex(12 * year + month), ym);
    NextMonthStart(ym);
    MonthIndexInjective(MonthOfIndex(12 * year + next), AddMonths(ym, 1));
  }

  /** ... so for today's year and month they bound the current month. */
  lemma MonthBounds(today: int, year: int, month: int, next: int)
    requires year == CivilFromDays(today).year && month == GetMonth(today) && next == month + 1
    ensures MakeDay(year, month, 1) == MonthlySpan(today, 0).start
    ensures MakeDay(year, next, 0) == MonthlySpan(today, 0).end
  {
    var ym := MonthOfDay(today);
    AddMonthsZero(ym);
    MonthBoundsOf(ym, year, month, next);
  }

  /** The week and month bounds of `calculateStats`, computed the way the
      source moves its `Date` objects; they are the current week and month. */
  method CurrentBounds(today: int) returns (weekStart: int, weekEnd: int, monthStart: int, monthEnd: int)
    ensures Span(weekStart, weekEnd) == WeeklySpan(today, 0)
    ensures Span(monthStart, monthEnd) == MonthlySpan(today, 0)
  {
    weekStart := today;
    var day := IsoWeekDay(weekStart);
    if day != 1 {
      var date := GetDate(weekStart) - (day - 1);
      SetDateMoves(weekStart, date);
      weekStart := SetDate(weekStart, date);
    }
    var date := GetDate(weekStart) + 6;
    SetDateMoves(weekStart, date);
    weekEnd := SetDate(weekStart, date);
    var year := CivilFromDays(today).year;
    var month := GetMonth(today);
    var next := month + 1;
    MonthBounds(today, year, month, next);
    monthStart := MakeDay(year, month, 1);
    monthEnd := MakeDay(year, next, 0);
  }

  /** `logs.filter(l => l.started.startsWith(todayStr))` summed by `reduce`. */
  method SumToday(logs: seq<Worklog>, todayStr: string) returns (total: nat)
    ensures total == TodaySeconds(logs, todayStr)
  {
    total := 0;
    var i := 0;
    while i < |logs|
      invariant 0 <= i <= |logs|
      invariant total == TodaySeconds(logs[..i], todayStr)
    {
      if StartsWith(logs[i].started, todayStr) {
        total := total + logs[i].timeSpentSeconds;
      }
      assert logs[..i + 1][..i] == logs[..i];
      i := i + 1;
    }
    assert logs[..i] == logs;
  }

  /** The `forEach` that sums the seconds started within the week and within
      the month. */
  method SumPeriods(logs: seq<Worklog>, week: Span, month: Span) returns (weekSeconds: nat, monthSeconds: nat)
    ensures weekSeconds == SecondsIn(logs, week)
    ensures monthSeconds == SecondsIn(logs, month)
  {
    weekSeconds, monthSeconds := 0, 0;
    var i := 0;
    while i < |logs|
      invariant 0 <= i <= |logs|
      invariant weekSeconds == SecondsIn(logs[..i], week)
      invariant monthSeconds == SecondsIn(logs[..i], month)
    {
      var d := ParseDate(logs[i].started);
      if d.Some? && week.start <= d.value && d.value <= week.end {
        weekSeconds := weekSeconds + logs[i].timeSpentSeconds;
      }
      if d.Some? && month.start <= d.value && d.value <= month.end {
        monthSeconds := monthSeconds + logs[i].timeSpentSeconds;
      }
      assert logs[..i + 1][..i] == logs[..i];
      i := i + 1;
    }
    assert logs[..i] == logs;
  }

  /** `sortedDates.map(...)`, reading each date's total from the map. */
  method MapPoints(dates: seq<string>, entries: seq<(string, nat)>, totals: map<string, nat>) returns (chart: seq<ChartPoint>)
    requires forall d :: d in dates ==> d in totals && totals[d] == SumFor(entries, d)
    ensures chart == Points(dates, entries)
  {
    chart := [];
    var i := 0;
    while i < |dates|
      invariant 0 <= i <= |dates|
      invariant chart == Points(dates[..i], entries)
    {
      var date := dates[i];
      chart := chart + [ChartPoint(date, Tenths(totals[date]))];
      i := i + 1;
    }
    assert dates[..i] == dates;
  }

  /** `daysMap`, its sorted keys, and the chart points built from them. */
  method BuildChart(logs: seq<Worklog>) returns (chart: seq<ChartPoint>)
    ensures chart == Chart(logs)
  {
    var entries := DayEntries(logs);
    var order, totals := Accumulate(entries);
    var sortedDates := Sort(order);
    if |sortedDates| == 0 {
      chart := [];
    } else {
      forall d | d in sortedDates ensures d in totals {
        assert d in multiset(order);
      }
      chart := MapPoints(sortedDates, entries, totals);
    }
  }

  /** `calculateStats(logs)` at the instant `now` (milliseconds since the
      epoch): the three totals in seconds and the chart. */
  method CalculateStats(logs: seq<Worklog>, now: int) returns (stats: Stats)
    ensures stats.todaySeconds == TodaySeconds(logs, FormatDate(DayOfInstant(now)))
    ensures stats.weekSeconds == SecondsIn(logs, WeeklySpan(DayOfInstant(now), 0))
    ensures stats.monthSeconds == SecondsIn(logs, MonthlySpan(DayOfInstant(now), 0))
    ensures stats.chart == Chart(logs)
  {
    var today := DayOfInstant(now);
    FormatInstantParts(now);
    var todayStr := FirstField(FormatInstant(now), 'T');
    var totalTodaySeconds := SumToday(logs, todayStr);
    var weekStart, weekEnd, monthStart, monthEnd := CurrentBounds(today);
    var weekSeconds, monthSeconds := SumPeriods(logs, Span(weekStart, weekEnd), Span(monthStart, monthEnd));
    var chart := BuildChart(logs);
    stats := Stats(totalTodaySeconds, weekSeconds, monthSeconds, chart);
  }

  // ---------------------------------------------------------------------------
  // Properties of the figures

  /** On days with four-digit years, a start text begins with today's ISO
      date exactly when it denotes today. */
  lemma StartsWithDay(s: string, n: int)
    requires FourDigitYear(n)
    ensures StartsWith(s, FormatDate(n)) <==> ParseDate(s) == Some(n)
  {
    FormatDateShape(n);
    if StartsWith(s, FormatDate(n)) {
      assert s == FormatDate(n) + s[10..];
      ParseFormatDate(n, s[10..]);
    }
    if ParseDate(s) == Some(n) {
      ParseDateSound(s, n);
    }
  }

  /** Today's total is the total of the one-day window of today. */
  lemma {:induction false} TodayIsOneDay(logs: seq<Worklog>, today: int)
    requires FourDigitYear(today)
    ensures TodaySeconds(logs, FormatDate(today)) == SecondsIn(logs, Span(today, today))
    decreases |logs|
  {
    if |logs| > 0 {
      TodayIsOneDay(logs[..|logs| - 1], today);
      StartsWithDay(logs[|logs| - 1].started, today);
    }
  }

  /** A wider window never holds fewer seconds. */
  lemma {:induction false} SecondsInMonotone(logs: seq<Worklog>, a: Span, b: Span)
    requires b.start <= a.start && a.end <= b.end
    ensures SecondsIn(logs, a) <= SecondsIn(logs, b)
    decreases |logs|
  {
    if |logs| > 0 {
      SecondsInMonotone(logs[..|logs| - 1], a, b);
    }
  }

  /** What is logged today counts towards this week and this month. */
  lemma TodayWithinPeriod(logs: seq<Worklog>, today: int, mode: ViewMode)
    requires FourDigitYear(today)
    ensures TodaySeconds(logs, FormatDate(today)) <= SecondsIn(logs, PeriodSpan(today, mode, 0))
  {
    TodayIsOneDay(logs, today);
    CurrentPeriodHoldsToday(today, mode);
    SecondsInMonotone(logs, Span(today, today), PeriodSpan(today, mode, 0));
  }

  /** No window holds more than all the seconds logged. */
  lemma {:induction false} SecondsInAtMostTotal(logs: seq<Worklog>, w: Span)
    ensures SecondsIn(logs, w) <= TotalSeconds(logs)
    decreases |logs|
  {
    if |logs| > 0 {
      SecondsInAtMostTotal(logs[..|logs| - 1], w);
    }
  }

  lemma {:induction false} DayEntriesTotal(logs: seq<Worklog>)
    ensures Total(DayEntries(logs)) == TotalSeconds(logs)
    decreases |logs|
  {
    if |logs| > 0 {
      DayEntriesTotal(logs[..|logs| - 1]);
    }
  }

  /** A date has an entry exactly when some worklog starts on it. */
  lemma {:induction false} DayEntriesKey(logs: seq<Worklog>, date: string)
    ensures HasKey(DayEntries(logs), date) <==> exists i :: 0 <= i < |logs| && LogDate(logs[i].started) == date
    decreases |logs|
  {
    if |logs| > 0 {
      var init := logs[..|logs| - 1];
      var e := DayEntries(logs);
      DayEntriesKey(init, date);
      if HasKey(DayEntries(init), date) {
        var j :| 0 <= j < |DayEntries(init)| && DayEntries(init)[j].0 == date;
        assert e[j] == DayEntries(init)[j];
        var i :| 0 <= i < |init| && LogDate(init[i].started) == date;
        assert logs[i] == init[i];
      }
      if exists i :: 0 <= i < |logs| && LogDate(logs[i].started) == date {
        var i :| 0 <= i < |logs| && LogDate(logs[i].started) == date;
        if i < |init| {
          assert init[i] == logs[i];
        } else {
          assert e[|e| - 1].0 == date;
        }
      }
      if HasKey(e, date) {
        var j :| 0 <= j < |e| && e[j].0 == date;
        if j < |e| - 1 {
          assert DayEntries(init)[j] == e[j];
        } else {
          assert LogDate(logs[|logs| - 1].started) == date;
        }
      }
    }
  }

  lemma {:induction false} DistinctUnique(entries: seq<(string, nat)>)
    ensures Unique(Distinct(entries))
    decreases |entries|
  {
    if |entries| > 0 {
      DistinctUnique(entries[..|entries| - 1]);
    }
  }

  /** The chart's dates are strictly ascending, and a date is on the chart
      exactly when some worklog starts on it. */
  lemma ChartDatesSpec(logs: seq<Worklog>)
    ensures var ds := ChartDates(logs);
      forall i, j :: 0 <= i < j < |ds| ==> LexLt(ds[i], ds[j])
    ensures forall date :: (date in ChartDates(logs)
      <==> exists i :: 0 <= i < |logs| && LogDate(logs[i].started) == date)
  {
    var entries := DayEntries(logs);
    var d := Distinct(entries);
    DistinctUnique(entries);
    SortStrict(d);
    DistinctSpec(entries);
    forall date ensures date in ChartDates(logs) <==> exists i :: 0 <= i < |logs| && LogDate(logs[i].started) == date {
      DayEntriesKey(logs, date);
      assert date in ChartDates(logs) <==> date in multiset(d);
    }
  }

  lemma {:induction false} SumOverInsert(x: string, s: seq<string>, entries: seq<(string, nat)>)
    ensures SumOver(Insert(x, s), entries) == SumOver(s, entries) + SumFor(entries, x)
    decreases |s|
  {
    if |s| == 0 {
      assert SumOver([x], entries) == SumOver([], entries) + SumFor(entries, x);
    } else if LexLt(s[0], x) {
      SumOverInsert(x, s[1..], entries);
      SumOverAppend([s[0]], Insert(x, s[1..]), entries);
      SumOverAppend([s[0]], s[1..], entries);
      assert [s[0]] + s[1..] == s;
      assert SumOver([s[0]], entries) == SumOver([], entries) + SumFor(entries, s[0]);
    } else {
      SumOverAppend([x], s, entries);
      assert SumOver([x], entries) == SumOver([], entries) + SumFor(entries, x);
    }
  }

  lemma {:induction false} SumOverSort(s: seq<string>, entries: seq<(string, nat)>)
    ensures SumOver(Sort(s), entries) == SumOver(s, entries)
    decreases |s|
  {
    if |s| > 0 {
      SumOverSort(s[..|s| - 1], entries);
      SumOverInsert(s[|s| - 1], Sort(s[..|s| - 1]), entries);
    }
  }

  /** The chart accounts for every second: summed over its dates, the
      seconds per date are the seconds of all worklogs. */
  lemma ChartAccountsForAll(logs: seq<Worklog>)
    ensures SumOver(ChartDates(logs), DayEntries(logs)) == TotalSeconds(logs)
  {
    var entries := DayEntries(logs);
    SumOverSort(Distinct(entries), entries);
    SumOverDistinct(entries);
    DayEntriesTotal(logs);
  }

  /** The chart is empty exactly when there are no worklogs. */
  lemma ChartEmpty(logs: seq<Worklog>)
    ensures Chart(logs) == [] <==> |logs| == 0
  {
    if |logs| > 0 {
      ChartDatesSpec(logs);
      assert LogDate(logs[0].started) in ChartDates(logs);
      assert |Chart(logs)| == |ChartDates(logs)|;
    } else {
      assert DayEntries(logs) == [];
    }
  }
}
