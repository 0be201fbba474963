/** The reporting window of the dashboard: the calendar week (Monday to
    Sunday) or calendar month that `checkWorklogs` queries, shifted by the
    dashboard's period offset. */
module Window {
  import opened Calendar

  datatype ViewMode = Weekly | Monthly

  /** An inclusive range of day numbers. */
  datatype Span = Span(start: int, end: int)

  predicate Contains(w: Span, n: int) {
    w.start <= n <= w.end
  }

  /** The Monday-to-Sunday week that holds the day `7 * shift` days after `today`. */
  function WeeklySpan(today: int, shift: int): Span {
    var monday := today - (IsoWeekDay(today) - 1) + 7 * shift;
    Span(monday, monday + 6)
  }

  /** The calendar month `shift` months after the month of `today`. */
  function MonthlySpan(today: int, shift: int): Span {
    var ym := AddMonths(MonthOfDay(today), shift);
    Span(DayNumber(ym.year, ym.month, 1), DayNumber(ym.year, ym.month, DaysInMonth(ym.year, ym.month)))
  }

  function PeriodSpan(today: int, mode: ViewMode, shift: int): Span {
    if mode == Weekly then WeeklySpan(today, shift) else MonthlySpan(today, shift)
  }

  /** The window `weekOffset` periods before the current one. */
  function PastSpan(today: int, mode: ViewMode, weekOffset: int): Span {
    PeriodSpan(today, mode, -weekOffset)
  }

  /** The weekly window starts on a Monday, ends six days later, and holds the
      day `7 * shift` days after today. */
  lemma WeeklySpanSpec(today: int, shift: int)
    ensures var w := WeeklySpan(today, shift);
      IsoWeekDay(w.start) == 1 && w.end == w.start + 6 && Contains(w, today + 7 * shift)
  {
    IsoWeekDayShift(today, shift);
    IsoWeekDayShift(today - (IsoWeekDay(today) - 1), shift);
  }

  /** Any Monday-to-Sunday week that holds that day is the weekly window. */
  lemma WeeklySpanUnique(today: int, shift: int, monday: int)
    requires IsoWeekDay(monday) == 1 && monday <= today + 7 * shift <= monday + 6
    ensures WeeklySpan(today, shift) == Span(monday, monday + 6)
  {
    WeeklySpanSpec(today, shift);
    var w := WeeklySpan(today, shift);
    var k := monday - w.start;
    assert -6 <= k <= 6;
    assert WeekDay(monday) == (WeekDay(w.start) + k) % 7;
  }

  /** The monthly window runs from the first to the last day of one calendar
      month, the month `shift` months after today's, across year boundaries. */
  lemma MonthlySpanSpec(today: int, shift: int)
    ensures var w := MonthlySpan(today, shift);
      var ym := AddMonths(MonthOfDay(today), shift);
      && CivilFromDays(w.start) == Date(ym.year, ym.month, 1)
      && CivilFromDays(w.end) == Date(ym.year, ym.month, DaysInMonth(ym.year, ym.month))
      && w.start < w.end
      && w.end - w.start + 1 == DaysInMonth(ym.year, ym.month)
  {
    var ym := AddMonths(MonthOfDay(today), shift);
    CivilRoundTrip(Date(ym.year, ym.month, 1));
    CivilRoundTrip(Date(ym.year, ym.month, DaysInMonth(ym.year, ym.month)));
  }

  /** Every day of the monthly window lies in the window's month. */
  lemma MonthlySpanSameMonth(today: int, shift: int, n: int)
    requires Contains(MonthlySpan(today, shift), n)
    ensures MonthOfDay(n) == AddMonths(MonthOfDay(today), shift)
  {
    var ym := AddMonths(MonthOfDay(today), shift);
    var d := Date(ym.year, ym.month, n - DayNumber(ym.year, ym.month, 1) + 1);
    assert ValidDate(d);
    CivilRoundTrip(d);
  }

  /** The first two monthly steps, `setDate(1)` and then `setMonth(month)` with
      `month` the month of the first plus `shift`, reach the window's first day. */
  lemma MonthStartSteps(today: int, shift: int, month: int)
    requires month == GetMonth(SetDate(today, 1)) + shift
    ensures SetMonth(SetDate(today, 1), month) == MonthlySpan(today, shift).start
  {
    var first := SetDate(today, 1);
    SetDateFirst(today);
    SetMonthOfFirst(first, month);
    var ym := AddMonths(MonthOfDay(today), shift);
    MonthIndexInjective(MonthOfIndex(12 * CivilFromDays(first).year + month), ym);
  }

  /** The last two monthly steps: from the window's first day,
      `setMonth(month)` with the next month's number, then `setDate(0)`, reach
      the window's last day. */
  lemma MonthEndSteps(today: int, shift: int, start: int, month: int)
    requires start == MonthlySpan(today, shift).start
    requires month == GetMonth(start) + 1
    ensures SetDate(SetMonth(start, month), 0) == MonthlySpan(today, shift).end
  {
    var ym := AddMonths(MonthOfDay(today), shift);
    CivilRoundTrip(Date(ym.year, ym.month, 1));
    var next := SetMonth(start, month);
    SetMonthOfFirst(start, month);
    var nextYm := MonthOfIndex(12 * ym.year + month);
    assert CivilFromDays(next).day == 1;
    SetDateZeroOfFirst(next);
    var prev := AddMonths(MonthOfDay(next), -1);
    MonthIndexInjective(prev, ym);
    CivilRoundTrip(Date(ym.year, ym.month, DaysInMonth(ym.year, ym.month)));
  }

  /** The window of `checkWorklogs`, computed as the source computes it: by
      moving a `Date` step by step.  Each period of `shift` moves it one week
      or one month later in time. */
  method ShiftedWindow(today: int, mode: ViewMode, shift: int) returns (start: int, end: int)
    ensures Span(start, end) == PeriodSpan(today, mode, shift)
  {
    start := today;
    if mode == Weekly {
      var day := IsoWeekDay(start);
      if day != 1 {
        // setHours(-24 * (day - 1)): back to the Monday of this week
        start := start - (day - 1);
      }
      var date := GetDate(start) + shift * 7;
      SetDateMoves(start, date);
      start := SetDate(start, date);
      date := GetDate(start) + 6;
      SetDateMoves(start, date);
      end := SetDate(start, date);
    } else {
      start := SetDate(start, 1);
      var month := GetMonth(start) + shift;
      MonthStartSteps(today, shift, month);
      start := SetMonth(start, month);
      month := GetMonth(start) + 1;
      MonthEndSteps(today, shift, start, month);
      end := SetMonth(start, month);
      end := SetDate(end, 0);
    }
  }

  /** `checkWorklogs` as written: the period offset is added, so a positive
      offset moves the window into the future. */
  method ComputeWindowAsWritten(today: int, mode: ViewMode, weekOffset: int) returns (start: int, end: int)
    ensures Span(start, end) == PeriodSpan(today, mode, weekOffset)
  {
    start, end := ShiftedWindow(today, mode, weekOffset);
  }

  /** The window as the dashboard's "previous"/"next" buttons and their
      disabling at offset 0 intend it: `weekOffset` periods into the past. */
  method ComputeWindow(today: int, mode: ViewMode, weekOffset: int) returns (start: int, end: int)
    ensures Span(start, end) == PastSpan(today, mode, weekOffset)
    ensures start <= end
    ensures weekOffset >= 0 ==> start <= today
  {
    var shift := -weekOffset;
    start, end := ShiftedWindow(today, mode, shift);
    PeriodSpanBounds(today, mode, shift);
    assert PeriodSpan(today, mode, shift) == PeriodSpan(today, mode, -weekOffset);
  }

  /** Every window is non-empty, and one at or before the current period
      starts no later than today. */
  lemma PeriodSpanBounds(today: int, mode: ViewMode, shift: int)
    ensures PeriodSpan(today, mode, shift).start <= PeriodSpan(today, mode, shift).end
    ensures shift <= 0 ==> PeriodSpan(today, mode, shift).start <= today
  {
    if mode == Weekly {
      WeeklySpanSpec(today, shift);
    } else {
      MonthlySpanSpec(today, shift);
      if shift <= 0 {
        PastMonthStartsEarlier(today, shift);
      }
    }
  }

  /** The current period (shift 0) holds today. */
  lemma CurrentPeriodHoldsToday(today: int, mode: ViewMode)
    ensures Contains(PeriodSpan(today, mode, 0), today)
  {
    if mode == Weekly {
      WeeklySpanSpec(today, 0);
    } else {
      PastMonthStartsEarlier(today, 0);
      MonthIndexInjective(AddMonths(MonthOfDay(today), 0), MonthOfDay(today));
    }
  }

  /** A month at or before today's month starts no later than today. */
  lemma PastMonthStartsEarlier(today: int, shift: int)
    requires shift <= 0
    ensures MonthlySpan(today, shift).start <= today
  {
    var here := CivilFromDays(today);
    var ym := AddMonths(MonthOfDay(today), shift);
    var first := Date(ym.year, ym.month, 1);
    if first != here {
      assert ym.year < here.year || (ym.year == here.year && ym.month < here.month)
        || (ym.year == here.year && ym.month == here.month && 1 < here.day);
      DayNumberOrder(first, here);
    }
  }

  /** Stepping the shift by one moves the monthly window to the month that
      directly follows. */
  lemma MonthlySpanStep(today: int, shift: int)
    ensures MonthlySpan(today, shift + 1).start == MonthlySpan(today, shift).end + 1
  {
    var ym := AddMonths(MonthOfDay(today), shift);
    NextMonthStart(ym);
    MonthIndexInjective(AddMonths(MonthOfDay(today), shift + 1), AddMonths(ym, 1));
  }

  /** As written, stepping to the "previous" period (offset + 1) moves the
      queried window later in time, not earlier. */
  lemma PreviousMovesLaterAsWritten(today: int, mode: ViewMode, weekOffset: int)
    ensures PeriodSpan(today, mode, weekOffset + 1).start > PeriodSpan(today, mode, weekOffset).start
  {
    if mode == Monthly {
      MonthlySpanStep(today, weekOffset);
    }
  }

  /** Corrected, stepping to the "previous" period moves the window one whole
      period earlier: the previous window ends the day before the current
      one starts. */
  lemma PreviousMovesEarlier(today: int, mode: ViewMode, weekOffset: int, previous: int)
    requires previous == weekOffset + 1
    ensures PastSpan(today, mode, previous).end + 1 == PastSpan(today, mode, weekOffset).start
    ensures PastSpan(today, mode, previous).start < PastSpan(today, mode, weekOffset).start
  {
    if mode == Monthly {
      var ym := AddMonths(MonthOfDay(today), -previous);
      NextMonthStart(ym);
      MonthIndexInjective(AddMonths(MonthOfDay(today), -weekOffset), AddMonths(ym, 1));
    }
  }

  /** On Wednesday 2024-01-17 with offset 1, the corrected weekly window is
      the week before (Monday 2024-01-08 to Sunday 2024-01-14), while the
      window as written is the week after (2024-01-22 to 2024-01-28). */
  lemma WeeklyExample()
    ensures PastSpan(DayNumber(2024, 1, 17), Weekly, 1)
      == Span(DayNumber(2024, 1, 8), DayNumber(2024, 1, 14))
    ensures PeriodSpan(DayNumber(2024, 1, 17), Weekly, 1)
      == Span(DayNumber(2024, 1, 22), DayNumber(2024, 1, 28))
  {
    assert IsoWeekDay(DayNumber(2024, 1, 17)) == 3;
  }
}
