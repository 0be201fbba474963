/** The proleptic Gregorian calendar that JavaScript's `Date` uses, with days
    counted as integers: day 0 is 1970-01-01, day -1 is 1969-12-31.  The
    operations of `Date` that the application calls (`getDay`, `getDate`,
    `getMonth`, `setDate`, `setMonth`, `setHours` by whole days) are defined
    here on day numbers, and their calendar meaning is proved. */
module Calendar {

  /** A calendar date; `month` runs from 1 to 12. */
  datatype Date = Date(year: int, month: int, day: int)

  /** A calendar month; `month` runs from 1 to 12. */
  datatype YearMonth = YearMonth(year: int, month: int)

  predicate IsLeapYear(y: int) {
    y % 4 == 0 && (y % 100 != 0 || y % 400 == 0)
  }

  function DaysInYear(y: int): int {
    if IsLeapYear(y) then 366 else 365
  }

  function DaysInMonth(y: int, m: int): (n: int)
    requires 1 <= m <= 12
    ensures 28 <= n <= 31
  {
    if m == 2 then (if IsLeapYear(y) then 29 else 28)
    else if m == 4 || m == 6 || m == 9 || m == 11 then 30
    else 31
  }

  predicate ValidDate(d: Date) {
    1 <= d.month <= 12 && 1 <= d.day <= DaysInMonth(d.year, d.month)
  }

  predicate ValidMonth(ym: YearMonth) {
    1 <= ym.month <= 12
  }

  // ---------------------------------------------------------------------------
  // Years
  // ---------------------------------------------------------------------------

  /** Leap years among the years 1 .. y-1 (negative for years before 1). */
  function LeapYearsBefore(y: int): int {
    (y - 1) / 4 - (y - 1) / 100 + (y - 1) / 400
  }

  /** Day number of January 1 of year `y`. */
  function YearStart(y: int): int {
    365 * (y - 1970) + LeapYearsBefore(y) - LeapYearsBefore(1970)
  }

  lemma DivStep4(y: int)
    ensures y / 4 - (y - 1) / 4 == if y % 4 == 0 then 1 else 0
  {
  }

  lemma DivStep100(y: int)
    ensures y / 100 - (y - 1) / 100 == if y % 100 == 0 then 1 else 0
  {
  }

  lemma DivStep400(y: int)
    ensures y / 400 - (y - 1) / 400 == if y % 400 == 0 then 1 else 0
  {
  }

  lemma MultipleMod(k: int)
    ensures (100 * k) % 100 == 0 && (4 * k) % 4 == 0
  {
  }

  /** Divisibility by 400 implies divisibility by 100, which implies
      divisibility by 4. */
  lemma ModChain(y: int)
    ensures y % 400 == 0 ==> y % 100 == 0
    ensures y % 100 == 0 ==> y % 4 == 0
  {
    if y % 400 == 0 {
      var k := y / 400;
      var m := 4 * k;
      assert y == 100 * m;
      MultipleMod(m);
    }
    if y % 100 == 0 {
      var k := y / 100;
      var m := 25 * k;
      assert y == 4 * m;
      MultipleMod(m);
    }
  }

  /** Year `y` adds one to the count of leap years exactly when it is one. */
  lemma LeapStep(y: int)
    ensures LeapYearsBefore(y + 1) - LeapYearsBefore(y) == if IsLeapYear(y) then 1 else 0
  {
    DivStep4(y);
    DivStep100(y);
    DivStep400(y);
    ModChain(y);
  }

  /** Consecutive years start `DaysInYear` apart. */
  lemma YearStartNext(y: int)
    ensures YearStart(y + 1) == YearStart(y) + DaysInYear(y)
  {
    LeapStep(y);
  }

  lemma {:induction false} YearStartMonotone(a: int, b: int)
    requires a < b
    ensures YearStart(a + 1) <= YearStart(b)
    ensures YearStart(a) < YearStart(b)
    decreases b - a
  {
    YearStartNext(a);
    if a + 1 < b {
      YearStartMonotone(a + 1, b);
    }
  }

  /** The year whose span of days holds day `n`, searched upwards from `y`. */
  function YearUp(n: int, y: int): (r: int)
    requires YearStart(y) <= n
    ensures YearStart(r) <= n < YearStart(r + 1)
    decreases n - YearStart(y)
  {
    YearStartNext(y);
    if n < YearStart(y + 1) then y else YearUp(n, y + 1)
  }

  /** The year whose span of days holds day `n`, searched downwards from `y`. */
  function YearDown(n: int, y: int): (r: int)
    requires n < YearStart(y + 1)
    ensures YearStart(r) <= n < YearStart(r + 1)
    decreases YearStart(y + 1) - n
  {
    YearStartNext(y);
    if YearStart(y) <= n then y else YearDown(n, y - 1)
  }

  /** The year that day `n` falls in. */
  function YearOfDay(n: int): (y: int)
    ensures YearStart(y) <= n < YearStart(y + 1)
  {
    if n >= 0 then YearUp(n, 1970) else YearDown(n, 1969)
  }

  // ---------------------------------------------------------------------------
  // Months
  // ---------------------------------------------------------------------------

  /** Days of year `y` before the first of month `m`; `m == 13` gives the
      length of the year. */
  function DaysBeforeMonth(y: int, m: int): int
    requires 1 <= m <= 13
  {
    [0, 31, 59, 90, 120, 151, 181, 212, 243, 273, 304, 334, 365][m - 1]
      + (if m > 2 && IsLeapYear(y) then 1 else 0)
  }

  lemma DaysBeforeMonthNext(y: int, m: int)
    requires 1 <= m <= 12
    ensures DaysBeforeMonth(y, m + 1) == DaysBeforeMonth(y, m) + DaysInMonth(y, m)
    ensures DaysBeforeMonth(y, 13) == DaysInYear(y)
  {
  }

  lemma {:induction false} DaysBeforeMonthMonotone(y: int, a: int, b: int)
    requires 1 <= a < b <= 13
    ensures DaysBeforeMonth(y, a + 1) <= DaysBeforeMonth(y, b)
    decreases b - a
  {
    DaysBeforeMonthNext(y, a);
    if a + 1 < b {
      DaysBeforeMonthNext(y, a + 1);
      DaysBeforeMonthMonotone(y, a + 1, b);
    }
  }

  /** The month of year `y` that holds day-of-year `doy`, searched upwards from `m`. */
  function MonthFrom(y: int, doy: int, m: int): (r: int)
    requires 1 <= m <= 12 && DaysBeforeMonth(y, m) <= doy < DaysInYear(y)
    ensures 1 <= r <= 12 && DaysBeforeMonth(y, r) <= doy < DaysBeforeMonth(y, r + 1)
    decreases 12 - m
  {
    DaysBeforeMonthNext(y, m);
    if doy < DaysBeforeMonth(y, m + 1) then m else MonthFrom(y, doy, m + 1)
  }

  // ---------------------------------------------------------------------------
  // Day numbers and dates
  // ---------------------------------------------------------------------------

  /** Day number of day `d` of month `m` of year `y`; `d` may lie outside the
      month, in which case it counts on from the month's first day. */
  function DayNumber(y: int, m: int, d: int): int
    requires 1 <= m <= 12
  {
    YearStart(y) + DaysBeforeMonth(y, m) + d - 1
  }

  /** The calendar date of day `n`. */
  function CivilFromDays(n: int): (d: Date)
    ensures ValidDate(d) && DayNumber(d.year, d.month, d.day) == n
  {
    var y := YearOfDay(n);
    YearStartNext(y);
    DaysBeforeMonthNext(y, 12);
    var doy := n - YearStart(y);
    var m := MonthFrom(y, doy, 1);
    DaysBeforeMonthNext(y, m);
    Date(y, m, doy - DaysBeforeMonth(y, m) + 1)
  }

  /** A valid date's day number lies inside its month, inside its year. */
  lemma DayNumberBounds(d: Date)
    requires ValidDate(d)
    ensures YearStart(d.year) + DaysBeforeMonth(d.year, d.month) <= DayNumber(d.year, d.month, d.day)
    ensures DayNumber(d.year, d.month, d.day) < YearStart(d.year) + DaysBeforeMonth(d.year, d.month + 1)
    ensures DaysBeforeMonth(d.year, d.month + 1) <= DaysInYear(d.year)
  {
    DaysBeforeMonthNext(d.year, d.month);
    if d.month < 12 {
      DaysBeforeMonthMonotone(d.year, d.month + 1, 13);
    }
  }

  /** Later dates (in year, month, day order) have larger day numbers. */
  lemma DayNumberOrder(a: Date, b: Date)
    requires ValidDate(a) && ValidDate(b)
    requires a.year < b.year
      || (a.year == b.year && a.month < b.month)
      || (a.year == b.year && a.month == b.month && a.day < b.day)
    ensures DayNumber(a.year, a.month, a.day) < DayNumber(b.year, b.month, b.day)
  {
    DayNumberBounds(a);
    DayNumberBounds(b);
    if a.year < b.year {
      YearStartNext(a.year);
      YearStartMonotone(a.year, b.year);
    } else if a.month < b.month {
      DaysBeforeMonthMonotone(a.year, a.month, b.month);
    }
  }

  /** Distinct valid dates have distinct day numbers. */
  lemma DayNumberInjective(a: Date, b: Date)
    requires ValidDate(a) && ValidDate(b)
    requires DayNumber(a.year, a.month, a.day) == DayNumber(b.year, b.month, b.day)
    ensures a == b
  {
    if a.year < b.year || (a.year == b.year && a.month < b.month)
       || (a.year == b.year && a.month == b.month && a.day < b.day) {
      DayNumberOrder(a, b);
    } else if a != b {
      DayNumberOrder(b, a);
    }
  }

  /** Every valid date is the date of its own day number. */
  lemma CivilRoundTrip(d: Date)
    requires ValidDate(d)
    ensures CivilFromDays(DayNumber(d.year, d.month, d.day)) == d
  {
    DayNumberInjective(CivilFromDays(DayNumber(d.year, d.month, d.day)), d);
  }

  /** Day numbers order days exactly as their dates are ordered field by field. */
  lemma CivilOrder(n1: int, n2: int)
    ensures var a, b := CivilFromDays(n1), CivilFromDays(n2);
      n1 < n2 <==>
        (a.year < b.year
         || (a.year == b.year && a.month < b.month)
         || (a.year == b.year && a.month == b.month && a.day < b.day))
  {
    var a, b := CivilFromDays(n1), CivilFromDays(n2);
    if a.year < b.year || (a.year == b.year && a.month < b.month)
       || (a.year == b.year && a.month == b.month && a.day < b.day) {
      DayNumberOrder(a, b);
    } else if a != b {
      DayNumberOrder(b, a);
    }
  }

  // ---------------------------------------------------------------------------
  // Month arithmetic
  // ---------------------------------------------------------------------------

  /** Months counted from January of year 0. */
  function MonthIndex(ym: YearMonth): int {
    12 * ym.year + ym.month - 1
  }

  function MonthOfIndex(i: int): (ym: YearMonth)
    ensures ValidMonth(ym) && MonthIndex(ym) == i
  {
    YearMonth(i / 12, i % 12 + 1)
  }

  /** The month `k` months after `ym` (before it when `k` is negative). */
  function AddMonths(ym: YearMonth, k: int): (r: YearMonth)
    ensures ValidMonth(r) && MonthIndex(r) == MonthIndex(ym) + k
  {
    MonthOfIndex(MonthIndex(ym) + k)
  }

  lemma MonthIndexInjective(a: YearMonth, b: YearMonth)
    requires ValidMonth(a) && ValidMonth(b) && MonthIndex(a) == MonthIndex(b)
    ensures a == b
  {
  }

  lemma AddMonthsZero(ym: YearMonth)
    requires ValidMonth(ym)
    ensures AddMonths(ym, 0) == ym
  {
    MonthIndexInjective(AddMonths(ym, 0), ym);
  }

  /** Month arithmetic rolls over year boundaries in both directions. */
  lemma AddMonthsRollover(y: int)
    ensures AddMonths(YearMonth(y, 1), -1) == YearMonth(y - 1, 12)
    ensures AddMonths(YearMonth(y, 12), 1) == YearMonth(y + 1, 1)
  {
    MonthIndexInjective(AddMonths(YearMonth(y, 1), -1), YearMonth(y - 1, 12));
    MonthIndexInjective(AddMonths(YearMonth(y, 12), 1), YearMonth(y + 1, 1));
  }

  // ---------------------------------------------------------------------------
  // The Date operations, on day numbers
  // ---------------------------------------------------------------------------

  /** `getDay()`: 0 for Sunday, 1 for Monday, ..., 6 for Saturday
      (1970-01-01 was a Thursday). */
  function WeekDay(n: int): (w: int)
    ensures 0 <= w < 7
  {
    (n + 4) % 7
  }

  /** `getDay() || 7`: 1 for Monday, ..., 7 for Sunday. */
  function IsoWeekDay(n: int): (w: int)
    ensures 1 <= w <= 7
  {
    if WeekDay(n) == 0 then 7 else WeekDay(n)
  }

  /** Seven days on is the same day of the week, and each step of one day moves
      one place round the week. */
  lemma IsoWeekDayShift(n: int, k: int)
    ensures IsoWeekDay(n + 7 * k) == IsoWeekDay(n)
    ensures IsoWeekDay(n - (IsoWeekDay(n) - 1)) == 1
  {
  }

  function MonthOfDay(n: int): YearMonth {
    var d := CivilFromDays(n);
    YearMonth(d.year, d.month)
  }

  /** `getDate()`. */
  function GetDate(n: int): int {
    CivilFromDays(n).day
  }

  /** `getMonth()`: 0 for January. */
  function GetMonth(n: int): int {
    CivilFromDays(n).month - 1
  }

  /** The day number of ECMAScript's MakeDay(year, month, date): `month` counts
      from 0 and may lie outside 0..11, `date` may lie outside the month. */
  function MakeDay(year: int, month: int, date: int): int {
    var ym := MonthOfIndex(12 * year + month);
    DayNumber(ym.year, ym.month, 1) + date - 1
  }

  /** `setDate(date)`: same year and month, the given day of the month. */
  function SetDate(n: int, date: int): int {
    MakeDay(CivilFromDays(n).year, GetMonth(n), date)
  }

  /** `setMonth(month)`: same year and day of the month, the given month. */
  function SetMonth(n: int, month: int): int {
    MakeDay(CivilFromDays(n).year, month, GetDate(n))
  }

  /** `setDate(date)` moves by `date - getDate()` days, also when `date` lies
      outside the current month. */
  lemma SetDateMoves(n: int, date: int)
    ensures SetDate(n, date) == n + date - GetDate(n)
  {
    var d := CivilFromDays(n);
    MonthIndexInjective(MonthOfIndex(12 * d.year + GetMonth(n)), YearMonth(d.year, d.month));
  }

  /** `MakeDay(y, m, 1)` is the first day of the month `m` months after
      January of year `y`. */
  lemma MakeDayFirst(y: int, m: int)
    ensures var ym := AddMonths(YearMonth(y, 1), m);
      CivilFromDays(MakeDay(y, m, 1)) == Date(ym.year, ym.month, 1)
  {
    var ym := AddMonths(YearMonth(y, 1), m);
    assert MonthOfIndex(12 * y + m) == ym;
    CivilRoundTrip(Date(ym.year, ym.month, 1));
  }

  /** `setDate(1)` moves to the first day of the same month. */
  lemma SetDateFirst(n: int)
    ensures var d := CivilFromDays(n);
      CivilFromDays(SetDate(n, 1)) == Date(d.year, d.month, 1)
  {
    var d := CivilFromDays(n);
    MakeDayFirst(d.year, d.month - 1);
    MonthIndexInjective(AddMonths(YearMonth(d.year, 1), d.month - 1), YearMonth(d.year, d.month));
  }

  /** `MakeDay(y, m, 1)` is the first day of month number `12 * y + m`. */
  lemma MakeDayOne(y: int, m: int)
    ensures var ym := MonthOfIndex(12 * y + m);
      CivilFromDays(MakeDay(y, m, 1)) == Date(ym.year, ym.month, 1)
  {
    var ym := MonthOfIndex(12 * y + m);
    CivilRoundTrip(Date(ym.year, ym.month, 1));
  }

  /** On the first day of a month, `setMonth(month)` moves to the first day of
      month number `month` counted from January of the same year, across year
      boundaries. */
  lemma SetMonthOfFirst(n: int, month: int)
    requires CivilFromDays(n).day == 1
    ensures var ym := MonthOfIndex(12 * CivilFromDays(n).year + month);
      CivilFromDays(SetMonth(n, month)) == Date(ym.year, ym.month, 1)
  {
    MakeDayOne(CivilFromDays(n).year, month);
  }

  /** On the first day of a month, `setDate(0)` moves to the last day of the
      month before. */
  lemma SetDateZeroOfFirst(n: int)
    requires CivilFromDays(n).day == 1
    ensures var ym := AddMonths(MonthOfDay(n), -1);
      CivilFromDays(SetDate(n, 0)) == Date(ym.year, ym.month, DaysInMonth(ym.year, ym.month))
  {
    var ym := MonthOfDay(n);
    var prev := AddMonths(ym, -1);
    var last := Date(prev.year, prev.month, DaysInMonth(prev.year, prev.month));
    NextMonthStart(prev);
    var next := AddMonths(prev, 1);
    MonthIndexInjective(next, ym);
    SetDateMoves(n, 0);
    assert SetDate(n, 0) == DayNumber(last.year, last.month, last.day);
    CivilRoundTrip(last);
  }

  /** The first day of the next month follows the last day of this one. */
  lemma NextMonthStart(ym: YearMonth)
    requires ValidMonth(ym)
    ensures var next := AddMonths(ym, 1);
      DayNumber(next.year, next.month, 1) == DayNumber(ym.year, ym.month, DaysInMonth(ym.year, ym.month)) + 1
  {
    var next := AddMonths(ym, 1);
    DaysBeforeMonthNext(ym.year, ym.month);
    if ym.month == 12 {
      MonthIndexInjective(next, YearMonth(ym.year + 1, 1));
      YearStartNext(ym.year);
    } else {
      MonthIndexInjective(next, YearMonth(ym.year, ym.month + 1));
    }
  }
}
