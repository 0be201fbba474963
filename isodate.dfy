/** Dates as the strings the application exchanges: the `YYYY-MM-DD` date part
    of `Date.prototype.toISOString`, and the reading of such a date at the
    start of a worklog timestamp. */
module IsoDate {
  import opened Wrappers
  import opened Text
  import opened Calendar

  /** The year field of `toISOString()`: four digits for the years 0 to 9999,
      otherwise a sign and at least six digits. */
  function YearField(y: int): string {
    if 0 <= y <= 9999 then FixedDigits(y, 4)
    else if y < 0 then "-" + PadStart(NatToString(-y), 6, '0')
    else "+" + PadStart(NatToString(y), 6, '0')
  }

  /** The month and day fields of an ISO date, with their dashes: `-MM-DD`. */
  function MonthDayField(m: nat, d: nat): string {
    "-" + (FixedDigits(m, 2) + ("-" + FixedDigits(d, 2)))
  }

  /** The date part of `toISOString()`, `YYYY-MM-DD`. */
  function FormatDate(n: int): string {
    var d := CivilFromDays(n);
    YearField(d.year) + MonthDayField(d.month, d.day)
  }

  /** Days whose year has four digits, where ISO dates have a fixed width. */
  predicate FourDigitYear(n: int) {
    0 <= CivilFromDays(n).year <= 9999
  }

  lemma Pow10Values()
    ensures Pow10(2) == 100 && Pow10(4) == 10000
  {
    assert Pow10(1) == 10;
    assert Pow10(3) == 1000;
  }

  /** The ISO text of a date with a four-digit year is ten characters long,
      with digits at the year, month and day positions, dashes between them,
      and no `T`. */
  lemma DateTextShape(y: int, m: nat, d: nat)
    requires 0 <= y <= 9999
    ensures var s := YearField(y) + MonthDayField(m, d);
      |s| == 10 && AllDigits(s[0..4]) && s[4] == '-' && AllDigits(s[5..7])
      && s[7] == '-' && AllDigits(s[8..10]) && 'T' !in s
  {
    var s := YearField(y) + MonthDayField(m, d);
    assert s[0..4] == FixedDigits(y, 4);
    assert s[5..7] == FixedDigits(m, 2);
    assert s[8..10] == FixedDigits(d, 2);
    forall i | 0 <= i < 10 ensures s[i] != 'T' {
      if i < 4 { assert IsDigit(s[0..4][i]); }
      else if 5 <= i < 7 { assert IsDigit(s[5..7][i - 5]); }
      else if 8 <= i { assert IsDigit(s[8..10][i - 8]); }
    }
  }

  lemma FormatDateShape(n: int)
    requires FourDigitYear(n)
    ensures var s := FormatDate(n);
      |s| == 10 && AllDigits(s[0..4]) && s[4] == '-' && AllDigits(s[5..7])
      && s[7] == '-' && AllDigits(s[8..10]) && 'T' !in s
  {
    var d := CivilFromDays(n);
    DateTextShape(d.year, d.month, d.day);
  }

  /** `-MM-DD` fields compare as their (month, day) pairs. */
  lemma MonthDayFieldOrder(m1: nat, d1: nat, m2: nat, d2: nat)
    requires m1 < 100 && d1 < 100 && m2 < 100 && d2 < 100
    ensures LexLt(MonthDayField(m1, d1), MonthDayField(m2, d2)) <==> m1 < m2 || (m1 == m2 && d1 < d2)
    ensures MonthDayField(m1, d1) == MonthDayField(m2, d2) <==> m1 == m2 && d1 == d2
  {
    Pow10Values();
    FixedDigitsOrder(m1, m2, 2);
    FixedDigitsOrder(d1, d2, 2);
    var ma, mb := FixedDigits(m1, 2), FixedDigits(m2, 2);
    var da, db := FixedDigits(d1, 2), FixedDigits(d2, 2);
    LexLtIrreflexive("-");
    LexLtAppend("-", da, "-", db);
    LexLtAppend(ma, "-" + da, mb, "-" + db);
    LexLtAppend("-", ma + ("-" + da), "-", mb + ("-" + db));
    if MonthDayField(m1, d1) == MonthDayField(m2, d2) {
      assert MonthDayField(m1, d1)[1..3] == ma && MonthDayField(m2, d2)[1..3] == mb;
      assert MonthDayField(m1, d1)[4..6] == da && MonthDayField(m2, d2)[4..6] == db;
    }
  }

  /** For four-digit years, string order of ISO dates is chronological order:
      this is what makes the string comparisons of the worklog filter compare
      days. */
  lemma FormatDateOrder(n1: int, n2: int)
    requires FourDigitYear(n1) && FourDigitYear(n2)
    ensures LexLt(FormatDate(n1), FormatDate(n2)) <==> n1 < n2
    ensures FormatDate(n1) == FormatDate(n2) <==> n1 == n2
  {
    var a, b := CivilFromDays(n1), CivilFromDays(n2);
    Pow10Values();
    FixedDigitsOrder(a.year, b.year, 4);
    MonthDayFieldOrder(a.month, a.day, b.month, b.day);
    var ya, yb := FixedDigits(a.year, 4), FixedDigits(b.year, 4);
    var ta, tb := MonthDayField(a.month, a.day), MonthDayField(b.month, b.day);
    LexLtAppend(ya, ta, yb, tb);
    CivilOrder(n1, n2);
    if FormatDate(n1) == FormatDate(n2) {
      assert (ya + ta)[..4] == ya && (yb + tb)[..4] == yb;
      assert (ya + ta)[4..] == ta && (yb + tb)[4..] == tb;
    }
  }

  /** The day that a timestamp starting `YYYY-MM-DD` denotes; `None` when the
      text does not start with a valid calendar date. */
  function ParseDate(s: string): (r: Option<int>)
    ensures r.Some? ==> |s| >= 10
  {
    if |s| >= 10 && AllDigits(s[0..4]) && s[4] == '-' && AllDigits(s[5..7])
       && s[7] == '-' && AllDigits(s[8..10])
    then
      var d := Date(DecimalValue(s[0..4]), DecimalValue(s[5..7]), DecimalValue(s[8..10]));
      if ValidDate(d) then Some(DayNumber(d.year, d.month, d.day)) else None
    else None
  }

  /** Reading back a formatted date yields the day it was formatted from,
      whatever follows it. */
  lemma ParseFormatDate(n: int, rest: string)
    requires FourDigitYear(n)
    ensures ParseDate(FormatDate(n) + rest) == Some(n)
  {
    var d := CivilFromDays(n);
    DatePrefix(d.year, d.month, d.day, rest);
    ParseDateDigits(FormatDate(n) + rest, d.year, d.month, d.day);
  }

  /** The fields of a date text with a four-digit year sit at fixed
      positions, whatever follows it. */
  lemma DatePrefix(y: int, m: nat, d: nat, rest: string)
    requires 0 <= y <= 9999
    ensures var s := YearField(y) + MonthDayField(m, d) + rest;
      |s| >= 10 && s[4] == '-' && s[7] == '-'
      && s[0..4] == FixedDigits(y, 4) && s[5..7] == FixedDigits(m, 2) && s[8..10] == FixedDigits(d, 2)
  {
    var s := YearField(y) + MonthDayField(m, d) + rest;
    assert s[0..4] == FixedDigits(y, 4);
    assert s[5..7] == FixedDigits(m, 2);
    assert s[8..10] == FixedDigits(d, 2);
  }

  /** A text that starts with the fixed-width fields of a valid date reads
      as that date. */
  lemma ParseDateDigits(s: string, y: nat, m: nat, d: nat)
    requires |s| >= 10 && s[4] == '-' && s[7] == '-'
    requires y < 10000 && m < 100 && d < 100 && ValidDate(Date(y, m, d))
    requires s[0..4] == FixedDigits(y, 4) && s[5..7] == FixedDigits(m, 2) && s[8..10] == FixedDigits(d, 2)
    ensures ParseDate(s) == Some(DayNumber(y, m, d))
  {
    Pow10Values();
    FixedDigitsValue(y, 4);
    FixedDigitsValue(m, 2);
    FixedDigitsValue(d, 2);
  }

  /** The first ten characters of a text that has the shape of a date are the
      rendering of the values of its fields. */
  lemma DatePrefixFields(s: string)
    requires |s| >= 10 && AllDigits(s[0..4]) && s[4] == '-' && AllDigits(s[5..7])
       && s[7] == '-' && AllDigits(s[8..10])
    ensures DecimalValue(s[0..4]) < 10000 && DecimalValue(s[5..7]) < 100 && DecimalValue(s[8..10]) < 100
    ensures s[..10] == FixedDigits(DecimalValue(s[0..4]), 4)
                       + MonthDayField(DecimalValue(s[5..7]), DecimalValue(s[8..10]))
  {
    Pow10Values();
    DigitsFixed(s[0..4]);
    DigitsFixed(s[5..7]);
    DigitsFixed(s[8..10]);
    assert s[..10] == s[0..4] + ("-" + (s[5..7] + ("-" + s[8..10])));
  }

  /** A text that parses to day `n` starts with the formatted date of `n`. */
  lemma ParseDateSound(s: string, n: int)
    requires ParseDate(s) == Some(n)
    ensures FourDigitYear(n) && FormatDate(n) == s[..10]
  {
    var d := Date(DecimalValue(s[0..4]), DecimalValue(s[5..7]), DecimalValue(s[8..10]));
    CivilRoundTrip(d);
    DatePrefixFields(s);
  }

  /** A digit string is the fixed-width rendering of its own value. */
  lemma {:induction false} DigitsFixed(s: string)
    requires AllDigits(s)
    ensures DecimalValue(s) < Pow10(|s|) && FixedDigits(DecimalValue(s), |s|) == s
    decreases |s|
  {
    if s != [] {
      var init := s[..|s| - 1];
      DigitsFixed(init);
      var v := DecimalValue(s);
      assert v / 10 == DecimalValue(init) && v % 10 == DigitValue(s[|s| - 1]);
      assert s == init + [s[|s| - 1]];
    }
  }

  // ---------------------------------------------------------------------------
  // Instants

  const MsPerDay := 86400000

  /** The day of an instant given in milliseconds since the epoch (ECMAScript's
      `Day(t)`, a floor division). */
  function DayOfInstant(t: int): int {
    t / MsPerDay
  }

  /** `HH:mm:ss.sss` for a time of day given in milliseconds. */
  function TimeField(ms: int): string
    requires 0 <= ms < MsPerDay
  {
    FixedDigits(ms / 3600000, 2) + ":" + FixedDigits(ms / 60000 % 60, 2) + ":"
      + FixedDigits(ms / 1000 % 60, 2) + "." + FixedDigits(ms % 1000, 3)
  }

  /** `Date.prototype.toISOString()`: `YYYY-MM-DDTHH:mm:ss.sssZ`. */
  function FormatInstant(t: int): string {
    FormatDate(DayOfInstant(t)) + "T" + TimeField(t % MsPerDay) + "Z"
  }

  /** Every character of a year field is a digit or a sign. */
  lemma YearFieldChars(y: int)
    ensures forall i :: 0 <= i < |YearField(y)| ==> IsDigit(YearField(y)[i]) || YearField(y)[i] in "+-"
  {
    if !(0 <= y <= 9999) {
      var digits := if y < 0 then NatToString(-y) else NatToString(y);
      var padded := PadStart(digits, 6, '0');
      forall i | 0 <= i < |padded| ensures IsDigit(padded[i]) {
        if i >= |padded| - |digits| {
          assert padded[i] == padded[|padded| - |digits|..][i - (|padded| - |digits|)];
        }
      }
      assert YearField(y) == (if y < 0 then "-" else "+") + padded;
    }
  }

  lemma DateTextChars(y: int, m: nat, d: nat)
    ensures var s := YearField(y) + MonthDayField(m, d);
      forall i :: 0 <= i < |s| ==> IsDigit(s[i]) || s[i] in "+-"
  {
    YearFieldChars(y);
    var yf, md := YearField(y), MonthDayField(m, d);
    var mf, df := FixedDigits(m, 2), FixedDigits(d, 2);
    forall i | 0 <= i < |md| ensures IsDigit(md[i]) || md[i] in "+-" {
      if 1 <= i < 3 { assert md[i] == mf[i - 1]; }
      else if 4 <= i { assert md[i] == df[i - 4]; }
    }
    forall i | 0 <= i < |yf + md| ensures IsDigit((yf + md)[i]) || (yf + md)[i] in "+-" {
      if i < |yf| { assert (yf + md)[i] == yf[i]; } else { assert (yf + md)[i] == md[i - |yf|]; }
    }
  }

  /** Every character of an ISO date is a digit or a sign. */
  lemma FormatDateChars(n: int)
    ensures forall i :: 0 <= i < |FormatDate(n)| ==> IsDigit(FormatDate(n)[i]) || FormatDate(n)[i] in "+-"
  {
    var d := CivilFromDays(n);
    DateTextChars(d.year, d.month, d.day);
  }

  /** The time of `toISOString()` holds neither `T` nor `Z`. */
  lemma TimeFieldChars(ms: int)
    requires 0 <= ms < MsPerDay
    ensures 'T' !in TimeField(ms) && 'Z' !in TimeField(ms)
  {
    var s := TimeField(ms);
    forall i | 0 <= i < |s| ensures IsDigit(s[i]) || s[i] in ":." {
      var h, m, sec, milli := FixedDigits(ms / 3600000, 2), FixedDigits(ms / 60000 % 60, 2),
        FixedDigits(ms / 1000 % 60, 2), FixedDigits(ms % 1000, 3);
      assert s == h + ":" + m + ":" + sec + "." + milli;
      if i < 2 { assert s[i] == h[i]; }
      else if 3 <= i < 5 { assert s[i] == m[i - 3]; }
      else if 6 <= i < 8 { assert s[i] == sec[i - 6]; }
      else if 9 <= i { assert s[i] == milli[i - 9]; }
    }
  }

  /** `toISOString().split("T")[0]` is the ISO date of the instant's day, and
      the only `Z` of the text is its last character. */
  lemma FormatInstantParts(t: int)
    ensures FirstField(FormatInstant(t), 'T') == FormatDate(DayOfInstant(t))
    ensures var body := FormatDate(DayOfInstant(t)) + "T" + TimeField(t % MsPerDay);
      FormatInstant(t) == body + "Z" && 'Z' !in body
    ensures 'T' !in FormatDate(DayOfInstant(t))
  {
    var date := FormatDate(DayOfInstant(t));
    var time := TimeField(t % MsPerDay);
    FormatDateLetters(DayOfInstant(t));
    TimeFieldChars(t % MsPerDay);
    InstantShape(date, time);
  }

  /** An ISO date holds neither `T` nor `Z`. */
  lemma FormatDateLetters(n: int)
    ensures 'T' !in FormatDate(n) && 'Z' !in FormatDate(n)
  {
    FormatDateChars(n);
  }

  /** The text `date T time Z`, with no `T` in the date and no `Z` in either
      part, has the date as its first `T` field and a single `Z` at its end. */
  lemma InstantShape(date: string, time: string)
    requires 'T' !in date && 'Z' !in date && 'Z' !in time
    ensures FirstField(date + "T" + time + "Z", 'T') == date
    ensures 'Z' !in date + "T" + time
  {
    FirstFieldOf(date, time + "Z", 'T');
    assert date + "T" + time + "Z" == date + ['T'] + (time + "Z");
    var body := date + "T" + time;
    forall i | 0 <= i < |body| ensures body[i] != 'Z' {
      if i < |date| { assert body[i] == date[i]; }
      else if i > |date| { assert body[i] == time[i - |date| - 1]; }
    }
  }

}
