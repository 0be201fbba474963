/** `formatElapsedTime`: a number of seconds as `HH:MM:SS`, each field the
    decimal number padded with zeros to at least two characters, hours not
    wrapped at 24 or 100. */
module Elapsed {
  import opened Wrappers
  import opened Text

  /** `x % y` in JavaScript for a positive `y`: the remainder has the sign of
      `x`. */
  function JsRem(x: int, y: int): (r: int)
    requires y > 0
    ensures x >= 0 ==> r == x % y
    ensures x < 0 ==> -y < r <= 0
  {
    if x >= 0 then x % y else -((-x) % y)
  }

  /** `n.toString().padStart(2, "0")` */
  function Field(n: int): string {
    PadStart(IntToString(n), 2, '0')
  }

  datatype Clock = Clock(hours: int, minutes: int, seconds: int)

  /** Below one hundred, the padded field is the two-digit rendering. */
  lemma FieldTwoDigits(n: int)
    requires 0 <= n < 100
    ensures Field(n) == FixedDigits(n, 2)
  {
    FieldSpec(n);
    if n >= 10 {
      NatToStringLength(n, 2);
    }
    FixedDigitsOfValue(Field(n));
  }

  /** `Math.floor(sec / 3600)`, `Math.floor((sec % 3600) / 60)`, `sec % 60` */
  function Parts(sec: int): Clock {
    Clock(sec / 3600, JsRem(sec, 3600) / 60, JsRem(sec, 60))
  }

  function FormatElapsedTime(sec: int): string {
    var c := Parts(sec);
    Field(c.hours) + ":" + Field(c.minutes) + ":" + Field(c.seconds)
  }

  /** For a non-negative count, the three fields are hours, minutes below 60
      and seconds below 60 that add up to the count again. */
  lemma PartsSpec(sec: int)
    requires sec >= 0
    ensures var c := Parts(sec);
      c.hours >= 0 && 0 <= c.minutes < 60 && 0 <= c.seconds < 60
      && c.hours * 3600 + c.minutes * 60 + c.seconds == sec
  {
    var h, r := sec / 3600, sec % 3600;
    var q := r / 60;
    assert sec == 3600 * h + r;
    assert r == 60 * q + r % 60;
    assert sec == 60 * (60 * h + q) + r % 60;
    assert sec % 60 == r % 60;
  }

  /** Those are the only such fields. */
  lemma PartsUnique(sec: int, c: Clock)
    requires sec >= 0 && c.hours >= 0 && 0 <= c.minutes < 60 && 0 <= c.seconds < 60
    requires c.hours * 3600 + c.minutes * 60 + c.seconds == sec
    ensures Parts(sec) == c
  {
    PartsSpec(sec);
    var p := Parts(sec);
    var a := p.minutes * 60 + p.seconds;
    var b := c.minutes * 60 + c.seconds;
    assert 0 <= a < 3600 && 0 <= b < 3600;
    assert (p.hours - c.hours) * 3600 == b - a;
    assert p.hours == c.hours;
    assert (p.minutes - c.minutes) * 60 == c.seconds - p.seconds;
  }

  /** Numbers from ten have two digits or more, from a hundred three or more. */
  lemma {:induction false} NatToStringWide(n: nat)
    ensures n >= 10 ==> |NatToString(n)| >= 2
    ensures n >= 100 ==> |NatToString(n)| >= 3
    decreases n
  {
    if n >= 10 {
      var q := n / 10;
      assert NatToString(n) == NatToString(q) + [DigitChar(n % 10)];
      if n >= 100 {
        assert q >= 10;
        NatToStringWide(q);
      }
    }
  }

  /** A field of a non-negative number is its full decimal rendering, with
      one leading zero below ten: at least two digits, never cut. */
  lemma FieldSpec(n: int)
    requires n >= 0
    ensures AllDigits(Field(n)) && DecimalValue(Field(n)) == n
    ensures n < 10 ==> |Field(n)| == 2
    ensures n >= 10 ==> Field(n) == NatToString(n)
  {
    var s := NatToString(n);
    assert IntToString(n) == s;
    NatToStringValue(n);
    PadStartValue(s, 2);
    NatToStringWide(n);
  }

  /** A hundred hours or more appear in full: the hours field is the number of
      hours with three or more digits. */
  lemma HoursInFull(sec: int)
    requires sec >= 360000
    ensures Field(Parts(sec).hours) == NatToString(sec / 3600)
    ensures |Field(Parts(sec).hours)| >= 3
  {
    var h := sec / 3600;
    assert h >= 100;
    FieldSpec(h);
    NatToStringWide(h);
  }

  /** Reading `H:M:S` back as a number of seconds. */
  function ParseElapsed(t: string): Option<int> {
    ReadParts(Split(t, ':'))
  }

  function ReadParts(parts: seq<string>): Option<int> {
    if |parts| == 3 then ReadFields(parts[0], parts[1], parts[2]) else None
  }

  /** Hours, minutes and seconds read from three digit strings. */
  function ReadFields(h: string, m: string, s: string): Option<int> {
    if AllDigits(h) && AllDigits(m) && AllDigits(s) then
      Some(DecimalValue(h) * 3600 + DecimalValue(m) * 60 + DecimalValue(s))
    else None
  }

  lemma SplitTwo(b: string, c: string)
    requires ':' !in b && ':' !in c
    ensures Split(b + [':'] + c, ':') == [b, c]
  {
    SplitCons(b, c, ':');
    SplitNoSeparator(c, ':');
  }

  /** Splitting three colon-free parts joined by colons gives them back. */
  lemma SplitThree(a: string, b: string, c: string)
    requires ':' !in a && ':' !in b && ':' !in c
    ensures Split(a + ":" + b + ":" + c, ':') == [a, b, c]
  {
    var rest := b + [':'] + c;
    JoinRegroup(a, b, c);
    SplitCons(a, rest, ':');
    SplitTwo(b, c);
    assert [a] + [b, c] == [a, b, c];
  }

  lemma JoinRegroup(a: string, b: string, c: string)
    ensures a + ":" + b + ":" + c == a + [':'] + (b + [':'] + c)
  {
  }

  lemma NoColon(s: string)
    requires AllDigits(s)
    ensures ':' !in s
  {
    forall i | 0 <= i < |s| ensures s[i] != ':' { assert IsDigit(s[i]); }
  }

  lemma ReadThree(a: string, b: string, c: string)
    ensures ReadParts([a, b, c]) == ReadFields(a, b, c)
  {
    var parts := [a, b, c];
    assert parts[0] == a && parts[1] == b && parts[2] == c;
  }

  /** Three colon-free strings joined by colons are read as exactly those
      three fields. */
  lemma ParseJoined(a: string, b: string, c: string)
    requires ':' !in a && ':' !in b && ':' !in c
    ensures ParseElapsed(a + ":" + b + ":" + c) == ReadFields(a, b, c)
  {
    SplitThree(a, b, c);
    ReadThree(a, b, c);
  }

  /** A field of a non-negative number is a digit string of that value. */
  lemma FieldValue(n: int)
    requires n >= 0
    ensures AllDigits(Field(n)) && DecimalValue(Field(n)) == n
  {
    FieldSpec(n);
  }

  lemma ReadDigitFields(h: string, m: string, s: string, sec: int)
    requires AllDigits(h) && AllDigits(m) && AllDigits(s)
    requires DecimalValue(h) * 3600 + DecimalValue(m) * 60 + DecimalValue(s) == sec
    ensures ReadFields(h, m, s) == Some(sec)
  {
  }

  /** The three fields of a split count read as that count. */
  lemma ReadFieldsBack(hours: int, minutes: int, seconds: int, sec: int)
    requires hours >= 0 && minutes >= 0 && seconds >= 0
    requires hours * 3600 + minutes * 60 + seconds == sec
    ensures ReadFields(Field(hours), Field(minutes), Field(seconds)) == Some(sec)
  {
    FieldValue(hours);
    FieldValue(minutes);
    FieldValue(seconds);
    ReadDigitFields(Field(hours), Field(minutes), Field(seconds), sec);
  }

  lemma FieldsColonFree(hours: int, minutes: int, seconds: int)
    requires hours >= 0 && minutes >= 0 && seconds >= 0
    ensures ':' !in Field(hours) && ':' !in Field(minutes) && ':' !in Field(seconds)
  {
    FieldValue(hours);
    FieldValue(minutes);
    FieldValue(seconds);
    NoColon(Field(hours));
    NoColon(Field(minutes));
    NoColon(Field(seconds));
  }

  /** Fields of hours, minutes and seconds that add up to `sec` read back
      as `sec`. */
  lemma ParseFields(hours: int, minutes: int, seconds: int, sec: int)
    requires hours >= 0 && minutes >= 0 && seconds >= 0
    requires hours * 3600 + minutes * 60 + seconds == sec
    ensures ParseElapsed(Field(hours) + ":" + Field(minutes) + ":" + Field(seconds)) == Some(sec)
  {
    FieldsColonFree(hours, minutes, seconds);
    ParseJoined(Field(hours), Field(minutes), Field(seconds));
    ReadFieldsBack(hours, minutes, seconds, sec);
  }

  /** The formatted text reads back as the count it was formatted from. */
  lemma ParseFormatElapsed(sec: int)
    requires sec >= 0
    ensures ParseElapsed(FormatElapsedTime(sec)) == Some(sec)
  {
    var c := Parts(sec);
    PartsSpec(sec);
    ParseFields(c.hours, c.minutes, c.seconds, sec);
  }

  /** A single-digit field is that digit after a zero. */
  lemma FieldOneDigit(n: int)
    requires 0 <= n < 10
    ensures Field(n) == ['0', DigitChar(n)]
  {
    assert IntToString(n) == [DigitChar(n)];
  }

  /** Three two-character fields joined by colons. */
  lemma JoinPairs(a: string, b: string, c: string, x: char, y: char, z: char)
    requires a == ['0', x] && b == ['0', y] && c == ['0', z]
    ensures a + ":" + b + ":" + c == ['0', x, ':', '0', y, ':', '0', z]
  {
  }

  /** Three single-digit fields, such as 3661 seconds, which is written
      `01:01:01`. */
  lemma FormatSmallClock(sec: int, h: int, m: int, s: int)
    requires 0 <= h < 10 && 0 <= m < 10 && 0 <= s < 10
    requires sec == 3600 * h + 60 * m + s
    ensures FormatElapsedTime(sec) == ['0', DigitChar(h), ':', '0', DigitChar(m), ':', '0', DigitChar(s)]
  {
    PartsUnique(sec, Clock(h, m, s));
    FieldOneDigit(h);
    FieldOneDigit(m);
    FieldOneDigit(s);
    JoinPairs(Field(h), Field(m), Field(s), DigitChar(h), DigitChar(m), DigitChar(s));
  }

  /** 3661 seconds are shown as `01:01:01`. */
  lemma FormatOneHourOneMinuteOneSecond()
    ensures FormatElapsedTime(3661) == "01:01:01"
  {
    FormatSmallClock(3661, 1, 1, 1);
  }
}
