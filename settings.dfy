/** The settings page's rules: the notification time's hour and minute
    pickers and their option lists, adding a log template, and the
    add-account form. */
module Settings {
  import opened Wrappers
  import opened Text
  import opened Elapsed

  /** `notificationTime.split(":")[0]` */
  function HourPart(time: string): string {
    Split(time, ':')[0]
  }

  /** `notificationTime.split(":")[1]`, where a missing part (no colon) is
      empty: both are falsy and neither is among the minute options. */
  function MinutePart(time: string): string {
    var parts := Split(time, ':');
    if |parts| >= 2 then parts[1] else ""
  }

  /** Choosing an hour keeps the current minute, or `00` when there is none. */
  function OnHourChange(time: string, newHour: string): string {
    var minute := if MinutePart(time) == "" then "00" else MinutePart(time);
    newHour + ":" + minute
  }

  /** Choosing a minute keeps the current hour, or `17` when it is empty. */
  function OnMinuteChange(time: string, newMinute: string): string {
    var hour := if HourPart(time) == "" then "17" else HourPart(time);
    hour + ":" + newMinute
  }

  /** The hour and minute of `hour:minute` read back as those parts. */
  lemma ReadBack(hour: string, minute: string)
    requires ':' !in hour && ':' !in minute
    ensures HourPart(hour + ":" + minute) == hour
    ensures MinutePart(hour + ":" + minute) == minute
  {
    SplitCons(hour, minute, ':');
    SplitNoSeparator(minute, ':');
  }

  /** After choosing an hour, the time shows that hour and the minute it
      had before (`00` when it had none). */
  lemma HourChangeKeepsMinute(time: string, newHour: string)
    requires ':' !in newHour
    ensures HourPart(OnHourChange(time, newHour)) == newHour
    ensures MinutePart(OnHourChange(time, newHour))
      == (if MinutePart(time) == "" then "00" else MinutePart(time))
  {
    var parts := Split(time, ':');
    var minute := if MinutePart(time) == "" then "00" else MinutePart(time);
    assert ':' !in minute by {
      if |parts| >= 2 { assert ':' !in parts[1]; }
    }
    ReadBack(newHour, minute);
  }

  /** After choosing a minute, the time shows that minute and the hour it had
      before (`17` when it was empty). */
  lemma MinuteChangeKeepsHour(time: string, newMinute: string)
    requires ':' !in newMinute
    ensures MinutePart(OnMinuteChange(time, newMinute)) == newMinute
    ensures HourPart(OnMinuteChange(time, newMinute))
      == (if HourPart(time) == "" then "17" else HourPart(time))
  {
    var hour := if HourPart(time) == "" then "17" else HourPart(time);
    assert ':' !in hour;
    ReadBack(hour, newMinute);
  }

  /** The hour picker: `String(i).padStart(2, "0")` for i from 0 to 23. */
  function HourOptions(): seq<string> {
    seq(24, i requires 0 <= i < 24 => Field(i))
  }

  /** The twelve minutes `00`, `05`, ..., `55`. */
  function FiveMinuteOptions(): seq<string> {
    seq(12, i requires 0 <= i < 12 => Field(i * 5))
  }

  /** The minute picker: the twelve five-minute steps, and after them the
      current minute when it is not one of them. */
  function MinuteOptions(time: string): seq<string> {
    var base := FiveMinuteOptions();
    var minute := MinutePart(time);
    if minute in base then base else base + [minute]
  }

  /** A two-digit text is the rendering of its value. */
  lemma TwoDigitField(s: string)
    requires |s| == 2 && AllDigits(s)
    ensures DecimalValue(s) < 100 && s == Field(DecimalValue(s))
  {
    FixedDigitsOfValue(s);
    FixedDigitsValue(DecimalValue(s) % 100, 2);
    assert DecimalValue(s) == 10 * DigitValue(s[0]) + DigitValue(s[1]) by {
      assert s[..1][..0] == [];
    }
    FieldTwoDigits(DecimalValue(s));
  }

  /** The hour options are exactly the two-digit texts of 0 to 23, in
      ascending text order. */
  lemma HourOptionsSpec(h: string)
    ensures |HourOptions()| == 24
    ensures h in HourOptions() <==> |h| == 2 && AllDigits(h) && DecimalValue(h) < 24
    ensures forall i, j :: 0 <= i < j < 24 ==> LexLt(HourOptions()[i], HourOptions()[j])
  {
    var opts := HourOptions();
    if h in opts {
      var i :| 0 <= i < 24 && opts[i] == h;
      FieldTwoDigits(i);
      FixedDigitsValue(i, 2);
    }
    if |h| == 2 && AllDigits(h) && DecimalValue(h) < 24 {
      TwoDigitField(h);
      assert opts[DecimalValue(h)] == h;
    }
    forall i, j | 0 <= i < j < 24 ensures LexLt(opts[i], opts[j]) {
      FieldTwoDigits(i);
      FieldTwoDigits(j);
      FixedDigitsOrder(i, j, 2);
    }
  }

  lemma MultipleOfFive(i: int, n: int)
    requires 0 <= i < 12 && n == i * 5
    ensures n < 60 && n % 5 == 0
  {
  }

  /** The `i`-th five-minute option is the two-digit text of `5 * i`. */
  lemma FiveMinuteAt(i: int, n: int)
    requires 0 <= i < 12 && n == i * 5
    ensures FiveMinuteOptions()[i] == Field(n)
    ensures |Field(n)| == 2 && AllDigits(Field(n)) && DecimalValue(Field(n)) == n
    ensures n < 60 && n % 5 == 0
  {
    MultipleOfFive(i, n);
    FieldTwoDigits(n);
    FixedDigitsValue(n, 2);
  }

  /** A two-digit multiple of five below sixty is a five-minute option. */
  lemma FiveMinuteOf(m: string, v: int)
    requires |m| == 2 && AllDigits(m) && v == DecimalValue(m) && v < 60 && v % 5 == 0
    ensures m in FiveMinuteOptions()
  {
    var k := v / 5;
    TwoDigitField(m);
    FiveMinuteAt(k, v);
  }

  /** A five-minute option is a two-digit multiple of five below sixty. */
  lemma FiveMinuteValue(m: string)
    requires m in FiveMinuteOptions()
    ensures |m| == 2 && AllDigits(m) && DecimalValue(m) < 60 && DecimalValue(m) % 5 == 0
  {
    var base := FiveMinuteOptions();
    var i :| 0 <= i < 12 && base[i] == m;
    var n := i * 5;
    FiveMinuteAt(i, n);
  }

  /** A minute is a five-minute option exactly when it is two digits whose
      value is a multiple of five below sixty. */
  lemma FiveMinuteMember(m: string)
    ensures m in FiveMinuteOptions()
      <==> |m| == 2 && AllDigits(m) && DecimalValue(m) < 60 && DecimalValue(m) % 5 == 0
  {
    if m in FiveMinuteOptions() {
      FiveMinuteValue(m);
    }
    if |m| == 2 && AllDigits(m) && DecimalValue(m) < 60 && DecimalValue(m) % 5 == 0 {
      FiveMinuteOf(m, DecimalValue(m));
    }
  }

  /** The minute picker always offers the current minute, after the twelve
      five-minute steps, and adds it exactly when it is not one of them. */
  lemma MinuteOptionsSpec(time: string)
    ensures MinutePart(time) in MinuteOptions(time)
    ensures MinuteOptions(time)[..12] == FiveMinuteOptions()
    ensures |MinuteOptions(time)| == 13 <==> MinutePart(time) !in FiveMinuteOptions()
  {
  }

  /** The minute picker offers no option twice. */
  lemma MinuteOptionsDistinct(time: string)
    ensures forall i, j :: 0 <= i < j < |MinuteOptions(time)| ==> MinuteOptions(time)[i] != MinuteOptions(time)[j]
  {
    var base := FiveMinuteOptions();
    var opts := MinuteOptions(time);
    forall i, j | 0 <= i < j < |opts| ensures opts[i] != opts[j] {
      if j < 12 {
        FiveMinuteDistinct(i, j);
      } else {
        assert opts[i] == base[i];
      }
    }
  }

  /** The five-minute options are pairwise different. */
  lemma FiveMinuteDistinct(i: int, j: int)
    requires 0 <= i < j < 12
    ensures FiveMinuteOptions()[i] != FiveMinuteOptions()[j]
  {
    var a := i * 5;
    var b := j * 5;
    assert a < b;
    FiveMinuteAt(i, a);
    FiveMinuteAt(j, b);
  }

  /** The template button: the trimmed text is added when it is not empty,
      and then the field is cleared; otherwise nothing happens. */
  datatype TemplateResult = TemplateResult(added: Option<string>, field: string)

  function AddTemplate(field: string): TemplateResult {
    var value := Trim(field);
    if value == "" then TemplateResult(None, field) else TemplateResult(Some(value), "")
  }

  /** A template is added exactly when the text holds a non-space character;
      it is the text without its surrounding white space. */
  lemma AddTemplateSpec(field: string)
    ensures var r := AddTemplate(field);
      && (r.added.Some? <==> exists k :: 0 <= k < |field| && !IsJsSpace(field[k]))
      && (r.added.Some? ==>
            && r.field == ""
            && !IsJsSpace(r.added.value[0]) && !IsJsSpace(r.added.value[|r.added.value| - 1])
            && exists i, j :: 0 <= i < j <= |field| && r.added.value == field[i..j]
                 && (forall k :: 0 <= k < i ==> IsJsSpace(field[k]))
                 && (forall k :: j <= k < |field| ==> IsJsSpace(field[k])))
      && (r.added.None? ==> r.field == field)
  {
    TrimEmpty(field);
    TrimSpec(field);
  }

  /** The add-account form: the three fields, and the `addAccount` call the
      button makes. */
  datatype AccountForm = AccountForm(email: string, domain: string, token: string)

  datatype FormResult = FormResult(call: Option<AccountForm>, form: AccountForm)

  function SubmitAccountForm(form: AccountForm): FormResult {
    if form.email == "" || form.domain == "" || form.token == "" then FormResult(None, form)
    else FormResult(Some(form), AccountForm("", "", ""))
  }

  /** The account is added, with the fields as typed, exactly when none of
      them is empty; after adding, the form is empty, and otherwise it is
      left as it was. */
  lemma SubmitAccountFormSpec(form: AccountForm)
    ensures var r := SubmitAccountForm(form);
      && (r.call.Some? <==> form.email != "" && form.domain != "" && form.token != "")
      && (r.call.Some? ==> r.call.value == form && r.form == AccountForm("", "", ""))
      && (r.call.None? ==> r.form == form)
  {
  }
}
