/** The worklog records fetched from Jira and the range filter of
    `checkWorklogs`: every worklog of every returned issue whose start date
    (the text before the first `T`) lies between the window's first and last
    dates, compared as strings. */
module Worklogs {
  import opened Wrappers
  import opened Text
  import opened IsoDate

  /** An Atlassian document: paragraphs of text nodes. */
  datatype Doc = Doc(paragraphs: seq<seq<string>>)

  /** A worklog as Jira returns it inside an issue. */
  datatype RawLog = RawLog(id: string, started: string, timeSpentSeconds: nat, comment: Option<Doc>)

  /** An issue of the search result; `worklogs` is `None` when the issue
      carries no worklog field. */
  datatype Issue = Issue(key: string, summary: string, worklogs: Option<seq<RawLog>>)

  /** A worklog of the current user, flattened with its issue's key and summary. */
  datatype Worklog = Worklog(id: string, issueKey: string, issueSummary: string,
                             timeSpentSeconds: nat, started: string, comment: Option<Doc>)

  /** `issue.fields.worklog?.worklogs || []` */
  function LogsOf(issue: Issue): seq<RawLog> {
    issue.worklogs.GetOr([])
  }

  /** The date part of a start timestamp: `started.split("T")[0]`. */
  function LogDate(started: string): string {
    FirstField(started, 'T')
  }

  /** `d >= after && d <= before` on strings. */
  predicate InRange(d: string, after: string, before: string) {
    !LexLt(d, after) && !LexLt(before, d)
  }

  function ToWorklog(issue: Issue, log: RawLog): Worklog {
    Worklog(log.id, issue.key, issue.summary, log.timeSpentSeconds, log.started, log.comment)
  }

  predicate Selected(log: RawLog, after: string, before: string) {
    InRange(LogDate(log.started), after, before)
  }

  /** The selected worklogs among `logs` of `issue`, in order. */
  function MatchingLogs(issue: Issue, logs: seq<RawLog>, after: string, before: string): seq<Worklog>
  {
    if |logs| == 0 then []
    else
      var last := logs[|logs| - 1];
      MatchingLogs(issue, logs[..|logs| - 1], after, before)
        + (if Selected(last, after, before) then [ToWorklog(issue, last)] else [])
  }

  /** The selected worklogs of all `issues`, issue by issue, in order. */
  function FilterWorklogs(issues: seq<Issue>, after: string, before: string): seq<Worklog>
  {
    if |issues| == 0 then []
    else
      var last := issues[|issues| - 1];
      FilterWorklogs(issues[..|issues| - 1], after, before)
        + MatchingLogs(last, LogsOf(last), after, before)
  }

  /** The nested loops of `checkWorklogs` that fill `userWorklogs`. */
  method CollectWorklogs(issues: seq<Issue>, after: string, before: string) returns (userWorklogs: seq<Worklog>)
    ensures userWorklogs == FilterWorklogs(issues, after, before)
  {
    userWorklogs := [];
    var i := 0;
    while i < |issues|
      invariant 0 <= i <= |issues|
      invariant userWorklogs == FilterWorklogs(issues[..i], after, before)
    {
      var issue := issues[i];
      var issueLogs := LogsOf(issue);
      ghost var before_ := userWorklogs;
      var j := 0;
      while j < |issueLogs|
        invariant 0 <= j <= |issueLogs|
        invariant userWorklogs == before_ + MatchingLogs(issue, issueLogs[..j], after, before)
      {
        var log := issueLogs[j];
        var logDate := LogDate(log.started);
        if InRange(logDate, after, before) {
          userWorklogs := userWorklogs + [ToWorklog(issue, log)];
        }
        assert issueLogs[..j + 1][..j] == issueLogs[..j];
        j := j + 1;
      }
      assert issueLogs[..j] == issueLogs;
      assert issues[..i + 1][..i] == issues[..i];
      i := i + 1;
    }
    assert issues[..i] == issues;
  }

  /** Every selected log of the issue is among its matching worklogs. */
  lemma {:induction false} MatchingLogsComplete(issue: Issue, logs: seq<RawLog>, after: string, before: string, j: int)
    requires 0 <= j < |logs| && Selected(logs[j], after, before)
    ensures ToWorklog(issue, logs[j]) in MatchingLogs(issue, logs, after, before)
    decreases |logs|
  {
    var init := logs[..|logs| - 1];
    if j < |init| {
      assert init[j] == logs[j];
      MatchingLogsComplete(issue, init, after, before, j);
    }
  }

  /** Every matching worklog is built from a selected log of the issue. */
  lemma {:induction false} MatchingLogsSound(issue: Issue, logs: seq<RawLog>, after: string, before: string, w: Worklog)
    requires w in MatchingLogs(issue, logs, after, before)
    ensures exists j :: 0 <= j < |logs| && Selected(logs[j], after, before) && w == ToWorklog(issue, logs[j])
    decreases |logs|
  {
    var init := logs[..|logs| - 1];
    var last := logs[|logs| - 1];
    if w in MatchingLogs(issue, init, after, before) {
      MatchingLogsSound(issue, init, after, before, w);
      var j :| 0 <= j < |init| && Selected(init[j], after, before) && w == ToWorklog(issue, init[j]);
      assert logs[j] == init[j];
    } else {
      assert w == ToWorklog(issue, last);
      assert logs[|logs| - 1] == last;
    }
  }

  /** Every log of every issue whose date is in range is collected. */
  lemma {:induction false} FilterWorklogsComplete(issues: seq<Issue>, after: string, before: string, i: int, j: int)
    requires 0 <= i < |issues| && 0 <= j < |LogsOf(issues[i])|
    requires Selected(LogsOf(issues[i])[j], after, before)
    ensures ToWorklog(issues[i], LogsOf(issues[i])[j]) in FilterWorklogs(issues, after, before)
    decreases |issues|
  {
    var init := issues[..|issues| - 1];
    var last := issues[|issues| - 1];
    if i < |init| {
      assert init[i] == issues[i];
      FilterWorklogsComplete(init, after, before, i, j);
    } else {
      MatchingLogsComplete(last, LogsOf(last), after, before, j);
    }
  }

  /** Every collected worklog is built from a log, in range, of one of the
      issues. */
  lemma {:induction false} FilterWorklogsSound(issues: seq<Issue>, after: string, before: string, w: Worklog)
    requires w in FilterWorklogs(issues, after, before)
    ensures exists i, j ::
              && 0 <= i < |issues| && 0 <= j < |LogsOf(issues[i])|
              && Selected(LogsOf(issues[i])[j], after, before)
              && w == ToWorklog(issues[i], LogsOf(issues[i])[j])
    decreases |issues|
  {
    var init := issues[..|issues| - 1];
    var last := issues[|issues| - 1];
    if w in FilterWorklogs(init, after, before) {
      FilterWorklogsSound(init, after, before, w);
      var i, j :| 0 <= i < |init| && 0 <= j < |LogsOf(init[i])|
        && Selected(LogsOf(init[i])[j], after, before) && w == ToWorklog(init[i], LogsOf(init[i])[j]);
      assert issues[i] == init[i];
    } else {
      MatchingLogsSound(last, LogsOf(last), after, before, w);
      var j :| 0 <= j < |LogsOf(last)| && Selected(LogsOf(last)[j], after, before) && w == ToWorklog(last, LogsOf(last)[j]);
      assert issues[|issues| - 1] == last;
    }
  }

  /** The worklogs among `ws` whose date is in range. */
  function KeepInRange(ws: seq<Worklog>, after: string, before: string): seq<Worklog> {
    if |ws| == 0 then []
    else
      KeepInRange(ws[..|ws| - 1], after, before)
        + (if InRange(LogDate(ws[|ws| - 1].started), after, before) then [ws[|ws| - 1]] else [])
  }

  lemma {:induction false} KeepInRangeAppend(a: seq<Worklog>, b: seq<Worklog>, after: string, before: string)
    ensures KeepInRange(a + b, after, before) == KeepInRange(a, after, before) + KeepInRange(b, after, before)
    decreases |b|
  {
    if |b| == 0 {
      assert a + b == a;
    } else {
      assert (a + b)[..|a + b| - 1] == a + b[..|b| - 1];
      KeepInRangeAppend(a, b[..|b| - 1], after, before);
    }
  }

  /** Filtering the collected worklogs again by the same range keeps all of
      them: every collected worklog is in range. */
  lemma {:induction false} FilterWorklogsInRange(issues: seq<Issue>, after: string, before: string)
    ensures KeepInRange(FilterWorklogs(issues, after, before), after, before) == FilterWorklogs(issues, after, before)
    decreases |issues|
  {
    if |issues| > 0 {
      var init := issues[..|issues| - 1];
      var last := issues[|issues| - 1];
      FilterWorklogsInRange(init, after, before);
      MatchingLogsInRange(last, LogsOf(last), after, before);
      KeepInRangeAppend(FilterWorklogs(init, after, before), MatchingLogs(last, LogsOf(last), after, before), after, before);
    }
  }

  lemma {:induction false} MatchingLogsInRange(issue: Issue, logs: seq<RawLog>, after: string, before: string)
    ensures KeepInRange(MatchingLogs(issue, logs, after, before), after, before) == MatchingLogs(issue, logs, after, before)
    decreases |logs|
  {
    if |logs| > 0 {
      var last := logs[|logs| - 1];
      var tail := if Selected(last, after, before) then [ToWorklog(issue, last)] else [];
      MatchingLogsInRange(issue, logs[..|logs| - 1], after, before);
      KeepInRangeAppend(MatchingLogs(issue, logs[..|logs| - 1], after, before), tail, after, before);
      if Selected(last, after, before) {
        assert KeepInRange(tail, after, before) == KeepInRange(tail[..0], after, before) + tail;
      }
    }
  }

  /** On ISO dates with four-digit years, the string range test is the
      calendar range test, and the date of a timestamp `YYYY-MM-DDT...` is its
      first ten characters. */
  lemma SelectedIsCalendarRange(k: int, rest: string, first: int, last: int)
    requires FourDigitYear(k) && FourDigitYear(first) && FourDigitYear(last)
    ensures LogDate(FormatDate(k) + "T" + rest) == FormatDate(k)
    ensures InRange(LogDate(FormatDate(k) + "T" + rest), FormatDate(first), FormatDate(last))
      <==> first <= k <= last
  {
    FormatDateShape(k);
    FirstFieldOf(FormatDate(k), rest, 'T');
    FormatDateOrder(k, first);
    FormatDateOrder(last, k);
  }
}
