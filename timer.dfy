/** The work timer: start, stop (which opens the save dialog), discard, the
    one-second tick, and what saving the timed work sends to Jira. */
module Timer {
  import opened Wrappers
  import opened Text
  import opened IsoDate
  import opened Worklogs
  import opened Accounts

  /** The timer's part of the application state. */
  class TimerState {
    var running: bool
    var startTime: Option<int>
    var elapsedSeconds: int
    var showSaveModal: bool
    var issueKey: string
    var description: string

    /** Nothing timed, nothing entered, dialog closed. */
    predicate Cleared()
      reads this
    {
      startTime.None? && elapsedSeconds == 0 && !showSaveModal && issueKey == "" && description == ""
    }

    constructor ()
      ensures Cleared() && !running
    {
      running := false;
      startTime := None;
      elapsedSeconds := 0;
      showSaveModal := false;
      issueKey := "";
      description := "";
    }

    /** `startTimer`: remember the start instant, reset the count, run. */
    method Start(now: int)
      modifies this
      ensures running && startTime == Some(now) && elapsedSeconds == 0
      ensures showSaveModal == old(showSaveModal) && issueKey == old(issueKey) && description == old(description)
    {
      startTime := Some(now);
      elapsedSeconds := 0;
      running := true;
    }

    /** `stopTimer`: stop and open the save dialog; the count is kept for saving. */
    method Stop()
      modifies this
      ensures !running && showSaveModal
      ensures startTime == old(startTime) && elapsedSeconds == old(elapsedSeconds)
      ensures issueKey == old(issueKey) && description == old(description)
    {
      running := false;
      showSaveModal := true;
    }

    /** `discardTimer`: close the dialog and forget the timed work. */
    method Discard()
      modifies this
      ensures Cleared() && running == old(running)
    {
      showSaveModal := false;
      elapsedSeconds := 0;
      startTime := None;
      issueKey := "";
      description := "";
    }

    /** The interval callback, which runs only while the timer runs with a
        start instant: whole seconds since the start. */
    method Tick(now: int)
      modifies this
      ensures running && startTime.Some? ==> elapsedSeconds == (now - startTime.value) / 1000
      ensures !(running && startTime.Some?) ==> elapsedSeconds == old(elapsedSeconds)
      ensures running == old(running) && startTime == old(startTime) && showSaveModal == old(showSaveModal)
      ensures issueKey == old(issueKey) && description == old(description)
    {
      if running && startTime.Some? {
        elapsedSeconds := (now - startTime.value) / 1000;
      }
    }

    /** The dialog's issue-key field. */
    method SetIssueKey(key: string)
      modifies this`issueKey
      ensures issueKey == key
    {
      issueKey := key;
    }

    /** The dialog's description field. */
    method SetDescription(text: string)
      modifies this`description
      ensures description == text
    {
      description := text;
    }
  }

  /** The worklog POST of `saveTimerWorklog`. */
  datatype WorklogRequest = WorklogRequest(url: string, timeSpentSeconds: int, comment: Doc, started: string)

  /** What saving does: refuse with an alert for a missing account or issue
      key, stop silently when the active account is not in the list, refuse
      with an alert when no token is found, or send the request. */
  datatype SaveOutcome = MissingSelection | NoAccount | NoToken | Send(request: WorklogRequest)

  /** `timerDescription || "XTime Log"` */
  function CommentText(description: string): (t: string)
    ensures t != ""
    ensures description != "" ==> t == description
  {
    if description == "" then "XTime Log" else description
  }

  /** `now.toISOString().replace("Z", "+0000")` */
  function StartedText(now: int): string {
    ReplaceFirst(FormatInstant(now), 'Z', "+0000")
  }

  function WorklogUrl(domain: string, issueKey: string): string {
    TrimTrailingSlashes(domain) + "/rest/api/3/issue/" + issueKey + "/worklog"
  }

  /** The decisions of `saveTimerWorklog`; `token` is what `getSecureToken`
      yields for the account's email and `now` the instant of saving. */
  function PlanSave(activeId: string, issueKey: string, accounts: seq<Account>, token: Option<string>,
                    elapsedSeconds: int, description: string, now: int): SaveOutcome
  {
    if activeId == "" || issueKey == "" then MissingSelection
    else
      var account := FindAccount(accounts, activeId);
      if account.None? then NoAccount
      else if token.None? || token.value == "" then NoToken
      else Send(WorklogRequest(WorklogUrl(account.value.domain, issueKey), elapsedSeconds,
                               Doc([[CommentText(description)]]), StartedText(now)))
  }

  /** Saving sends a request exactly when an account and an issue key are
      selected, the active account is listed and a non-empty token was found;
      the request carries the timed seconds and a non-empty comment. */
  lemma PlanSaveSpec(activeId: string, issueKey: string, accounts: seq<Account>, token: Option<string>,
                     elapsedSeconds: int, description: string, now: int)
    ensures var r := PlanSave(activeId, issueKey, accounts, token, elapsedSeconds, description, now);
      && (r == MissingSelection <==> activeId == "" || issueKey == "")
      && (r.Send? <==> activeId != "" && issueKey != "" && HasId(accounts, activeId) && token.Some? && token.value != "")
      && (r.Send? ==>
            && r.request.timeSpentSeconds == elapsedSeconds
            && r.request.comment == Doc([[CommentText(description)]])
            && r.request.started == StartedText(now))
  {
  }

  /** Replacing the closing `Z` of `date T time Z` by `+0000` keeps the
      date in front of the first `T`. */
  lemma RewriteOffset(date: string, time: string)
    requires 'T' !in date && 'Z' !in date + "T" + time
    ensures ReplaceFirst(date + "T" + time + "Z", 'Z', "+0000") == date + "T" + time + "+0000"
    ensures FirstField(date + "T" + time + "+0000", 'T') == date
  {
    ReplaceFirstLast(date + "T" + time, 'Z', "+0000");
    FirstFieldOf(date, time + "+0000", 'T');
    assert date + "T" + time + "+0000" == date + ['T'] + (time + "+0000");
  }

  /** The start text is the ISO instant with the `Z` replaced by the offset
      `+0000`, so its date part is the date of the instant. */
  lemma StartedTextSpec(now: int)
    ensures StartedText(now) == FormatDate(DayOfInstant(now)) + "T" + TimeField(now % MsPerDay) + "+0000"
    ensures LogDate(StartedText(now)) == FormatDate(DayOfInstant(now))
  {
    var date := FormatDate(DayOfInstant(now));
    var time := TimeField(now % MsPerDay);
    FormatInstantParts(now);
    RewriteOffset(date, time);
  }

  /** A worklog saved at `now` starts on the day of `now`: the dashboard's
      filters count it for that day. */
  lemma SavedOnDayOfInstant(now: int)
    requires FourDigitYear(DayOfInstant(now))
    ensures ParseDate(StartedText(now)) == Some(DayOfInstant(now))
    ensures StartsWith(StartedText(now), FormatDate(DayOfInstant(now)))
  {
    StartedTextSpec(now);
    var date := FormatDate(DayOfInstant(now));
    var rest := "T" + TimeField(now % MsPerDay) + "+0000";
    assert StartedText(now) == date + rest;
    ParseFormatDate(DayOfInstant(now), rest);
    FormatDateShape(DayOfInstant(now));
  }
}
