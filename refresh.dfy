/** `checkWorklogs`: the refresh of the dashboard for the active account. It
    reads the account's token, computes the reporting window, queries Jira
    for the worklogs in it, keeps those whose date lies in the window and
    derives the figures from them. */
module Refresh {
  import opened Wrappers
  import opened Text
  import opened IsoDate
  import opened Window
  import opened Worklogs
  import opened Accounts
  import opened Stats

  /** What a refresh ends in: nothing (no active account), the mock data (no
      token, or the request failed), or the live figures with the query that
      produced them. */
  datatype Outcome =
    | Skipped
    | Mock
    | Connected(jql: string, searchUrl: string, worklogs: seq<Worklog>, stats: Stats)

  /** The JQL query for the worklogs of the current user between two dates. */
  function Jql(after: string, before: string): string {
    "worklogAuthor = currentUser() AND worklogDate >= \"" + after + "\" AND worklogDate <= \"" + before + "\""
  }

  function SearchUrl(domain: string): string {
    TrimTrailingSlashes(domain) + "/rest/api/3/search/jql"
  }

  /** A falsy token: none was found, or it is empty. */
  predicate Blank(token: Option<string>) {
    token.None? || token.value == ""
  }

  /** The figures of one window: `Fetched(account, now, w, response)` holds
      of the outcome of querying `w` for `account` at `now`. */
  predicate Fetched(outcome: Outcome, account: Account, now: int, w: Span, response: Option<seq<Issue>>) {
    var after := FormatDate(w.start);
    var before := FormatDate(w.end);
    && (outcome.Mock? <==> response.None?)
    && !outcome.Skipped?
    && (outcome.Connected? ==>
      && response.Some?
      && outcome.jql == Jql(after, before)
      && outcome.searchUrl == SearchUrl(account.domain)
      && outcome.worklogs == FilterWorklogs(response.value, after, before)
      && outcome.stats.todaySeconds == TodaySeconds(outcome.worklogs, FormatDate(DayOfInstant(now)))
      && outcome.stats.weekSeconds == SecondsIn(outcome.worklogs, WeeklySpan(DayOfInstant(now), 0))
      && outcome.stats.monthSeconds == SecondsIn(outcome.worklogs, MonthlySpan(DayOfInstant(now), 0))
      && outcome.stats.chart == Chart(outcome.worklogs))
  }

  /** The part of a refresh after the window is known: the query for its two
      dates, then, when the search answered, the worklogs dated inside the
      window and the figures derived from them. */
  method Fetch(account: Account, now: int, start: int, end: int, response: Option<seq<Issue>>) returns (outcome: Outcome)
    ensures Fetched(outcome, account, now, Span(start, end), response)
  {
    var after := FormatDate(start);
    var before := FormatDate(end);
    var jql := Jql(after, before);
    var searchUrl := SearchUrl(account.domain);
    if response.None? {
      return Mock;
    }
    var userWorklogs := CollectWorklogs(response.value, after, before);
    var stats := CalculateStats(userWorklogs, now);
    outcome := Connected(jql, searchUrl, userWorklogs, stats);
  }

  /** `checkWorklogs` as written, at the instant `now`; `token` is what
      `getSecureToken` yields for the active account and `response` the
      issues of the search (`None` when the request fails).  The period
      offset is added, so the window lies `weekOffset` periods after the
      current one. */
  method CheckWorklogs(accounts: seq<Account>, activeId: string, token: Option<string>, now: int,
                       mode: ViewMode, weekOffset: int, response: Option<seq<Issue>>) returns (outcome: Outcome)
    ensures outcome.Skipped? <==> activeId == "" || !HasId(accounts, activeId)
    ensures outcome.Mock? <==> activeId != "" && HasId(accounts, activeId) && (Blank(token) || response.None?)
    ensures outcome.Connected? ==>
      && FindAccount(accounts, activeId).Some?
      && Fetched(outcome, FindAccount(accounts, activeId).value, now,
                 PeriodSpan(DayOfInstant(now), mode, weekOffset), response)
  {
    if activeId == "" {
      return Skipped;
    }
    var account := FindAccount(accounts, activeId);
    if account.None? {
      return Skipped;
    }
    if Blank(token) {
      return Mock;
    }
    var start, end := ComputeWindowAsWritten(DayOfInstant(now), mode, weekOffset);
    outcome := Fetch(account.value, now, start, end, response);
  }

  /** `checkWorklogs` with the window the dashboard's buttons intend:
      `weekOffset` periods before the current one. */
  method CheckWorklogsCorrected(accounts: seq<Account>, activeId: string, token: Option<string>, now: int,
                                mode: ViewMode, weekOffset: int, response: Option<seq<Issue>>) returns (outcome: Outcome)
    ensures outcome.Skipped? <==> activeId == "" || !HasId(accounts, activeId)
    ensures outcome.Mock? <==> activeId != "" && HasId(accounts, activeId) && (Blank(token) || response.None?)
    ensures outcome.Connected? ==>
      && FindAccount(accounts, activeId).Some?
      && Fetched(outcome, FindAccount(accounts, activeId).value, now,
                 PastSpan(DayOfInstant(now), mode, weekOffset), response)
  {
    if activeId == "" {
      return Skipped;
    }
    var account := FindAccount(accounts, activeId);
    if account.None? {
      return Skipped;
    }
    if Blank(token) {
      return Mock;
    }
    var start, end := ComputeWindow(DayOfInstant(now), mode, weekOffset);
    outcome := Fetch(account.value, now, start, end, response);
  }

  /** The query names the window's first and last dates at fixed places, so
      the two bounds can be read back from it. */
  lemma JqlBounds(after: string, before: string)
    ensures var q := Jql(after, before);
      var p := |"worklogAuthor = currentUser() AND worklogDate >= \""|;
      var m := |"\" AND worklogDate <= \""|;
      && q[p..p + |after|] == after
      && q[p + |after| + m..|q| - 1] == before
      && q[|q| - 1] == '"'
  {
    var q := Jql(after, before);
    var head := "worklogAuthor = currentUser() AND worklogDate >= \"";
    var mid := "\" AND worklogDate <= \"";
    assert q == head + after + mid + before + "\"";
    assert q[|head|..|head| + |after|] == after;
    assert q[|head| + |after| + |mid|..|q| - 1] == before;
  }
}
