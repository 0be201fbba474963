/** The dashboard's own decisions: the period navigation buttons, the
    per-project distribution of the worklogs, the issue browse link and the
    colour of a chart bar. */
module Dashboard {
  import opened Wrappers
  import opened Text
  import opened Window
  import opened Worklogs
  import opened Buckets
  import opened Accounts
  import opened Stats

  /** The view mode and the period offset the dashboard shows. */
  datatype Nav = Nav(mode: ViewMode, weekOffset: int)

  /** The weekly and monthly toggles and the previous / this / next buttons. */
  datatype NavAction = ShowWeekly | ShowMonthly | Previous | ThisPeriod | Next

  function Step(n: Nav, a: NavAction): Nav {
    match a
    case ShowWeekly => Nav(Weekly, 0)
    case ShowMonthly => Nav(Monthly, 0)
    case Previous => n.(weekOffset := n.weekOffset + 1)
    case ThisPeriod => n.(weekOffset := 0)
    case Next => if n.weekOffset > 0 then n.(weekOffset := n.weekOffset - 1) else n
  }

  /** The state after pressing the buttons in order. */
  function Run(n: Nav, actions: seq<NavAction>): Nav {
    if |actions| == 0 then n else Step(Run(n, actions[..|actions| - 1]), actions[|actions| - 1])
  }

  /** Changing the view mode always returns to the current period, and
      "next" is refused at offset 0, so the offset never becomes negative. */
  lemma StepKeepsOffset(n: Nav, a: NavAction)
    requires n.weekOffset >= 0
    ensures Step(n, a).weekOffset >= 0
    ensures Step(n, a).mode != n.mode ==> Step(n, a).weekOffset == 0
    ensures a == Next && n.weekOffset == 0 ==> Step(n, a) == n
  {
  }

  /** From an offset of zero or more, no sequence of presses reaches a
      negative offset. */
  lemma {:induction false} RunNeverNegative(n: Nav, actions: seq<NavAction>)
    requires n.weekOffset >= 0
    ensures Run(n, actions).weekOffset >= 0
    decreases |actions|
  {
    if |actions| > 0 {
      RunNeverNegative(n, actions[..|actions| - 1]);
      StepKeepsOffset(Run(n, actions[..|actions| - 1]), actions[|actions| - 1]);
    }
  }

  /** "Next" undoes "previous", and "previous" undoes "next" whenever "next"
      was allowed. */
  lemma PreviousNextInverse(n: Nav)
    ensures Step(Step(n, Previous), Next) == (if n.weekOffset >= 0 then n else n.(weekOffset := n.weekOffset + 1))
    ensures n.weekOffset > 0 ==> Step(Step(n, Next), Previous) == n
  {
  }

  /** The window shown for a navigation state, counted into the past. */
  function Shown(today: int, n: Nav): Span {
    PastSpan(today, n.mode, n.weekOffset)
  }

  /** "Previous" shows the period right before the one shown: it ends the
      day before the shown one starts. */
  lemma PreviousShowsEarlierPeriod(today: int, n: Nav, p: Nav)
    requires p == Step(n, Previous)
    ensures Shown(today, p).end + 1 == Shown(today, n).start
    ensures Shown(today, p).start < Shown(today, n).start
  {
    PreviousMovesEarlier(today, n.mode, n.weekOffset, p.weekOffset);
  }

  /** `issueKey.split("-")[0]`: the text before the first hyphen, or the
      whole key when it has none. */
  function ProjectKey(issueKey: string): (k: string)
    ensures '-' !in k
    ensures '-' !in issueKey ==> k == issueKey
    ensures '-' in issueKey ==> |k| < |issueKey| && issueKey[..|k|] == k && issueKey[|k|] == '-'
  {
    FirstField(issueKey, '-')
  }

  /** The entries of `projectMap`: each worklog's project key and seconds. */
  function ProjectEntries(logs: seq<Worklog>): seq<(string, nat)> {
    seq(|logs|, i requires 0 <= i < |logs| => (ProjectKey(logs[i].issueKey), logs[i].timeSpentSeconds))
  }

  /** One pie slice: a project and its hours in hundredths. */
  datatype Slice = Slice(name: string, hundredths: nat)

  /** Hours to two decimals: the nearest hundredth of an hour, halves rounded up. */
  function Hundredths(seconds: nat): (h: nat)
    ensures 36 * h <= seconds + 18 < 36 * h + 36
  {
    (seconds + 18) / 36
  }

  function Slices(names: seq<string>, entries: seq<(string, nat)>): seq<Slice> {
    seq(|names|, i requires 0 <= i < |names| => Slice(names[i], Hundredths(SumFor(entries, names[i]))))
  }

  /** The pie data: one slice per project, in order of first appearance. */
  function Distribution(logs: seq<Worklog>): seq<Slice> {
    Slices(Distinct(ProjectEntries(logs)), ProjectEntries(logs))
  }

  /** The reducer of the pie chart: `projectMap` filled in one pass, then
      its entries turned into slices. */
  method ProjectDistribution(logs: seq<Worklog>) returns (slices: seq<Slice>)
    ensures slices == Distribution(logs)
  {
    var entries := ProjectEntries(logs);
    var names, projectMap := Accumulate(entries);
    slices := [];
    var i := 0;
    while i < |names|
      invariant 0 <= i <= |names|
      invariant slices == Slices(names[..i], entries)
    {
      var name := names[i];
      assert name in projectMap;
      slices := slices + [Slice(name, Hundredths(projectMap[name]))];
      i := i + 1;
    }
    assert names[..i] == names;
  }

  /** Two worklogs of one project make one slice with their combined
      hours: an hour on `ABC-1` and an hour on `ABC-2` are two hours of
      project `ABC`. */
  lemma SameProjectSlice(a: Worklog, b: Worklog, key: string)
    requires ProjectKey(a.issueKey) == key && ProjectKey(b.issueKey) == key
    ensures Distribution([a, b]) == [Slice(key, Hundredths(a.timeSpentSeconds + b.timeSpentSeconds))]
  {
    var entries := ProjectEntries([a, b]);
    assert entries == [(key, a.timeSpentSeconds), (key, b.timeSpentSeconds)];
    var first := entries[..1];
    assert first == [(key, a.timeSpentSeconds)];
    assert first[..0] == [];
    assert Distinct(first) == [key];
    assert Distinct(entries) == [key];
    assert SumFor(first, key) == a.timeSpentSeconds;
  }

  /** The sample distribution: `ABC-1` and `ABC-2`, an hour each, give
      project `ABC` two hours (200 hundredths). */
  lemma SampleDistribution(a: Worklog, b: Worklog)
    requires a.issueKey == "ABC-1" && b.issueKey == "ABC-2"
    requires a.timeSpentSeconds == 3600 && b.timeSpentSeconds == 3600
    ensures Distribution([a, b]) == [Slice("ABC", 200)]
  {
    FirstFieldOf("ABC", "1", '-');
    FirstFieldOf("ABC", "2", '-');
    assert "ABC-1" == "ABC" + ['-'] + "1";
    assert "ABC-2" == "ABC" + ['-'] + "2";
    SameProjectSlice(a, b, "ABC");
  }

  /** The per-project entries hold every worklog's seconds. */
  lemma {:induction false} ProjectEntriesTotal(logs: seq<Worklog>)
    ensures Total(ProjectEntries(logs)) == TotalSeconds(logs)
    decreases |logs|
  {
    if |logs| > 0 {
      var init := logs[..|logs| - 1];
      assert ProjectEntries(logs)[..|logs| - 1] == ProjectEntries(init);
      ProjectEntriesTotal(init);
    }
  }

  /** One slice per distinct project key of the worklogs and no other, and
      the seconds of the slices add up to the seconds of all worklogs. */
  lemma DistributionSpec(logs: seq<Worklog>)
    ensures var names := Distinct(ProjectEntries(logs));
      && NoDuplicates(names)
      && (forall k :: k in names <==> exists i :: 0 <= i < |logs| && ProjectKey(logs[i].issueKey) == k)
      && SumOver(names, ProjectEntries(logs)) == TotalSeconds(logs)
    ensures |Distribution(logs)| == |Distinct(ProjectEntries(logs))|
  {
    var entries := ProjectEntries(logs);
    DistinctSpec(entries);
    forall k ensures HasKey(entries, k) <==> exists i :: 0 <= i < |logs| && ProjectKey(logs[i].issueKey) == k {
      if exists i :: 0 <= i < |logs| && ProjectKey(logs[i].issueKey) == k {
        var i :| 0 <= i < |logs| && ProjectKey(logs[i].issueKey) == k;
        assert entries[i].0 == k;
      }
    }
    SumOverDistinct(entries);
    ProjectEntriesTotal(logs);
  }

  /** The browse link of an issue: the active account's domain without
      trailing slashes, then `/browse/` and the key; nothing when there is
      no active account or its domain is empty. */
  function BrowseUrl(accounts: seq<Account>, activeId: string, key: string): Option<string> {
    var account := FindAccount(accounts, activeId);
    var domain := if account.Some? then TrimTrailingSlashes(account.value.domain) else "";
    if domain == "" then None else Some(domain + "/browse/" + key)
  }

  /** A link is opened exactly when the active account is listed and its
      domain holds more than slashes; the link then starts with that domain
      stripped of its trailing slashes, so `/browse/` follows a non-slash. */
  lemma BrowseUrlSpec(accounts: seq<Account>, activeId: string, key: string)
    ensures var r := BrowseUrl(accounts, activeId, key);
      && (r.Some? <==> HasId(accounts, activeId) && TrimTrailingSlashes(FindAccount(accounts, activeId).value.domain) != "")
      && (r.Some? ==>
            var domain := FindAccount(accounts, activeId).value.domain;
            var d := r.value[..|r.value| - |key| - 8];
            && r.value == d + "/browse/" + key
            && d != "" && d[|d| - 1] != '/'
            && d == domain[..|d|]
            && (forall i :: |d| <= i < |domain| ==> domain[i] == '/'))
  {
    var r := BrowseUrl(accounts, activeId, key);
    if r.Some? {
      var domain := FindAccount(accounts, activeId).value.domain;
      var d := TrimTrailingSlashes(domain);
      assert r.value == d + "/browse/" + key;
      assert r.value[..|r.value| - |key| - 8] == d;
    }
  }

  /** The bar colour of a chart point: green at eight hours or more. */
  function BarColor(p: ChartPoint): string {
    if p.tenths >= 80 then "#10b981" else "#2563eb"
  }

  /** A day's bar is green exactly when its rounded hours reach eight, that
      is, at 7 h 57 min of work or more. */
  lemma BarGreenThreshold(seconds: nat)
    ensures BarColor(ChartPoint("", Tenths(seconds))) == "#10b981" <==> seconds >= 28620
  {
  }
}
