# jira-worklog: a verified model of the worklog dashboard's logic

jira-worklog is a desktop time tracker (React on Tauri). It shows the Jira
worklogs of the current user and lets them time and submit new ones. This
project models, in Dafny, the logic behind the dashboard and the settings
page. Almost all of it lives in `src/App.tsx`; `src/pages/Dashboard.tsx`
and `src/pages/Settings.tsx` add some pure decisions of their own.

- **Reporting window** (`checkWorklogs`). The application computes the
  calendar week (Monday to Sunday) or calendar month to query, shifted by a
  period offset. It does this by moving a JavaScript `Date` step by step
  (`setHours`, `setDate`, `setMonth`, `setDate(0)`). It renders both
  bounds as `YYYY-MM-DD`, queries Jira with them, and keeps each returned
  worklog whose date prefix compares, as a string, between the two bounds
  (modules `Calendar`, `IsoDate`, `Window`, `Worklogs`, `Refresh`).
- **Dashboard figures** (`calculateStats`). These are the seconds logged
  today, this week and this month, plus a chart with one bar per date, in
  ascending date order (modules `Stats`, `Buckets`, `StringSort`).
- **Elapsed time** (`formatElapsedTime`). A count of seconds is written as
  `HH:MM:SS`, and hours are never wrapped (module `Elapsed`).
- **Accounts and tokens**. The account list and the active account are
  kept together with two token stores: the keyring, whose calls may fail,
  and the local-storage fallback. This part is a class whose methods
  follow `addAccount`, `deleteAccount`, `getSecureToken` and the
  mount-time load (module `Accounts`).
- **Timer**. Start, stop, discard and the one-second tick form a class. The
  decisions of `saveTimerWorklog` are modelled as well: its guards, the
  request URL, the default comment and the `started` text with its `+0000`
  offset (module `Timer`).
- **Dashboard decisions**. These are the view-mode and previous/this/next
  buttons, the per-project pie reducer, the issue browse link and the
  colour of a chart bar (module `Dashboard`).
- **Settings decisions**. These are the notification hour and minute
  pickers and their option lists, the template button and the add-account
  form (module `Settings`).

Days are integer day numbers counted from 1970-01-01, with a proleptic
Gregorian conversion to and from (year, month, day). Instants are integer
milliseconds since the epoch. Strings are `seq<char>`, compared as JavaScript
compares them. Hours that the source shows with `toFixed` are kept as
integer tenths or hundredths of an hour.

The source computes the window by adding the period offset, while the
dashboard's "previous" button increments it. So "previous" moves the window
into the future (see "## Findings"). The model keeps both versions. The
refresh `Refresh.CheckWorklogs` follows the code as written;
`Refresh.CheckWorklogsCorrected` is the same refresh over the corrected
window, which counts the offset into the past.

One consequence of the token store is modelled on purpose
(`Accounts.StaleKeyringToken`). Suppose the keyring fails to delete a token
and later fails to save a new one for the same email. When it is read again,
it answers with the old token, which wins over the fresh fallback token.

## Model

| member | source | states |
|---|---|---|
| Calendar.CivilFromDays | src/App.tsx:247-249 | The date of any day number is a valid date whose day number is that day. |
| Calendar.CivilRoundTrip | src/App.tsx:247-263 | Every valid date is the date of its own day number. |
| Calendar.DayNumberInjective | src/App.tsx:247-263 | Distinct valid dates have distinct day numbers. |
| Calendar.CivilOrder | src/App.tsx:247-263 | Day numbers are ordered exactly as their dates are, by year, then month, then day. |
| Calendar.DaysInMonth | src/App.tsx:262 | A month has between 28 and 31 days. |
| Calendar.LeapStep | src/App.tsx:247-263 | A year adds one to the count of leap years before the next year exactly when it is a leap year. |
| Calendar.YearStartNext | src/App.tsx:247-263 | Consecutive years start as many days apart as the first year has. |
| Calendar.AddMonths | src/App.tsx:259 | Month arithmetic yields a valid month exactly `k` months on. |
| Calendar.AddMonthsRollover | src/App.tsx:259-261 | One month before January is December of the year before, and one month after December is January of the next year. |
| Calendar.WeekDay | src/App.tsx:252 | `getDay()` is a weekday from 0 to 6. |
| Calendar.IsoWeekDay | src/App.tsx:252 | `getDay() \|\| 7` is a weekday from 1 (Monday) to 7 (Sunday). |
| Calendar.IsoWeekDayShift | src/App.tsx:252-254 | Whole weeks keep the weekday, and stepping back `weekday - 1` days lands on a Monday. |
| Calendar.SetDateMoves | src/App.tsx:254-256 | `setDate(d)` moves by exactly `d - getDate()` days, also when `d` lies outside the month. |
| Calendar.SetDateFirst | src/App.tsx:258 | `setDate(1)` moves to the first day of the same month. |
| Calendar.SetMonthOfFirst | src/App.tsx:259-261 | On the first day of a month, `setMonth(m)` moves to the first day of month `m` of that year, rolling over years. |
| Calendar.SetDateZeroOfFirst | src/App.tsx:262 | On the first day of a month, `setDate(0)` moves to the last day of the month before. |
| Calendar.NextMonthStart | src/App.tsx:260-262 | The first day of the next month is the day after the last day of this month. |
| Calendar.MakeDayFirst | src/App.tsx:353 | `new Date(y, m, 1)` is the first day of the month `m` months after January of `y`. |
| Calendar.MakeDayOne | src/App.tsx:353-355 | `new Date(y, m, 1)` is the first day of month number `12 * y + m`. |
| Window.WeeklySpanSpec | src/App.tsx:251-256 | The weekly window starts on a Monday, ends six days later, and holds the day `7 * shift` days from today. |
| Window.WeeklySpanUnique | src/App.tsx:251-256 | Any Monday-to-Sunday week that holds that day is the weekly window. |
| Window.MonthlySpanSpec | src/App.tsx:257-263 | The monthly window runs from day 1 to the last day of the month `shift` months on, across year boundaries, and holds exactly that month's number of days. |
| Window.MonthlySpanSameMonth | src/App.tsx:257-263 | Every day of the monthly window lies in the window's month. |
| Window.MonthStartSteps | src/App.tsx:258-259 | `setDate(1)` and then `setMonth(getMonth() + shift)` reach the first day of the window's month. |
| Window.MonthEndSteps | src/App.tsx:260-262 | From that first day, `setMonth(getMonth() + 1)` and then `setDate(0)` reach the last day of the same month. |
| Window.ShiftedWindow | src/App.tsx:251-263 | The step-by-step `Date` moves of both modes yield the shifted week or month. |
| Window.ComputeWindowAsWritten | src/App.tsx:251-263 | As written, the window is the period `weekOffset` periods after the current one. |
| Window.PreviousMovesLaterAsWritten | src/App.tsx:254-259 | As written, raising the offset by one, which is what "previous" does, moves the window's start later in time. |
| Window.WeeklyExample | src/App.tsx:251-256 | On Wednesday 2024-01-17 with offset 1, the intended window is 2024-01-08 to 2024-01-14, but the window as written is 2024-01-22 to 2024-01-28. |
| Window.ComputeWindow | src/App.tsx:251-263 | Corrected: the window is the period `weekOffset` periods before the current one; it is non-empty and, for offsets of zero or more, starts no later than today. |
| Window.PreviousMovesEarlier | src/pages/Dashboard.tsx:246-250 | Corrected: the window for offset + 1 ends the day before the window for the offset starts. |
| Window.PeriodSpanBounds | src/App.tsx:251-263 | Every window starts no later than it ends, and a window at or before the current period starts no later than today. |
| Window.CurrentPeriodHoldsToday | src/App.tsx:251-263 | The current week and the current month hold today. |
| Window.PastMonthStartsEarlier | src/App.tsx:257-259 | A month at or before today's month starts no later than today. |
| Window.MonthlySpanStep | src/App.tsx:257-263 | The monthly window for `shift + 1` starts the day after the window for `shift` ends. |
| IsoDate.FormatDateShape | src/App.tsx:265 | For a four-digit year, the ISO date is ten characters: digits, a dash, digits, a dash, digits, and no `T`. |
| IsoDate.FormatDateOrder | src/App.tsx:305-306 | For four-digit years, ISO dates compare as strings exactly as their days compare, and are equal exactly when their days are. |
| IsoDate.MonthDayFieldOrder | src/App.tsx:306 | The `-MM-DD` fields compare as strings exactly as their (month, day) pairs do. |
| IsoDate.FormatInstantParts | src/App.tsx:265 | `toISOString().split("T")[0]` is the ISO date of the instant's day, and the full text is that date, `T`, the time of day and a closing `Z` that occurs nowhere else. |
| IsoDate.ParseFormatDate | src/App.tsx:362 | A text that starts with the ISO date of a day (four-digit year) reads back as that day, whatever follows. |
| IsoDate.ParseDateSound | src/App.tsx:362 | A text that reads as a day starts with that day's ISO date, and the day has a four-digit year. |
| IsoDate.ParseDate | src/App.tsx:362 | A text that reads as a day is at least ten characters long. |
| Text.LexLtTransitive | src/App.tsx:306 | String order is transitive. |
| Text.LexLtTotal | src/App.tsx:306 | Of two different strings, one precedes the other. |
| Text.NotLexLtIsLexLe | src/App.tsx:306 | `a <= b` on strings, which JavaScript evaluates as `!(b < a)`, means that `a` is equal to `b` or precedes it. |
| Text.FixedDigitsOrder | src/App.tsx:265 | Fixed-width digit strings compare as their values do. |
| Text.FirstField | src/App.tsx:305 | `s.split(sep)[0]` holds no separator, is a prefix of `s`, is all of `s` when there is no separator, and is followed by the first separator otherwise. |
| Text.Split | src/pages/Settings.tsx:395-398 | `split` yields at least one part, and no part holds the separator. |
| Text.SplitCons | src/pages/Settings.tsx:395-398 | Splitting `a`, the separator and `b` yields `a` followed by the parts of `b`, when `a` holds no separator. |
| Text.TrimTrailingSlashes | src/App.tsx:153 | `replace(/\/+$/, "")` keeps a prefix, removes only slashes, and leaves no trailing slash. |
| Text.PadStart | src/App.tsx:513-515 | `padStart` keeps strings that are long enough, otherwise pads to exactly the width, puts only fill characters in front, and ends with the original. |
| Text.PadStartValue | src/App.tsx:513-515 | Padding digits with zeros keeps their value. |
| Text.NatToStringValue | src/App.tsx:513 | `String(n)` reads back as `n`. |
| Text.TrimSpec | src/pages/Settings.tsx:277 | `trim()` returns a slice of the text with only white space cut from either end, and no white space left at its ends. |
| Text.TrimEmpty | src/pages/Settings.tsx:277-278 | The trimmed text is empty exactly when the text is all white space. |
| Text.ReplaceFirstLast | src/App.tsx:457 | Replacing the first `c` of a text whose only `c` is its last character replaces that character. |
| Worklogs.CollectWorklogs | src/App.tsx:300-317 | The nested loops collect exactly the in-range worklogs of the issues, in issue order and then log order. |
| Worklogs.FilterWorklogsComplete | src/App.tsx:302-316 | Every log of every issue whose date lies between the bounds is collected, with id, key, summary, seconds, start and comment copied. |
| Worklogs.FilterWorklogsSound | src/App.tsx:302-316 | Every collected worklog is built from a log of one of the issues whose date lies between the bounds. |
| Worklogs.MatchingLogsComplete | src/App.tsx:304-315 | Within one issue, every in-range log is collected. |
| Worklogs.MatchingLogsSound | src/App.tsx:304-315 | Within one issue, every collected worklog comes from an in-range log. |
| Worklogs.FilterWorklogsInRange | src/App.tsx:305-306 | Filtering the collected worklogs again by the same bounds keeps all of them. |
| Worklogs.SelectedIsCalendarRange | src/App.tsx:305-306 | For timestamps `YYYY-MM-DDT...` with four-digit years, the string range test is the calendar range test on days. |
| Stats.Tenths | src/App.tsx:392 | Hours to one decimal are the nearest tenth of an hour, with halves rounded up. |
| Stats.CurrentBounds | src/App.tsx:343-356 | The week and month bounds, computed with the source's `Date` moves, are the current Monday-to-Sunday week and the current calendar month. |
| Stats.MonthBoundsOf | src/App.tsx:353-355 | `new Date(y, m, 1)` and `new Date(y, m + 1, 0)` are the first and last days of month `m`. |
| Stats.MonthBounds | src/App.tsx:353-356 | For today's year and month, those days bound the current month. |
| Stats.SumToday | src/App.tsx:335-339 | The filter and reduce give the seconds of the worklogs whose start begins with today's date. |
| Stats.SumPeriods | src/App.tsx:358-369 | The loop sums the seconds of the worklogs started within the week and within the month. |
| Stats.MapPoints | src/App.tsx:388-394 | The chart points read each date's total from the map, in the order of the dates. |
| Stats.BuildChart | src/App.tsx:374-396 | Building `daysMap`, sorting its keys and mapping them to points gives the per-day chart: a point for each sorted distinct date with that date's tenths of an hour. |
| Stats.CalculateStats | src/App.tsx:332-397 | The three totals are those of today, the current week and the current month, and the chart is the per-day chart of the worklogs. |
| Stats.StartsWithDay | src/App.tsx:335 | For four-digit years, a start text begins with today's ISO date exactly when it denotes today. |
| Stats.TodayIsOneDay | src/App.tsx:333-339 | Today's total is the total of the one-day window of today. |
| Stats.TodayWithinPeriod | src/App.tsx:333-369 | What is logged today counts towards this week and this month. |
| Stats.SecondsInMonotone | src/App.tsx:361-369 | A wider window never holds fewer seconds. |
| Stats.SecondsInAtMostTotal | src/App.tsx:361-369 | No window holds more seconds than all the worklogs together; each worklog counts at most once. |
| Stats.DayEntriesKey | src/App.tsx:376-379 | A date gets a map entry exactly when some worklog starts on it. |
| Stats.DayEntriesTotal | src/App.tsx:376-379 | The map entries hold all the seconds of the worklogs. |
| Stats.ChartDatesSpec | src/App.tsx:374-381 | The chart dates are strictly ascending, and a date is on the chart exactly when some worklog starts on it. |
| Stats.ChartAccountsForAll | src/App.tsx:374-392 | Summed over the chart dates, the seconds per date are the seconds of all worklogs. |
| Stats.ChartEmpty | src/App.tsx:381-386 | The chart is empty exactly when there are no worklogs. |
| Buckets.Accumulate | src/App.tsx:376-379 | One pass of `map.set(k, (map.get(k) \|\| 0) + amount)` holds each key once, in order of first insertion, with the sum of its amounts. |
| Buckets.DistinctSpec | src/App.tsx:374-381 | The map's keys are every key of the entries, and nothing else, each once. |
| Buckets.SumOverDistinct | src/App.tsx:374-379 | The per-key totals add up to the total of all amounts; nothing is lost or counted twice. |
| Buckets.SumForAbsent | src/App.tsx:378 | A key that never occurs has nothing filed under it. |
| StringSort.Insert | src/App.tsx:381 | Insertion adds exactly one occurrence of the string. |
| StringSort.Sort | src/App.tsx:381 | `sort()` permutes its input. |
| StringSort.InsertSorted | src/App.tsx:381 | Inserting into a sorted sequence keeps it sorted. |
| StringSort.SortSorted | src/App.tsx:381 | `sort()` orders its input ascending in string order. |
| StringSort.SortStrict | src/App.tsx:381 | Without repeated strings, the order is strictly ascending. |
| Elapsed.JsRem | src/App.tsx:511-512 | `%` keeps the sign of the dividend, as in JavaScript. |
| Elapsed.PartsSpec | src/App.tsx:510-512 | For a non-negative count, the fields are hours, minutes below 60 and seconds below 60 with `h * 3600 + m * 60 + s == sec`. |
| Elapsed.PartsUnique | src/App.tsx:510-512 | Those are the only such fields. |
| Elapsed.FieldSpec | src/App.tsx:513-515 | Each field is the full decimal rendering of its number, padded to two digits below ten; it is never cut. |
| Elapsed.FieldTwoDigits | src/App.tsx:513-515 | Below one hundred, a field is the two-digit rendering of its number. |
| Elapsed.HoursInFull | src/App.tsx:510-515 | From 100 hours on, the hour field is the full decimal number of hours, three digits or more, not wrapped. |
| Elapsed.ParseFormatElapsed | src/App.tsx:509-516 | The formatted text, read back as `H:M:S`, gives the count it was formatted from. |
| Elapsed.FormatSmallClock | src/App.tsx:509-516 | A count below ten hours whose minutes and seconds are below ten is written `0h:0m:0s`. |
| Elapsed.FormatOneHourOneMinuteOneSecond | src/App.tsx:509-516 | 3661 seconds are written `01:01:01`. |
| Accounts.IndexOfId | src/App.tsx:76 | The position found is that of the first account with the id. |
| Accounts.FindAccount | src/App.tsx:187 | `find` by id finds an account exactly when one has the id, and it has that id. |
| Accounts.RemoveIdMembers | src/App.tsx:201 | `filter` by id keeps exactly the accounts with another id. |
| Accounts.RemoveIdAt | src/App.tsx:201 | Removing the one account with an id leaves the others in their order. |
| Accounts.RemoveIdAbsent | src/App.tsx:201 | An id no account has removes nothing. |
| Accounts.ChooseActive | src/App.tsx:74-80 | On load, the active id is a listed one, or empty when there is no account; it is the saved active id whenever that is non-empty and listed, and the first account's id otherwise. |
| Accounts.ResolveToken | src/App.tsx:211-224 | The keyring's answer wins whenever the read succeeds; otherwise the fallback token is returned exactly when it is non-empty. |
| Accounts.AddedSpec | src/App.tsx:151-184 | Adding appends exactly one account, with the trailing slashes of its domain stripped, keeps the others, and makes the new id the active id. With an id no account has yet, the active account is the new one and unique ids stay unique. |
| Accounts.AddedToken | src/App.tsx:156-176 | The fallback holds the token exactly when the keyring refused it, and holds nothing for the email when the keyring took it. A token the keyring took is read back from it. A refused token is read back from the fallback, when non-empty, unless the keyring still answers for the email. |
| Accounts.DeletedSpec | src/App.tsx:186-207 | Deleting keeps exactly the accounts with another id and drops that email's fallback token; when the active account was deleted, the first remaining one (or none) becomes active. An unknown id changes no account; with unique ids, the list is the old one with the deleted account cut out and the others in their order, and the ids stay unique. |
| Accounts.DeletedOrder | src/App.tsx:201 | The `filter` by id keeps the list when no account has the id; with unique ids it cuts out exactly the one account that has it and keeps the ids unique. |
| Accounts.CutUnique | src/App.tsx:201 | Cutting one account out of a list with unique ids leaves unique ids. |
| Accounts.RemoveIdUnique | src/App.tsx:201 | The `filter` by id keeps ids unique. |
| Accounts.StaleKeyringToken | src/App.tsx:186-199 | After a failed keyring delete and a failed keyring save, the old keyring token is read, not the new fallback one. |
| Accounts.AccountStore.Load | src/App.tsx:69-85 | The mount-time load sets the saved list (empty when there is none) and the chosen active id, takes both token stores as found, and establishes the invariant. |
| Accounts.AccountStore.AddAccount | src/App.tsx:151-184 | `addAccount`, given a fresh id as `crypto.randomUUID()` makes one, moves the store to the added state, makes the new account the active one, keeps the active-account invariant and keeps ids unique. |
| Accounts.AccountStore.DeleteAccount | src/App.tsx:186-207 | `deleteAccount` moves the store to the deleted state, keeps the active-account invariant and keeps ids unique. |
| Accounts.AccountStore.GetSecureToken | src/App.tsx:211-224 | `getSecureToken` yields the resolved token for the email and changes nothing. |
| Timer.TimerState.constructor | src/App.tsx:31-36 | The timer starts stopped, with nothing timed, nothing entered and the dialog closed. |
| Timer.TimerState.Start | src/App.tsx:413-417 | Starting records the instant, resets the count and runs, leaving the dialog and its fields alone. |
| Timer.TimerState.Stop | src/App.tsx:419-426 | Stopping stops the timer and opens the save dialog, and keeps the count for saving. |
| Timer.TimerState.Discard | src/App.tsx:428-434 | Discarding closes the dialog and clears the start, the count, the issue key and the description, and does not touch the running flag. |
| Timer.TimerState.Tick | src/App.tsx:100-105 | While running with a start instant, the count is the whole seconds since the start; otherwise nothing changes. |
| Timer.TimerState.SetIssueKey | src/components/TimerModal.tsx:54-55 | The issue-key field holds what was typed. |
| Timer.TimerState.SetDescription | src/components/TimerModal.tsx:67 | The description field holds what was typed. |
| Timer.CommentText | src/App.tsx:470 | The comment is never empty: it is the description, or "XTime Log" when that is empty. |
| Timer.PlanSaveSpec | src/App.tsx:436-476 | A missing account or issue key is refused; a request is sent exactly when both are set, the account is listed and a non-empty token was found; it carries the timed seconds, the comment and the start text. |
| Timer.RewriteOffset | src/App.tsx:457 | Replacing the closing `Z` with `+0000` keeps everything before it and the date before the first `T`. |
| Timer.StartedTextSpec | src/App.tsx:457 | The start text is the ISO date, `T`, the time of day and `+0000`, so its date part is the date of the instant. |
| Timer.SavedOnDayOfInstant | src/App.tsx:457 | A worklog saved at an instant starts on that instant's day, both for the date-prefix test and for the date reading. |
| Dashboard.StepKeepsOffset | src/pages/Dashboard.tsx:219-263 | No button makes a non-negative offset negative; a change of mode resets the offset to 0; "next" at offset 0 does nothing. |
| Dashboard.RunNeverNegative | src/pages/Dashboard.tsx:247-263 | From offset 0 or more, no sequence of presses reaches a negative offset. |
| Dashboard.PreviousNextInverse | src/pages/Dashboard.tsx:247-263 | "Next" undoes "previous", and "previous" undoes an allowed "next". |
| Dashboard.PreviousShowsEarlierPeriod | src/pages/Dashboard.tsx:246-250 | With the corrected window, "previous" shows the period that ends the day before the shown one starts. |
| Dashboard.ProjectKey | src/pages/Dashboard.tsx:156 | The project key is the text before the first hyphen, or the whole key when it has none; it holds no hyphen. |
| Dashboard.Hundredths | src/pages/Dashboard.tsx:162 | Hours to two decimals are the nearest hundredth of an hour, with halves rounded up. |
| Dashboard.ProjectDistribution | src/pages/Dashboard.tsx:153-164 | The reducer and the entries mapping give one slice per project in order of first appearance, with its hours. |
| Dashboard.ProjectEntriesTotal | src/pages/Dashboard.tsx:154-159 | The per-project entries hold every worklog's seconds. |
| Dashboard.SameProjectSlice | src/pages/Dashboard.tsx:153-164 | Two worklogs of the same project give one slice with their hours together. |
| Dashboard.SampleDistribution | src/pages/Dashboard.tsx:153-164 | One hour on ABC-1 and one on ABC-2 give the one slice `ABC` with 2.00 hours. |
| Dashboard.DistributionSpec | src/pages/Dashboard.tsx:154-163 | There is one slice per distinct project key of the worklogs, and no other, and the seconds of the slices add up to all the seconds. |
| Dashboard.BrowseUrlSpec | src/pages/Dashboard.tsx:405-411 | A link is opened exactly when the active account is listed and its domain is more than slashes; the link is that domain without trailing slashes, `/browse/` and the key. |
| Dashboard.BarGreenThreshold | src/pages/Dashboard.tsx:321 | A day's bar is green exactly when its rounded hours reach 8, that is, from 28620 seconds (7 h 57 min) on. |
| Settings.ReadBack | src/pages/Settings.tsx:395-418 | The hour and the minute of `hour:minute` read back as those parts. |
| Settings.HourChangeKeepsMinute | src/pages/Settings.tsx:396-399 | Choosing an hour shows that hour and keeps the minute, or `00` when there was none. |
| Settings.MinuteChangeKeepsHour | src/pages/Settings.tsx:415-418 | Choosing a minute shows that minute and keeps the hour, or `17` when it was empty. |
| Settings.TwoDigitField | src/pages/Settings.tsx:404 | A two-digit text is the padded rendering of its value. |
| Settings.HourOptionsSpec | src/pages/Settings.tsx:403-410 | There are exactly 24 hour options: the two-digit texts of 0 to 23, in ascending order. |
| Settings.FiveMinuteMember | src/pages/Settings.tsx:422-430 | A minute is among the twelve steps exactly when it is two digits whose value is a multiple of five below 60. |
| Settings.FiveMinuteDistinct | src/pages/Settings.tsx:422-430 | The twelve steps are pairwise different. |
| Settings.MinuteOptionsSpec | src/pages/Settings.tsx:422-439 | The minute options are the twelve steps, then the current minute exactly when it is not one of them; the current minute is always offered. |
| Settings.MinuteOptionsDistinct | src/pages/Settings.tsx:422-439 | No minute option appears twice. |
| Settings.AddTemplateSpec | src/pages/Settings.tsx:276-281 | A template is added exactly when the text holds a non-space character; what is added is the text without surrounding white space, and the field is then cleared, otherwise left alone. |
| Settings.SubmitAccountFormSpec | src/pages/Settings.tsx:58-64 | `addAccount` is called with the fields as typed exactly when none is empty; the form is then cleared, otherwise left alone. |
| Refresh.Fetch | src/App.tsx:265-330 | Given the window, it shows the mock data exactly when the request fails; otherwise it sends the JQL query for the window's dates to the search URL, keeps the worklogs whose dates lie in the window, and derives the figures from them. |
| Refresh.CheckWorklogs | src/App.tsx:226-330 | As written: a refresh does nothing without a listed active account, shows the mock data when the token is falsy or the request fails, and otherwise fetches for the active account over the period `weekOffset` periods after the current one. |
| Refresh.CheckWorklogsCorrected | src/App.tsx:226-330 | Corrected: the same refresh over the period `weekOffset` periods before the current one. |
| Refresh.JqlBounds | src/App.tsx:269 | The JQL query holds the window's first and last dates at fixed places, so both can be read back from it. |

## Left out

- HTTP requests, JSON and Basic authentication (`fetch`, `btoa`, `response.json()`) are not modelled. The search result is an input: `None` stands for a failed or non-OK request, and `Some(issues)` stands for the issues (`data.issues ?? []`). Keyring calls (`invoke`) are reduced to success flags, and `crypto.randomUUID()` to a given id.
- `setInterval` and `Date.now()` are not modelled. The interval callback becomes `Tick(now)`, and the clock is a parameter.
- Timezones are not modelled. `getDay`, `getDate` and `setHours` use local time while `toISOString` uses UTC; the model uses one calendar for both. It also does not model daylight-saving steps in `setHours(-24 * (day - 1))`.
- Stats.StartedIn: only the date part of `new Date(log.started)` is read. Its time of day and its offset (such as `+0300`) are not, so a worklog near midnight in another offset can count on a different day than in the application.
- The JavaScript `Date` range (±100,000,000 days) is not modelled: day numbers are unbounded. The date-order lemmas require four-digit years, the range in which ISO dates have a fixed width.
- Floating-point division and `toFixed` are not modelled: headline hours stay in seconds. `toFixed(1)` and `toFixed(2)` are rounded in integer arithmetic, halves up; the floating-point result can differ on exact ties.
- Dashboard.ProjectDistribution: slices follow insertion order. `Object.entries` puts integer-like project keys (such as `"123"`) first, in ascending numeric order; that is not modelled.
- The chart's `toLocaleDateString` labels are not modelled. A chart point carries its ISO date instead.
- Settings.MinutePart: a time without a colon has no minute part (`undefined`). The model uses the empty string, which is equally falsy and equally absent from the twelve steps.
- Accounts.AccountStore.Valid: unique ids are not part of the invariant, because the mount-time load takes the saved list as found and does not check it. Both `addAccount` and `deleteAccount` keep ids unique when they were.
- `loadMockData` is not modelled: Refresh.CheckWorklogs reports `Mock` without the placeholder chart it shows.
- The loading flags (`isWorklogLoading`), `jiraStatus`, `lastJql`, `localStorage` persistence, theme, autostart, the updater and the notification call after saving are side effects and are not modelled.
- Timer.PlanSave: the HTTP request, the alert texts and the refresh after a successful save are not modelled; only the decision and the request's fields are.
- JavaScript strings are UTF-16 code units; the model uses Dafny characters.
- IsoDate.ParseDate is a process of reading `YYYY-MM-DD`. It does not model every format that `new Date(string)` accepts; other texts read as no date, which no window comparison accepts, just as an invalid `Date` compares false.

## Findings

| source | as written | input that shows it | evidently intended | confidence | as-written member | corrected member |
|---|---|---|---|---|---|---|
| src/App.tsx:254 and src/App.tsx:259 | The period offset is added to today's week or month, while the dashboard's "previous" button increments it (src/pages/Dashboard.tsx:247) and "next" is refused at offset 0. So "previous" shows a future period, and past periods cannot be reached. | Weekly mode on Wednesday 2024-01-17, one press of "previous" (offset 1): the query covers 2024-01-22 to 2024-01-28. | The offset counts periods into the past: offset 1 is the week 2024-01-08 to 2024-01-14. | not executed | Window.ComputeWindowAsWritten, Window.PreviousMovesLaterAsWritten, Window.WeeklyExample, Refresh.CheckWorklogs | Window.ComputeWindow, Window.PreviousMovesEarlier, Refresh.CheckWorklogsCorrected |
