# dit-gitlab, modelled in Dafny

dit-gitlab connects the `dit` time tracker to GitLab with two scripts.

- The fetch script (`fetcher.py`) takes a task named `i<id>` or `m<id>` in a
  group/subgroup. It resolves the GitLab project configured for that pair and
  turns the issue or merge request into the task's JSON record: title, ids,
  status, and an `HH:MM` estimate.
- The spend script (`spend.py`) walks the logbook of such a task. For every
  closed interval that started at or after a given moment, it posts a
  `/spend {h}h{m}min YYYY-MM-DD` quick-action note on the GitLab issue.

The model has these modules:

- `Wrappers`: `Option` and `Result`.
- `Text`: Python's `str(n)`, `"%02d"`, `int(s)` and `str.split` over ASCII.
- `Times`: `timedelta` in Python's normal form (whole days plus
  0 ≤ seconds < 86400), `date` with `strftime('%Y-%m-%d')`, and timestamps.
- `Gitlab`: the server's projects, issues and merge requests.
  - An issue is a class with a mutable `notes` field, because the spend script
    appends to it.
  - Everything else is a value.
- `Fetcher`: the fetch script's helpers, record builders and command line.
- `Spend`: the note text, the logbook walk and the spend script's command line.

Several things the program gets from outside become parameters:

- the project table and the server contents;
- the estimate of an issue, with the shipped stub as one instance;
- whether the server accepts each note;
- the loaded task;
- the already-interpreted `since` moment.

`get_project_for_group` and the task-name pattern appear in both scripts. The
copies are identical, so each is defined once, in `Fetcher`, and `Spend`
imports it.

## Model

| member | source | states |
|---|---|---|
| Fetcher.TimedeltaToStr | fetcher.py:23-26 | "%02d:%02d" of (days + whole hours of the seconds, minutes within the hour); what the text means is stated by TimedeltaToStrFields, DayAddsOneHour and TimedeltaStrRoundTrip. |
| Fetcher.TimedeltaToStrFields | fetcher.py:23-26 | The text splits on ':' into exactly the two "%02d" renderings of its fields. The first has at least two characters and reads as days + whole hours, so a day counts as one hour. The second is exactly two digits and reads as the whole minutes within the hour. |
| Fetcher.DayAddsOneHour | fetcher.py:23-26 | Adding a day adds 86400 seconds to the duration but only 1 to the hour field of its text. |
| Fetcher.TimedeltaToStrExample | fetcher.py:23-26 | One day and two hours is written "03:00". |
| Fetcher.StrToTimedelta | fetcher.py:29-33 | None and "" give the zero duration. Text with zero or several ':' is rejected, modelling the ValueError of unpacking the split. |
| Fetcher.StrToTimedeltaSomeIff | fetcher.py:29-33 | A non-empty estimate parses exactly when it is two integer literals joined by one ':'; otherwise `int()` or the unpacking raises ValueError. |
| Fetcher.StrToTimedeltaRejectsFields | fetcher.py:31 | "a:5" and "1:" raise ValueError: a piece that is not an integer literal. |
| Fetcher.StrToTimedeltaOfFields | fetcher.py:29-33 | "H:M" with two integer fields is exactly H hours plus M minutes, counted in seconds. |
| Fetcher.StrToTimedeltaExample | fetcher.py:29-33 | "02:15" is 8100 seconds. |
| Fetcher.StrToTimedeltaRejectsExamples | fetcher.py:29-33 | "0215" and "1:2:3" raise ValueError. |
| Fetcher.TimedeltaStrRoundTrip | fetcher.py:23-33 | Parsing the text back gives the duration truncated to whole minutes, with each day counted as one hour. |
| Fetcher.TimedeltaStrRoundTripExact | fetcher.py:23-33 | A duration under a day, in whole minutes, survives the round trip unchanged. |
| Fetcher.GroupProjectMap | fetcher.py:39-41 | The table as shipped, which is empty; ShippedMapResolvesNothing states the consequence. |
| Fetcher.ProjectForGroup | fetcher.py:44-52 | A project id is found exactly when the group is in the table and the subgroup is under it. The id found is the one stored there. |
| Fetcher.ShippedMapResolvesNothing | fetcher.py:39-52 | With the table as shipped (empty), no group/subgroup resolves to a project. |
| Fetcher.ParseTaskName | fetcher.py:122-125 | The match of `^(i\|m)(\d+)$` and its two groups; which names it accepts is stated by ParseTaskNameExactly and TaskNameExamples. |
| Fetcher.ParseTaskNameExactly | fetcher.py:122-131 | The pattern `^(i\|m)(\d+)$` accepts a name exactly when the name is the kind letter, any number of zeros, then the id in decimal. 'i' means an issue and 'm' a merge request. |
| Fetcher.TaskNameRoundTrip | fetcher.py:122-131 | The usual name of every task (letter plus shortest decimal id) parses back to that task. |
| Fetcher.TaskNameExamples | fetcher.py:122-131 | "i42" and "m7" are accepted with their kind and id. "x1", "42", "i" and "i4a" are rejected. |
| Fetcher.IssueToTaskData | fetcher.py:69-88 | A missing issue gives None. Otherwise the record has the issue's title, "issues" = str(iid) and "status" = its state. It has "estimate" exactly when the estimate is a non-empty string, and then holds that string. |
| Fetcher.IssueEstimate | fetcher.py:64-66 | The unimplemented estimate lookup, which gives None for every issue; StubEstimateIsZero states what that does to the sum. |
| Fetcher.EstimateSeconds | fetcher.py:103-106 | The sum of the closed issues' parsed estimates in seconds, or failure; characterised by EstimateFailsIff and computed by SumEstimates. |
| Fetcher.EstimateFailsIff | fetcher.py:103-106 | The estimate sum fails exactly when some closed issue's estimate does not parse. |
| Fetcher.StubEstimateIsZero | fetcher.py:64-66 | With the stub estimate (always None), the sum over any issues is zero seconds. |
| Fetcher.ClosedIssueIds | fetcher.py:101 | There is one id per closed issue, in order. Each is str(iid) and parses back to that iid. |
| Fetcher.SumEstimates | fetcher.py:103-106 | The loop returns the sum of the estimates in seconds. It returns None exactly when one of them fails to parse. |
| Fetcher.MergeRequestToTaskData | fetcher.py:91-110 | A missing merge request raises GitlabGetError, and a bad estimate raises ValueError. Otherwise the record has the title, "merge-request" = str(mid), the closed issues' ids in order, and "estimate" exactly when the sum is positive, written by timedelta_to_str. |
| Fetcher.Cli | fetcher.py:116-140 | The run stops with "no project" when the table has no entry, raises when the project is not on the server, and stops on an unrecognised name. Otherwise it saves an issue record (keys "issues", "status") or a merge-request record (keys "merge-request", "issues"). A missing issue reports "no data". A missing merge request raises. |
| Spend.SpendHours | spend.py:30-35 | The hour count is the whole hours of td.seconds (below 24); the days of td play no part. |
| Spend.SpendMinutes | spend.py:30-35 | The minute count is at most 60. Hours and minutes together lie within [-30, +30) seconds of td.seconds: the count rounds up only when more than 30 seconds are left over (`seconds > 30`), so exactly half a minute rounds down. |
| Spend.SpendMinutesUnique | spend.py:30-35 | Only one minute count lands within [-30, +30) seconds: rounding to the nearest minute, with exactly half a minute rounded down. |
| Spend.SixtyMinutes | spend.py:30-35 | The minute count is 60, never carried into the hours, exactly when the last 29 seconds of an hour are reached. |
| Spend.HalfMinuteExamples | spend.py:30-35 | 90 seconds round to 1 minute; 91 seconds round to 2. |
| Spend.ToSpendString | spend.py:30-35 | The "/spend {h}h{m}min YYYY-MM-DD" note; its fields are stated by SpendHours, SpendMinutes and SpendStringRoundTrip. |
| Spend.SpendStringRoundTrip | spend.py:30-35 | Every note reads back as its hours, minutes and date, so the note is unambiguous. |
| Spend.SpendTextRoundTrip | spend.py:35 | "/spend {h}h{m}min {date}" with unpadded fields reads back as those fields, for any h, m and date. |
| Spend.NoCarryExample | spend.py:30-35 | 1h59m31s is written "/spend 1h60min 2024-03-01", not "2h0min". |
| Spend.DaysIgnoredExample | spend.py:30-35 | One day and two hours is written "/spend 2h0min ...", so the day is lost. |
| Times.DateString | spend.py:35 | strftime('%Y-%m-%d'); DateStringRoundTrip states its width and that it reads back as the date. |
| Times.DateStringRoundTrip | spend.py:35 | strftime('%Y-%m-%d') of a date is ten characters and reads back as that date. |
| Spend.SpendBodies | spend.py:80-87 | The notes the loop attempts, one per spendable entry in logbook order; characterised by SpendBodiesMembers, SpendBodiesEmpty and SpendBodiesAppend. |
| Spend.SpentEntries | spend.py:80-87 | The entries posted are no more than the logbook, and each is closed and started at or after `since`. |
| Spend.SpentEntriesMembers | spend.py:80-87 | An entry is posted exactly when it is in the logbook, closed, and started at or after `since`. |
| Spend.SpendBodiesAppend | spend.py:80-87 | Posting follows logbook order: the notes for a + b are the notes for a, then the notes for b. |
| Spend.SpendBodiesEmpty | spend.py:80-87 | Nothing is attempted exactly when no logbook entry is spendable. |
| Spend.SpendBodiesMembers | spend.py:80-87 | A note is attempted exactly when some spendable entry renders as it, from out - in and the start date. |
| Spend.SpendBodiesExample | spend.py:80-87 | Three entries give one note, "/spend 2h5min 2024-03-01": one before `since`, one from 09:00 to 11:05, and one still open. |
| Spend.Delivered | spend.py:72-77 | Every note that lands on the issue is one of those attempted, and there are no more of them than attempts. |
| Spend.AllAcceptedDeliversAll | spend.py:72-77 | When the server accepts every note, every attempt becomes a note. |
| Gitlab.Issue.CreateNote | spend.py:75 | An accepted note is appended to the issue's notes. A rejected one leaves them as they were. |
| Spend.AddSpentTime | spend.py:67-77 | The note is the rendered "/spend" string. The issue gains it when the server accepts it and is otherwise unchanged, because the exception is caught. |
| Spend.SpendTimeOn | spend.py:80-87 | The loop attempts exactly the notes of the spendable entries, in logbook order. The issue's notes grow by exactly the accepted ones. A rejected note does not stop the walk. |
| Spend.SpendTarget | spend.py:102-117 | Resolution succeeds exactly when the group/subgroup has a project id, the project is on the server, the name matches and the parsed id is an issue of that project; the result is then that issue. Each other case stops with its own reason: no project, project not on the server, unrecognised name, no issue. |
| Spend.SpendTargetIgnoresKind | spend.py:110-115 | "i<id>" and "m<id>" lead to the same result, and "m<id>" resolves to the issue with that id whenever the project has one: the id is always looked up among issues. |
| Spend.Cli | spend.py:102-123 | When resolution stops, nothing is printed and no issue changes. Otherwise the resolved issue gains exactly the accepted notes of the logbook walk and every other issue is unchanged. |
| Text.PadInt | fetcher.py:26 | "%0Nd" % n is at least N characters long; PadIntRoundTrip and PadIntLength state its value and its exact width. |
| Text.PadIntLength | fetcher.py:26 | "%0Nd" % n is exactly max(N, len(str(n))) characters long. |
| Text.PadIntRoundTrip | fetcher.py:26 | int("%0Nd" % n) == n for every integer n and width N. |
| Text.IntStringRoundTrip | fetcher.py:79 | int(str(n)) == n. For n ≥ 0, str(n) is the shortest decimal rendering. |
| Text.ParseInt | fetcher.py:31 | int(s) on ASCII: an optional sign and one or more digits, else ValueError; PadIntRoundTrip and IntStringRoundTrip state that it inverts the renderings. |
| Text.Split | fetcher.py:31 | s.split(sep) gives one more piece than there are separators, and no piece holds the separator. |
| Text.SplitJoin | fetcher.py:31 | s.split(sep) joined back with sep gives s. |
| Times.FromSeconds | fetcher.py:32 | The normalised timedelta built from a number of seconds has exactly that total. |
| Times.Elapsed | spend.py:85 | out - in is a timedelta whose total is the difference of the two moments in seconds. |

## Left out

- The GitLab REST client, the `~/.dit/.gitlab.conf` file and the network are not modelled.
  - The server is a parameter: a map from project id to projects, issues and merge requests.
  - `projects.get`, `issues.get` and `mergerequests.get` are lookups in it.
  - A missing key is GitlabGetError.
- `mr.closes_issues()` is modelled as a stored sequence on the merge request.
- Reading and writing task files, JSON encoding, `os.path.join` and `sys.argv` handling are left out.
  - The fetch command line returns the record it would save.
  - The spend command line takes the already loaded task.
- `convert_datetimes` and `interpret_date` come from the `dit` package, which is not part of this model. Logbook times and `since` are inputs (timestamps on one clock, each with its calendar date).
- Printed messages are left out. Each way a run ends is a constructor of `FetchOutcome` or `SpendOutcome`.
- Fetcher.Cli: the truthiness test `if not gl_project` is taken to fail only when no project id is configured, because a project object returned by the client is always truthy.
- Fetcher.Cli: states only the keys of the saved record. `IssueToTaskData` and `MergeRequestToTaskData` state the values.
- Text.ParseInt: Python's `int()` also accepts surrounding whitespace, `_` between digits and non-ASCII digits. None of these occur in text the scripts write themselves.
- Fetcher.ParseTaskName: Python's `$` also matches before a final newline, and `\d` also matches non-ASCII digits. Both are left out for the same reason.
- Microseconds of `timedelta` and `datetime` are not modelled. Neither is the OverflowError of a `timedelta` beyond 999999999 days.
- Times.DateString: `strftime('%Y')` is modelled as a zero-padded four-digit year. Platforms differ for years below 1000.
- The estimate that `get_issue_estimate` would read is a parameter of the record builders. The command line uses the shipped stub, which always returns None.
- `issue_to_task_data` stores the estimate unchanged. The model takes it to be a string.
