# Experiment server: report loop, submission check and file-name helpers

A Dafny model of the logic inside `healthServer.go`, a small Go backend that
accepts sensor and survey submissions over HTTP, stores them as CSV files and
mails operators an hourly count of submissions per beacon.

The model has five modules:

- `Scheduler` (`scheduler.dfy`) is the report loop `reportLoop`, written as a pure step function.
  - The state is the per-beacon counters, `lastsent` (the `"%d-%d"` day-hour key of the last report, starting at `"-1--1"`) and `lasttime`.
  - Events are `Submission(beacon)` and `Tick(day, hour, now, delivered)`.
  - A tick reports only in a configured hour, and never twice in a row for the same day-hour key. When it reports, it emits the counter snapshot and the window `(lasttime, now)`, then resets the state.
  - The mail send is reduced to the `delivered` flag. That flag is recorded in the report and never read by the next state.
  - `Run` feeds a list of events through `Step`. The lemmas over runs cover conservation of counts, at most one report per hour, and the windows of a run: `RunAppend` splits a run into consecutive parts, and `ReportWindows` shows that report k of a run counts exactly the submissions since report k-1 and starts where report k-1 ended.
- `Validation` (`validation.dfy`) is `checkData`, as a loop proved equal to the predicate `WellFormed`.
- `Naming` (`naming.dfy`) covers `createVersionString`, `formatFileName`, `formatAddress`, and the handler's search for the first unused version.
- `Survey` (`survey.dfy`) is `toYesNo`, the spelling of yes/no survey answers.
- `Intake` (`intake.dfy`) is the decision the POST handler makes once the body is decoded. It picks a version, then forwards the submission to the loop only if it passes `checkData`.
- `Decimal` (`decimal.dfy`) implements `strconv.Itoa` and the `%d` verb, with a parser that undoes them.

Go's `time.Time` becomes an abstract integer instant. Go's zero time is `ZeroTime`. Day of month and hour of day are inputs carried by each tick, and the loop never computes them.

Two points about the duplicate-send guard, as the code has it:

- The guard is meant to tell `(day, hour)` pairs apart, but the code compares `"%d-%d"` strings. `DayHourKeyInjective` shows the two agree for non-negative day and hour.
- The guard remembers only the last key. "At most one report per hour" therefore holds for a stretch of ticks that fall in the same hour, as `AtMostOneReportPerHour` states. The same day and hour a month later reports again.

## Model

| member | source | states |
|---|---|---|
| Scheduler.Step | healthServer.go:319-345 | A submission adds 1 to its beacon's count, or sets it to 1 if absent. Every other count, `lastsent` and `lasttime` stay as they were. A tick reports exactly when its hour is in the report hours and its day-hour key differs from `lastsent`. Otherwise the state is unchanged. A report holds the pre-tick counters and the window from `lasttime` to `now`, and is emitted even when the counters are empty. After it, the counters are empty, `lastsent` is the tick's key and `lasttime` is `now`. |
| Scheduler.InArray | healthServer.go:293-300 | The scan returns true exactly when the value occurs in the list. |
| Scheduler.ReportsPerTick | healthServer.go:312-347 | Running the loop over a list of events compiles at most one report per tick. |
| Scheduler.RunAppend | healthServer.go:312-347 | Running two event lists in turn is running their concatenation: the second part starts from the state the first part ends in, and the reports of the two parts follow one another. |
| Scheduler.RunLasttime | healthServer.go:343 | After a run, `lasttime` is the end instant of the last report compiled, or its starting value when the run compiled none. |
| Scheduler.ReportWindows | healthServer.go:319-345 | Take a run whose first part leaves the counters empty after k reports, then a stretch with no report, then a reporting tick. Report k of the whole run counts each beacon exactly its submissions in that stretch and ends at the tick's instant. It starts where report k-1 ended, or at the starting `lasttime` when k is 0. |
| Scheduler.RunListed | healthServer.go:319-325 | Counters only list beacons that submitted at least once. So no report, and no final counter table, lists a beacon with a count of 0. |
| Scheduler.Conservation | healthServer.go:319-345 | For every beacon, pending count plus submissions in a run equals the total over the reports it compiles plus the final pending count. No submission is lost, including in reports whose send failed, and none is counted in two reports. |
| Scheduler.QuietRun | healthServer.go:319-336 | While no report is compiled, `lastsent` and `lasttime` are unchanged. Each beacon's count grows by exactly its number of submissions. |
| Scheduler.WindowReport | healthServer.go:337-345 | Start from empty counters, run a stretch that compiles no report, then a reporting tick. The report's count for each beacon equals its number of submissions in that stretch. Its window runs from the previous report's instant to the tick's instant. |
| Scheduler.SameHourSilent | healthServer.go:333-337 | Once the key of (day, hour) is in `lastsent`, no events whose ticks all fall in that hour compile a report, and the key stays. |
| Scheduler.AtMostOneReportPerHour | healthServer.go:332-337 | Take any ticks within one (day, hour), interleaved with any submissions. At most one report is compiled. |
| Scheduler.SentinelIsNoKey | healthServer.go:306 | The start-up value `"-1--1"` differs from the key of any non-negative day and hour. |
| Scheduler.FirstTickReports | healthServer.go:329-339 | While `lastsent` still holds the start-up sentinel, a tick in a report hour (day 1-31, hour 0-23) always reports. The report holds the pending counters, which may be empty, over the window from `lasttime`. |
| Scheduler.DayHourKeyInjective | healthServer.go:333 | For non-negative day and hour, two `"%d-%d"` keys are equal exactly when both day and hour are equal. |
| Scheduler.DeliveryDoesNotMatter | healthServer.go:340-345 | The state after a tick is the same whether the mail send succeeded or failed. |
| Scheduler.ExampleRun | healthServer.go:312-347 | The report hours are {9}. There are three submissions from A and one from B, then ticks at 08:59, 09:00, 09:15 and 10:00. The run yields one report, listing A=3 and B=1 from the zero time, and the counters end empty. |
| Validation.CheckData | healthServer.go:154-168 | The check accepts exactly when the datetime and beacon address are non-empty and the sensor log is present. Every point must also have a non-empty datetime and exactly five readings. A present but empty log is accepted. |
| Intake.HandleResults | healthServer.go:88-110 | The chosen version is the least one whose sensor file is absent. An event reaches the report loop exactly when the submission passes the check. That event is a submission from the record's beacon address. |
| Naming.CreateVersionString | healthServer.go:124-130 | The suffix is empty exactly for versions of 0 or less. Otherwise it is `(`, the decimal digits of the version without a leading zero, then `)`, and parsing the digits gives the version back. |
| Naming.VersionStringInjective | healthServer.go:124-130 | Two non-negative versions have the same suffix exactly when they are equal. |
| Naming.FormatFileName | healthServer.go:132-140 | The path starts with the directory, then the OS-specific data folder, and ends with the csv name. Its length is the sum of its parts. |
| Naming.FileNameLayout | healthServer.go:132-140 | The path is the directory, the OS-specific data folder, `_`, the experiment name, `_`, the date, `_`, the decimal session number and the csv name, each stated at its position, with nothing in between. |
| Naming.FileNameInjective | healthServer.go:132-140 | With the other parts fixed, two paths are equal exactly when their csv names are equal. |
| Naming.VersionedNameInjective | healthServer.go:91-95 | Distinct non-negative versions produce distinct probed sensor-file names. |
| Naming.FindVersion | healthServer.go:89-96 | The search ends. It returns the least version whose name is absent: every smaller version's name exists, and the result is at most the number of existing files. |
| Naming.FormatAddress | healthServer.go:142-144 | The result contains no `:`. It keeps every other character with its multiplicity. It is unchanged on colon-free input. |
| Naming.FormatAddressIdempotent | healthServer.go:142-144 | Stripping colons twice gives the same result as stripping once. |
| Naming.FormatAddressConcat | healthServer.go:142-144 | Stripping a concatenation equals concatenating the stripped parts, so character order is kept. |
| Survey.ToYesNo | healthServer.go:246-251 | The answer is "YES" exactly for selection 1 and "NO" for every other selection. |
| Decimal.Itoa | healthServer.go:128 | The spelling is non-empty. It starts with `-` exactly for negative numbers, and the rest is decimal digits with no leading zero. 0 is spelled `"0"`. |
| Decimal.ParseItoa | healthServer.go:128 | Parsing the output of `strconv.Itoa` gives back the integer, negative values included. |
| Decimal.ItoaInjective | healthServer.go:128 | Two integers have the same decimal spelling exactly when they are equal. |

## Left out

- Goroutine, channel and ticker (`go reportLoop`, `time.Tick`, `select`): these become a sequential list of events. Concurrency has no effect on the counting logic, since one loop owns the state.
- Channel closure (the `!ok` return in `reportLoop`): `main` never closes the channel. A finite event list plays the same part.
- The `":D"` submission that `main` queues at start-up: this is start-up plumbing. In the model it is just one `Submission` event.
- `time.Now`, `Day()`, `Hour()` and RFC 3339 formatting: day, hour and instant are tick inputs.
- `compileReport`'s HTML text and Go's random map iteration order: the report is kept as a counter map plus window.
- `sendEmail`, `sendTestEmail` and gomail: these are foreign network calls. Only the success flag of a scheduled send is modelled. The fatal start-up test mail is not.
- Gin routing, CORS, static files, JSON decoding and the HTTP responses of the POST handler: this is framework I/O. `Intake.HandleResults` starts from an already decoded record.
- `writeCSV`, `loadQuestions`, `LoadAppConfig`, `check`, `os.Stat`, `os.Getwd`, `os.Create`: this is file I/O. The file-system probe of the version search becomes a finite set of existing names.
- `writeCSV` names its files from `formatAddress(experimentName)` and a number 1-3, but the version search probes names built from the raw experiment name and `SessionNumber`. The probed and written names can therefore differ. Modelling this needs `writeCSV`, which is left out as file I/O.
- `createDateString`: it only reads the clock. The date is an input string.
- Fields of the submission record other than beacon address, session number, datetime and sensor log, plus the float sensor readings: `checkData` never reads them. A sensor point keeps only its number of readings.
- `runtime.GOOS`: this is a boolean `windows` parameter.
- Scheduler.Step: counters are unbounded naturals. Go's `int` counters would wrap only after 2^63 submissions in one window.
- Naming.FindVersion: the version is unbounded. Go's `int` version counter cannot overflow before the set of existing files is exhausted.
