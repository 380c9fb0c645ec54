# SMA Alerts: a Dafny model of the daily signal job

SMA Alerts is an Android app. Once a day a background job fetches the daily
price series of an index fund from Alpha Vantage. It computes the simple
moving average (SMA) of the closing prices and classifies how far the latest
close sits above that average into one of five signals: SELL ALL, SELL 80%,
BUY, SELL and HOLD. It notifies the user when the signal changes, stores the
result, and schedules the next run with WorkManager. A web view reads the
user's settings from localStorage and hands them to the app through a
JavaScript bridge. The bridge also answers latest-price queries from Yahoo
Finance.

The model is a set of pure functions. Each run of the job returns its result
together with the ordered list of effects it performs. Those effects are
notifications, writes to the settings store and the reschedule. Everything
the job depends on from outside comes in as a parameter:

- the settings store (a map of typed values);
- the network (the outcome of each attempt);
- the clocks;
- today's date.

Modules, in dependency order:

- `Base`: nullable references (`Option`), Java `int`, `String.trim` /
  blank checks, `Integer.parseInt` and `Integer.toString`.
- `Doubles`: the Java `double` values the job computes: exact finite values
  plus the two infinities and NaN, with Java's comparison rules. Numbers read
  from replies are finite (see "Left out").
- `Prefs`: the SharedPreferences store behind `PrefsHelper`, its keys, and
  typed getters that report a value of the wrong type (ClassCastException).
- `SignalEngine`: `determineSignal`, ordering of date keys, the newest-first
  sort, `computeSMA` and the percentage above the SMA.
- `Network`: `NetworkHelper.fetchJson` and the bounded retry loop of
  `fetchWithRetry`, both as a function and as the loop itself.
- `Scheduler`: `WorkScheduler`: the two delay calculations, the clamp, the
  pending unique work entries, the fallback entry and `cancelAllWork`.
- `Bridge`: `MainActivity`'s `trimQuotes`, the settings captures
  (`captureKey`, the notification time and API key captures of `onCreate`
  and `rescheduleNotifications`, `updateApiKey`) and the Yahoo Finance price
  lookup (`fetchLatestPrice`, `getLatestPrice`).
- `NotificationPolicy`: the frequency decision table of the notification
  tests (`shouldNotifyForSignal`), and the rule the job actually applies.
- `Worker`: `SMAWorker.doWork`, end to end, with what a run leaves in the
  store and in the pending work.

Three behaviours of the code worth noting:

- The missing-API-key notice is sent whatever the notification frequency.
- A stored symbol is replaced by SPY only when it is empty, not when it is
  the text "null".
- The job ignores the `notifFrequency` setting entirely. It notifies whenever
  the signal differs from the stored one and the master toggle is on.
  `NotificationPolicy.RulesDisagree` exhibits the differences from the
  frequency table the tests use.

`SMAWorker.java` reads the master toggle under `PrefsHelper.KEY_NOTIF_ENABLED`.
`PrefsHelper.java` does not declare that constant. The model uses the key
name "notifEnabled" for it.

## Model

All source paths are under `android/app/src/`.

| member | source | states |
|---|---|---|
| Base.BlankIffAllTrimmed | android/app/src/main/java/com/kulkarnih/smaalerts/NetworkHelper.java:24-27 | `url.trim().isEmpty()` holds exactly when every char of the URL is at most U+0020 |
| Base.ParseInt | android/app/src/main/java/com/kulkarnih/smaalerts/MainActivity.java:133-134 | a parsed int comes from a non-empty text of decimal digits, optionally after one `+` or `-`, and has their value, negated after a minus |
| Base.ParseShowRoundTrip | android/app/src/main/java/com/kulkarnih/smaalerts/MainActivity.java:133-134 | every Java int written in decimal parses back to itself, so a period typed in the web app reaches the store unchanged |
| Doubles.DivideByZero | android/app/src/main/java/com/kulkarnih/smaalerts/SMAWorker.java:101-102 | dividing by a zero SMA gives +Infinity, -Infinity or NaN according to the sign of the numerator |
| Doubles.NegReversesOrder | android/app/src/main/java/com/kulkarnih/smaalerts/SMAWorker.java:160 | negating the sell threshold is an involution that reverses `>=`, including for infinities and NaN |
| Doubles.GeIsJavaOrder | android/app/src/main/java/com/kulkarnih/smaalerts/SMAWorker.java:157-161 | the comparisons of `determineSignal` are the order of the reals on finite values, false whenever NaN is involved, and total otherwise |
| Prefs.GetString | android/app/src/main/java/com/kulkarnih/smaalerts/PrefsHelper.java:45-47 | a missing key reads as the default; a value of another type throws; otherwise the stored string |
| Prefs.GetInt | android/app/src/main/java/com/kulkarnih/smaalerts/PrefsHelper.java:53-55 | the same rules for int values |
| Prefs.GetFloat | android/app/src/main/java/com/kulkarnih/smaalerts/PrefsHelper.java:49-51 | the same rules for float values |
| Prefs.GetBool | android/app/src/main/java/com/kulkarnih/smaalerts/PrefsHelper.java:57-59 | the same rules for boolean values |
| Prefs.PutThenGet | android/app/src/main/java/com/kulkarnih/smaalerts/PrefsHelper.java:29-59 | each typed put is read back by the matching typed get, whatever the default |
| SignalEngine.DetermineSignal | android/app/src/main/java/com/kulkarnih/smaalerts/SMAWorker.java:156-162 | on finite inputs the five signals partition the percentages: SELL ALL at 40 and above, SELL 80% on [30, 40), BUY below 30 at or above the buy threshold, SELL at or below minus the sell threshold, HOLD in between; +Infinity is SELL ALL and NaN is HOLD |
| SignalEngine.NameInjective | android/app/src/main/java/com/kulkarnih/smaalerts/SMAWorker.java:112 | comparing stored signal names compares signals, and no name is empty |
| SignalEngine.SignalMonotone | android/app/src/main/java/com/kulkarnih/smaalerts/SMAWorker.java:156-162 | a higher percentage never yields a lower-ranked signal, for any thresholds |
| SignalEngine.BoundariesAreInclusive | android/app/src/main/java/com/kulkarnih/smaalerts/SMAWorker.java:156-162 | each threshold (40, 30, buy 4, minus sell -3) belongs to the higher-priority signal; values just below fall through |
| SignalEngine.FixedLevelsWin | android/app/src/main/java/com/kulkarnih/smaalerts/SMAWorker.java:157-159 | the fixed 40 and 30 levels are tested before the user's buy threshold, whatever it is |
| SignalEngine.NegativeInfinityIsSell | android/app/src/main/java/com/kulkarnih/smaalerts/SMAWorker.java:159-160 | a percentage of -Infinity is SELL for any non-degenerate thresholds |
| SignalEngine.LexTransitive | android/app/src/main/java/com/kulkarnih/smaalerts/SMAWorker.java:88 | `String.compareTo` order is transitive |
| SignalEngine.LexTotal | android/app/src/main/java/com/kulkarnih/smaalerts/SMAWorker.java:88 | any two different date keys are ordered one way or the other |
| SignalEngine.NotLessTransitive | android/app/src/main/java/com/kulkarnih/smaalerts/SMAWorker.java:88 | the reverse order used for sorting is transitive |
| SignalEngine.Insert | android/app/src/main/java/com/kulkarnih/smaalerts/SMAWorker.java:88 | inserting an entry into a newest-first list keeps it newest first and adds exactly that entry |
| SignalEngine.SortNewestFirst | android/app/src/main/java/com/kulkarnih/smaalerts/SMAWorker.java:84-88 | the sorted series is a permutation of the series with no entry followed by a newer date |
| SignalEngine.FirstIsLatest | android/app/src/main/java/com/kulkarnih/smaalerts/SMAWorker.java:96-98 | the entry read as the current price belongs to the series and has no newer date in it |
| SignalEngine.SumClosesAppend | android/app/src/main/java/com/kulkarnih/smaalerts/SMAWorker.java:148-152 | the running sum over two consecutive windows is the sum of their sums |
| SignalEngine.SumClosesBounds | android/app/src/main/java/com/kulkarnih/smaalerts/SMAWorker.java:148-152 | a window's sum lies between its length times the lowest and times the highest close |
| SignalEngine.ComputeSma | android/app/src/main/java/com/kulkarnih/smaalerts/SMAWorker.java:146-154 | for a positive period, the average exists exactly when there are at least `period` entries (otherwise it throws) |
| SignalEngine.SmaWithinWindow | android/app/src/main/java/com/kulkarnih/smaalerts/SMAWorker.java:146-154 | the average lies between the smallest and the largest of the `period` newest closes |
| SignalEngine.EqualClosesAverageToThemselves | android/app/src/main/java/com/kulkarnih/smaalerts/SMAWorker.java:146-154 | a window of equal closes averages to that close |
| SignalEngine.FixtureAverage | android/app/src/main/java/com/kulkarnih/smaalerts/SMAWorker.java:148-153 | 199 newer closes of 100 and one oldest close average to (19900 + close) / 200 over a 200-day window |
| SignalEngine.ChangePercent | android/app/src/main/java/com/kulkarnih/smaalerts/SMAWorker.java:101-102 | the percentage is finite exactly when the period is positive and the SMA non-zero, and then pct × sma = (current − sma) × 100 |
| SignalEngine.PercentUsesSma | android/app/src/main/java/com/kulkarnih/smaalerts/SMAWorker.java:100-102 | for a positive period the percentage is taken against `computeSMA`'s average: the relative distance to it, or the division-by-zero value when it is zero |
| SignalEngine.PercentAgainstPrice | android/app/src/main/java/com/kulkarnih/smaalerts/SMAWorker.java:102 | with a positive SMA, "pct ≥ k" is "current ≥ sma × (1 + k/100)" |
| SignalEngine.EndToEndScenarios | android/app/src/main/java/com/kulkarnih/smaalerts/SMAWorker.java:101-103 | prices of 140, 139.99, 104, 103.99, 97 and 96.99 against an SMA of 100 give SELL ALL, SELL 80%, BUY, HOLD, SELL and SELL; a buy threshold of 100 cannot beat SELL ALL |
| Network.FetchJson | android/app/src/main/java/com/kulkarnih/smaalerts/NetworkHelper.java:62-92 | a payload exactly for status 200 with a non-blank body that parses; every other case throws, and null is never returned |
| Network.FetchWithRetryLoop | android/app/src/main/java/com/kulkarnih/smaalerts/NetworkHelper.java:22-60 | the loop as written (return on a payload, sleep 2000 × attempt after a failure except the last, break on interruption) yields the result, attempt count and sleeps of the recursive definition |
| Network.RetryFromAttempts | android/app/src/main/java/com/kulkarnih/smaalerts/NetworkHelper.java:31-56 | never more than three attempts; the loop stops at the first payload; a failure after fewer than three attempts ends on an interrupted sleep |
| Network.RetryFromSleeps | android/app/src/main/java/com/kulkarnih/smaalerts/NetworkHelper.java:47-54 | the sleeps are strictly increasing, each 2000 or 4000 ms, and no earlier than 2000 × the attempt they follow |
| Network.BlankUrlMakesNoAttempt | android/app/src/main/java/com/kulkarnih/smaalerts/NetworkHelper.java:24-27 | a null or whitespace URL returns null without an attempt or a sleep |
| Network.FetchWithRetryOverHttp | android/app/src/main/java/com/kulkarnih/smaalerts/NetworkHelper.java:22-92 | when every attempt is `fetchJson` of the next HTTP response and no sleep is interrupted, the result is the parsed body of the first of the three responses `fetchJson` accepts, and null after three attempts exactly when it refuses all three |
| Network.RetryContract | android/app/src/main/java/com/kulkarnih/smaalerts/NetworkHelper.java:22-60 | for a usable URL: 1 to 3 attempts; a payload is the last attempt's and no earlier attempt had one; early failure means an interrupted sleep; sleeps increasing among 2000 and 4000 ms |
| Network.PersistentFailureUsesWholeBudget | android/app/src/main/java/com/kulkarnih/smaalerts/NetworkHelper.java:43-54 | three failures make three attempts with sleeps of 2000 and 4000 ms and return null |
| Network.NullResultDoesNotSleep | android/app/src/main/java/com/kulkarnih/smaalerts/NetworkHelper.java:36-41 | a null result goes straight to the next attempt without sleeping |
| Scheduler.DelayUntil | android/app/src/main/java/com/kulkarnih/smaalerts/WorkScheduler.java:112-127 | the delay is positive, at most a day, lands on the target time of day, and is a full day exactly when now is the target |
| Scheduler.DelayUntilIsEarliest | android/app/src/main/java/com/kulkarnih/smaalerts/WorkScheduler.java:113-118 | no shorter positive delay reaches the target time of day |
| Scheduler.SkipWeekend | android/app/src/main/java/com/kulkarnih/smaalerts/WorkScheduler.java:85-88 | the first weekday at or after the start day, at most two days later, with every skipped day a Saturday or Sunday |
| Scheduler.SkipWeekendLoop | android/app/src/main/java/com/kulkarnih/smaalerts/WorkScheduler.java:85-88 | the `while` loop over days of week stops at the same day as the closed form |
| Scheduler.LegacyDelay | android/app/src/main/java/com/kulkarnih/smaalerts/WorkScheduler.java:74-104 | 15:30 New York time on the next weekday, at most three days away, or 24 hours when reading the clock throws |
| Scheduler.LegacyDelayIsNext | android/app/src/main/java/com/kulkarnih/smaalerts/WorkScheduler.java:80-91 | every shorter delay that lands on 15:30 New York time lands on a Saturday or Sunday: the delay reaches the next weekday 15:30 |
| Scheduler.DelayFromSettings | android/app/src/main/java/com/kulkarnih/smaalerts/WorkScheduler.java:106-139 | the stored hour and minute on the local clock when they form a valid time, and the New York variant otherwise |
| Scheduler.StoredRunTime | android/app/src/main/java/com/kulkarnih/smaalerts/WorkScheduler.java:108-113 | a valid stored hour and minute give a time of day within the day whose hour and minute are the stored ones (15 and 30 for an unset key), on a whole minute |
| Scheduler.StoredTimeIsUsed | android/app/src/main/java/com/kulkarnih/smaalerts/WorkScheduler.java:106-118 | with a stored hour in 0..23 and minute in 0..59, the delay is the one to that hour and minute on the local clock |
| Scheduler.UnsetTimeDefaultsTo1530 | android/app/src/main/java/com/kulkarnih/smaalerts/WorkScheduler.java:108-109 | with nothing stored the run time is 15:30 local |
| Scheduler.InvalidHourFallsBack | android/app/src/main/java/com/kulkarnih/smaalerts/WorkScheduler.java:113-137 | an hour above 23 makes `LocalTime.of` throw and the New York variant decides |
| Scheduler.ClampDelay | android/app/src/main/java/com/kulkarnih/smaalerts/WorkScheduler.java:38-45 | the delay is brought into [1 minute, 7 days], and in-range delays are unchanged |
| Scheduler.ClampIdempotentAndMonotone | android/app/src/main/java/com/kulkarnih/smaalerts/WorkScheduler.java:38-45 | clamping twice is clamping once, and clamping preserves order |
| Scheduler.ArmFallback | android/app/src/main/java/com/kulkarnih/smaalerts/WorkScheduler.java:141-160 | the fallback entry is armed with a one-hour delay, replacing any earlier one; its failure is swallowed; nothing else changes |
| Scheduler.ScheduleDailyAnalysis | android/app/src/main/java/com/kulkarnih/smaalerts/WorkScheduler.java:30-72 | when WorkManager works, the primary entry is pending with the clamped delay; on a failure the fallback entry is armed instead; when the cancel throws the primary entry is left as it was; other entries are untouched |
| Scheduler.ScheduleReplaces | android/app/src/main/java/com/kulkarnih/smaalerts/WorkScheduler.java:59-60 | scheduling twice leaves what one scheduling with the later inputs leaves |
| Scheduler.CancelAllWork | android/app/src/main/java/com/kulkarnih/smaalerts/WorkScheduler.java:177-185 | both unique entries are cancelled in order, a throwing cancel stops the rest, and no other entry is touched |
| Scheduler.CancelUndoesSchedule | android/app/src/main/java/com/kulkarnih/smaalerts/WorkScheduler.java:177-185 | cancelling everything after a reschedule leaves what cancelling alone leaves |
| Bridge.TrimQuotes | android/app/src/main/java/com/kulkarnih/smaalerts/MainActivity.java:151-157 | null becomes ""; only a value of length two or more wrapped in double quotes loses exactly those two quotes |
| Bridge.TrimQuotesUndoesQuote | android/app/src/main/java/com/kulkarnih/smaalerts/MainActivity.java:151-157 | stripping the quotes undoes the JSON rendering of a string that has no character to escape |
| Bridge.LoneQuoteKept | android/app/src/main/java/com/kulkarnih/smaalerts/MainActivity.java:153 | a single `"` is not stripped |
| Bridge.CaptureKey | android/app/src/main/java/com/kulkarnih/smaalerts/MainActivity.java:125-142 | only the target key changes; null, empty and "null" in any case write nothing; the period is stored as the parsed int and the thresholds as the parsed floats, and a value that does not parse writes nothing; any other key is stored as the cleaned text |
| Bridge.CapturedPeriodReadsBack | android/app/src/main/java/com/kulkarnih/smaalerts/MainActivity.java:133-134 | an SMA period rendered by the web app reads back from the store as the same int, whatever default the reader passes |
| Bridge.MissingItemWritesNothing | android/app/src/main/java/com/kulkarnih/smaalerts/MainActivity.java:127-132 | a missing localStorage item (the JSON text null) and a quoted "NULL" leave the store unchanged |
| Bridge.UpdateApiKey | android/app/src/main/java/com/kulkarnih/smaalerts/MainActivity.java:241-261 | a non-null value always writes the API key as the cleaned value, which clears it when empty; only that key changes |
| Bridge.CaptureApiKey | android/app/src/main/java/com/kulkarnih/smaalerts/MainActivity.java:221-232 | only a non-empty cleaned value is written, and only to the API key |
| Bridge.ApiKeyWritersAgreeOnNonEmpty | android/app/src/main/java/com/kulkarnih/smaalerts/MainActivity.java:248-257 | the update and the capture agree on a non-empty value; on an empty one the update clears the key while the capture keeps it |
| Bridge.CaptureIntSetting | android/app/src/main/java/com/kulkarnih/smaalerts/MainActivity.java:200-219 | the hour or minute is stored under its key as the parsed int (0 included), and a value that does not parse leaves the store unchanged |
| Bridge.NullTimeIgnored | android/app/src/main/java/com/kulkarnih/smaalerts/MainActivity.java:55-57 | a null value or the JSON text null leaves the stored time alone |
| Bridge.CaptureFrequency | android/app/src/main/java/com/kulkarnih/smaalerts/MainActivity.java:192-199 | any non-null value is stored as the cleaned frequency text, "null" included |
| Bridge.ChosenField | android/app/src/main/java/com/kulkarnih/smaalerts/MainActivity.java:358-371 | the first present field in the order regularMarketPrice, previousClose, chartPreviousClose is chosen, whatever its value |
| Bridge.FetchLatestPrice | android/app/src/main/java/com/kulkarnih/smaalerts/MainActivity.java:303-400 | the price is 0 or positive, and positive exactly when the reply reaches `meta` and the chosen field is a positive number, which is then the price |
| Bridge.NonPositiveRegularPriceDoesNotFallThrough | android/app/src/main/java/com/kulkarnih/smaalerts/MainActivity.java:358-376 | a present but non-positive regularMarketPrice yields 0 even when a fallback field holds a good price |
| Bridge.GetLatestPrice | android/app/src/main/java/com/kulkarnih/smaalerts/MainActivity.java:271-294 | a null or empty symbol gives "0"; a price text is shown exactly when the lookup finds a positive price, and it is that price |
| NotificationPolicy.ShouldNotifyForSignal | android/app/src/test/java/com/kulkarnih/smaalerts/NotificationFrequencyTest.java:210-224 | "disabled" never notifies, "daily" always does, "on_change" does exactly when a previous signal exists and differs, and any other mode never notifies |
| NotificationPolicy.JobNotifies | android/app/src/main/java/com/kulkarnih/smaalerts/SMAWorker.java:112-116 | the job notifies only with the master toggle on, and then exactly when the signal name differs from the stored one |
| NotificationPolicy.JobIsOnChangeAfterFirstRun | android/app/src/main/java/com/kulkarnih/smaalerts/SMAWorker.java:112-126 | with a stored signal and the toggle on, the job's rule is the "on_change" rule |
| NotificationPolicy.RulesDisagree | android/app/src/test/java/com/kulkarnih/smaalerts/NotificationFrequencyTest.java:210-224 | the job notifies on a first run where "on_change" does not, stays silent on an unchanged signal where "daily" notifies, and ignores "disabled" |
| NotificationPolicy.OnChangeExamples | android/app/src/test/java/com/kulkarnih/smaalerts/NotificationFrequencyTest.java:215-223 | SELL 80% to SELL ALL notifies, HOLD to HOLD and a missing previous signal do not, and an unknown mode never does |
| Worker.FixedRunsWellFormed | android/app/src/main/java/com/kulkarnih/smaalerts/SMAWorker.java:43-49 | the missing-key run and the crash run each reschedule exactly once, last |
| Worker.ReadSettings | android/app/src/main/java/com/kulkarnih/smaalerts/SMAWorker.java:37-41 | the reads fail exactly when a stored setting has the wrong type; otherwise each setting is read as stored, and missing settings take the defaults "", SPY, 200, 4 and 3 |
| Worker.Symbol | android/app/src/main/java/com/kulkarnih/smaalerts/SMAWorker.java:52 | the queried symbol is the stored index when that is non-empty, and SPY when it is empty |
| Worker.DailySeriesUrlNotBlank | android/app/src/main/java/com/kulkarnih/smaalerts/SMAWorker.java:53 | the daily-series URL is never blank, so the retry loop always attempts it |
| Worker.FetchedIsFetchWithRetry | android/app/src/main/java/com/kulkarnih/smaalerts/SMAWorker.java:52-54 | the reply the job acts on is `fetchWithRetry` of the daily-series URL for its symbol and key |
| Worker.Analyse | android/app/src/main/java/com/kulkarnih/smaalerts/SMAWorker.java:56-94 | null retries (FetchFailed); an "Error Message" notifies "API Error: …" and succeeds; a missing series retries (NoTimeSeries); a series that is not an object crashes; otherwise the newest-first series is evaluated |
| Worker.Evaluate | android/app/src/main/java/com/kulkarnih/smaalerts/SMAWorker.java:90-103 | too few points retries; with enough points a run either crashes on an unreadable entry or decides a signal; a signal is decided exactly when the current close and every averaged close can be read, and it is `determineSignal` of the percentage of the newest close against the SMA of the `period` newest closes |
| Worker.Report | android/app/src/main/java/com/kulkarnih/smaalerts/SMAWorker.java:105-135 | the comparison stage completes and reschedules once, or the stored values are unreadable and the run takes the catch-all exit; a completed stage posts exactly one notice, "signal changed" with the new signal and its percentage, when the stored signal differs and the master toggle is on, and none otherwise, then stores signal, percentage and date and reschedules |
| Worker.ReportCompletes | android/app/src/main/java/com/kulkarnih/smaalerts/SMAWorker.java:106-114 | the stage completes exactly when the last signal and date read, and the master toggle too when the signal changed |
| Worker.ReportWrites | android/app/src/main/java/com/kulkarnih/smaalerts/SMAWorker.java:128-131 | a completed stage stores the signal, the percentage and today's date and nothing else; any other outcome writes nothing |
| Worker.ReportAnnounces | android/app/src/main/java/com/kulkarnih/smaalerts/SMAWorker.java:112-126 | a completed stage announces a change exactly when the stored signal differs and the master toggle is on, and its only notice carries the new signal and its percentage |
| Worker.DoWork | android/app/src/main/java/com/kulkarnih/smaalerts/SMAWorker.java:34-143 | every run reschedules exactly once, last; success exactly for a missing key, an API error or completion; only completed runs write or announce; an unreadable setting is the crash run; a missing key is exactly the notice-and-reschedule run; with a key, a null reply, an API error, a missing series and too few points each give their own run, a series that is not an object and an unreadable current or averaged close give the catch-all retry run, and a decided signal goes to the comparison stage with its percentage |
| Worker.Proceed | android/app/src/main/java/com/kulkarnih/smaalerts/SMAWorker.java:54-135 | after the key check a run is well formed, never the missing-key exit, and completes only when the reply decided a signal; an early exit of the reply checks is the run, and a decided signal and percentage go to the comparison stage |
| Worker.RunFacts | android/app/src/main/java/com/kulkarnih/smaalerts/SMAWorker.java:34-143 | a run that does not complete leaves the store unchanged; a completed one stores today's date, writes only the last-signal keys, and announces exactly when the stored signal changes and the toggle is on |
| Worker.ReadableRunCompletes | android/app/src/main/java/com/kulkarnih/smaalerts/SMAWorker.java:90-135 | with readable settings, a key, a series of at least `period` readable entries and readable stored last signal, date and master toggle, the run completes through the comparison stage with `determineSignal` of the newest close's percentage |
| Worker.CompletedRunStoresDecidedSignal | android/app/src/main/java/com/kulkarnih/smaalerts/SMAWorker.java:90-131 | a completed run had a reply with a series of at least `period` entries, and stored as last signal the name of `determineSignal` of the newest close's percentage against the SMA, and that percentage as last percent |
| Worker.SecondRunIsQuiet | android/app/src/main/java/com/kulkarnih/smaalerts/SMAWorker.java:112-131 | a second run on the same data completes without announcing and keeps the stored signal: a change is announced once |
| Worker.SettingsOutsideLastKeys | android/app/src/main/java/com/kulkarnih/smaalerts/SMAWorker.java:37-41 | what a run writes does not change the settings the next run reads |
| Worker.ChainStaysAlive | android/app/src/main/java/com/kulkarnih/smaalerts/SMAWorker.java:34-143 | after any run the daily entry is pending with a delay between a minute and seven days when WorkManager works, and the daily or fallback entry is pending when only the fallback call works |
| Worker.NoteIsIgnored | android/app/src/main/java/com/kulkarnih/smaalerts/SMAWorker.java:72-76 | the "Note" member of the reply changes nothing |

## Left out

- HTTP, JSON parsing and stream handling are left out. A reply is its parsed form, and the network is a sequence of per-attempt outcomes that the job sees per symbol and API key. Timeouts, request headers and the `finally` clean-up are not modelled.
- `Thread.sleep` is a requested sleep recorded in order. Whether it is interrupted comes from the network parameter. Re-setting the interrupt flag has no model.
- `Network.FetchWithRetryLoop` takes each attempt's outcome directly, so a null from `fetchJson` is kept as a possibility even though `fetchJson` never returns one. `Network.FetchWithRetryOverHttp` covers the runs whose every attempt is `fetchJson` of an HTTP response.
- Clocks are parameters: a millisecond of the day and a day of the week. Time zones, daylight-saving days and the conversion between the New York and the local instant are not modelled, and days are taken to be 24 hours long.
- `today()` (UTC date formatting) is a parameter of the run.
- The doubles the job computes (the average, the percentage, the thresholds) are exact reals plus the infinities and NaN. Rounding is not modelled, including the `(float)` cast of the stored percentage and the widening of the thresholds.
- Base.ParseInt: the contract states the value of every successful parse but does not list the texts that fail (a lone sign, a non-digit, a value outside the int range); `Base.ParseShowRoundTrip` shows that every rendered int parses.
- `Float.parseFloat` is a parameter of `captureKey`: it returns nothing where Java throws. `Integer.parseInt` is modelled for ASCII digits only; the non-ASCII Unicode digits Java also accepts are not.
- `String.valueOf(price)` and the `%.2f` formatting of messages are left out. Messages carry the signal and the percentage, and the price text carries the price.
- Notification channels, posting notifications and `NotificationHelper` are left out. A notification is an effect carrying a title and a message.
- `BootReceiver`, permission requests, the JavaScript interface registration and `logWorkStatus` are left out: none of them changes the modelled state.
- The web view callbacks run asynchronously. The completion counter of `rescheduleNotifications`, and the reschedules of `rescheduleNotifications` and of `onCreate`'s minute capture, are not modelled as orderings. Each capture is a store update, and each reschedule is `Scheduler.ScheduleDailyAnalysis`.
- WorkManager constraints (network, battery), tags and the run-attempt backoff behind `Result.retry()` are not modelled.
- SignalEngine.ComputeSma: admits positive periods only. A stored period of 0 or less (which `captureKey` can store, for example from "0" or "-5") makes `computeSMA` sum nothing and return NaN or -0.0 without throwing; `SignalEngine.ChangePercent` models those periods, and the job reaches the average only through it.
- Bridge.FetchLatestPrice: quote fields are finite numbers. `getDouble` also accepts the texts "NaN" and "Infinity"; a NaN price passes the `price <= 0` check and would be returned (and shown as "NaN"), which the model does not cover.
- SignalEngine.Bar: closes are finite reals. A close given as "NaN" or "Infinity", which `getDouble` accepts, is not modelled, so the average and percentage of such a series are not covered.
- `Worker.Report` and `Worker.DoWork` treat a reading of the wrong type as the catch-all exception. Other runtime exceptions in the reads are not distinguished.
- The master-toggle key is read by the job but not declared in `PrefsHelper.java`. The model names it "notifEnabled".
