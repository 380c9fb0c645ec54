/**
 * SMAWorker's `doWork`: one run of the daily analysis as a pure function
 * from the settings store, the network and today's date to the run's
 * result and the ordered list of effects it performs (notifications, store
 * writes, the reschedule). Every exit path ends with exactly one
 * reschedule, which is what keeps the daily chain of runs alive.
 */
module Worker {
  import opened Base
  import opened Doubles
  import opened Prefs
  import opened SignalEngine
  import opened Network
  import opened NotificationPolicy
  import Scheduler

  const Title := "SMA Alerts"
  const MissingKeyText := "API key missing. Open the app to set it."
  const DefaultSymbol := "SPY"
  const DefaultPeriod: Int32 := 200
  const DefaultBuy := Finite(4.0)
  const DefaultSell := Finite(3.0)

  /**
   * The "Time Series (Daily)" member of the reply: absent, present but not
   * an object, or an object whose entries are `bars`; `unreadable` holds the
   * dates whose entry is not an object with a numeric "4. close".
   */
  datatype SeriesField = SeriesAbsent | SeriesNotObject | Series(bars: seq<Bar>, unreadable: set<string>)

  /** The parsed Alpha Vantage reply: "Error Message", "Note" and the daily series. */
  datatype Payload = Payload(errorMessage: Option<string>, note: Option<string>, series: SeriesField)

  datatype Outcome = Success | Retry

  /** Which exit of `doWork` a run took. */
  datatype Exit = MissingKey | FetchFailed | ApiError | NoTimeSeries | TooFewPoints | Crashed | Completed

  /** A notification text: a fixed message, or "Signal changed to %s (%.2f%% vs SMA)" of a signal and percentage. */
  datatype Message = Text(text: string) | SignalChanged(signal: Signal, pct: Double)

  datatype Effect = Notify(title: string, message: Message) | Put(key: string, value: PrefValue) | Reschedule

  datatype Run = Run(result: Outcome, exit: Exit, effects: seq<Effect>)

  /** The five settings read at the start of a run. */
  datatype Settings = Settings(apiKey: string, index: string, period: Int32, buy: Double, sell: Double)

  // ---------------------------------------------------------------------------
  // Effects

  /** The store after the run's writes, in order. */
  function Apply(st: Store, effects: seq<Effect>): Store
    decreases |effects|
  {
    if |effects| == 0 then st
    else
      var before := Apply(st, effects[..|effects| - 1]);
      match effects[|effects| - 1]
      case Put(k, v) => before[k := v]
      case _ => before
  }

  /** The effects end with the one and only reschedule. */
  predicate ReschedulesOnce(effects: seq<Effect>) {
    |effects| > 0 && effects[|effects| - 1] == Reschedule
    && forall i :: 0 <= i < |effects| - 1 ==> !effects[i].Reschedule?
  }

  predicate Writes(effects: seq<Effect>) {
    exists i :: 0 <= i < |effects| && effects[i].Put?
  }

  /** The run announced a signal change. */
  predicate AnnouncesChange(effects: seq<Effect>) {
    exists i :: 0 <= i < |effects| && effects[i].Notify? && effects[i].message.SignalChanged?
  }

  /** What every run guarantees, whatever its exit. */
  predicate WellFormed(r: Run) {
    && ReschedulesOnce(r.effects)
    && (r.result == Success <==> r.exit in {MissingKey, ApiError, Completed})
    && (Writes(r.effects) ==> r.exit == Completed)
    && (AnnouncesChange(r.effects) ==> r.exit == Completed)
    && (forall i :: 0 <= i < |r.effects| && r.effects[i].Notify? ==> r.effects[i].title == Title)
  }

  const Crash := Run(Retry, Crashed, [Reschedule])

  /** The run of a missing API key: the notice, then the reschedule. */
  const KeyMissing := Run(Success, MissingKey, [Notify(Title, Text(MissingKeyText)), Reschedule])

  lemma FixedRunsWellFormed()
    ensures WellFormed(Crash) && WellFormed(KeyMissing)
  {
    assert KeyMissing.effects[0].Notify? && !KeyMissing.effects[0].Put?;
  }

  // ---------------------------------------------------------------------------
  // Stages of a run

  /** The settings reads; None when a stored value has another type (the read throws). */
  function ReadSettings(st: Store): (r: Option<Settings>)
    ensures r.None? <==>
      GetString(st, KeyApi, "").WrongType? || GetString(st, KeyIndex, DefaultSymbol).WrongType?
      || GetInt(st, KeySma, DefaultPeriod).WrongType? || GetFloat(st, KeyBuy, DefaultBuy).WrongType?
      || GetFloat(st, KeySell, DefaultSell).WrongType?
    ensures r.Some? && KeyApi !in st ==> r.value.apiKey == ""
    ensures r.Some? && KeyIndex !in st ==> r.value.index == DefaultSymbol
    ensures r.Some? && KeySma !in st ==> r.value.period == DefaultPeriod
    ensures r.Some? && KeyBuy !in st ==> r.value.buy == DefaultBuy
    ensures r.Some? && KeySell !in st ==> r.value.sell == DefaultSell
    ensures r.Some? ==>
      && GetString(st, KeyApi, "") == Value(r.value.apiKey)
      && GetString(st, KeyIndex, DefaultSymbol) == Value(r.value.index)
      && GetInt(st, KeySma, DefaultPeriod) == Value(r.value.period)
      && GetFloat(st, KeyBuy, DefaultBuy) == Value(r.value.buy)
      && GetFloat(st, KeySell, DefaultSell) == Value(r.value.sell)
  {
    var key := GetString(st, KeyApi, "");
    var index := GetString(st, KeyIndex, DefaultSymbol);
    var period := GetInt(st, KeySma, DefaultPeriod);
    var buy := GetFloat(st, KeyBuy, DefaultBuy);
    var sell := GetFloat(st, KeySell, DefaultSell);
    if key.WrongType? || index.WrongType? || period.WrongType? || buy.WrongType? || sell.WrongType? then None
    else Some(Settings(key.v, index.v, period.v, buy.v, sell.v))
  }

  /** The queried symbol: the stored index, or SPY when it is empty. */
  function Symbol(index: string): (s: string)
    ensures s != ""
    ensures index != "" ==> s == index
    ensures index == "" ==> s == DefaultSymbol
  {
    if index == "" then DefaultSymbol else index
  }

  function DailySeriesUrl(symbol: string, apiKey: string): string {
    "https://www.alphavantage.co/query?function=TIME_SERIES_DAILY&symbol=" + symbol + "&apikey=" + apiKey + "&outputsize=full"
  }

  /** Some entry among the first `n` of the sorted series cannot be read. */
  predicate ReadsUnreadable(sorted: seq<Bar>, n: nat, unreadable: set<string>)
    requires n <= |sorted|
  {
    exists i :: 0 <= i < n && sorted[i].date in unreadable
  }

  /** The last three writes of a completed run and its reschedule. */
  function Persist(signal: Signal, pct: Double, today: string): seq<Effect> {
    [Put(KeyLastSignal, PString(Name(signal))), Put(KeyLastPercent, PFloat(pct)), Put(KeyLastDate, PString(today)), Reschedule]
  }

  /** The messages a run posts, in order. */
  function Notices(effects: seq<Effect>): seq<Message>
    decreases |effects|
  {
    if |effects| == 0 then []
    else
      var last := effects[|effects| - 1];
      Notices(effects[..|effects| - 1]) + if last.Notify? then [last.message] else []
  }

  /** The stored signal differs from `signal` and the master toggle reads as on. */
  predicate ChangeToAnnounce(st: Store, signal: Signal) {
    GetString(st, KeyLastSignal, "") != Value(Name(signal)) && GetBool(st, KeyNotifEnabled, true) == Value(true)
  }

  /**
   * Comparing with the stored signal, notifying, persisting and
   * rescheduling. A completed stage posts the one change notice, built from
   * the new signal and its percentage, exactly when the stored signal
   * differs and the master toggle is on, and then persists.
   */
  function Report(st: Store, signal: Signal, pct: Double, today: string): (r: Run)
    ensures WellFormed(r)
    ensures r.exit == Completed || r == Crash
    ensures r.exit == Completed ==>
      r.effects == (if ChangeToAnnounce(st, signal) then [Notify(Title, SignalChanged(signal, pct))] else [])
                   + Persist(signal, pct, today)
  {
    match GetString(st, KeyLastSignal, "")
    case WrongType => Crash
    case Value(last) =>
      if GetString(st, KeyLastDate, "").WrongType? then Crash
      else if Name(signal) == last then Run(Success, Completed, Persist(signal, pct, today))
      else
        match GetBool(st, KeyNotifEnabled, true)
        case WrongType => Crash
        case Value(master) =>
          if JobNotifies(signal, last, master) then
            Run(Success, Completed, [Notify(Title, SignalChanged(signal, pct))] + Persist(signal, pct, today))
          else Run(Success, Completed, Persist(signal, pct, today))
  }

  /** What the reply decides before the store is consulted again: an early exit, or a signal and its percentage. */
  datatype Verdict = Stop(run: Run) | Signalled(signal: Signal, pct: Double)

  /** An early exit of the analysis: well formed, not completed. */
  predicate EarlyExit(v: Verdict) {
    v.Stop? ==> WellFormed(v.run) && v.run.exit != Completed && v.run.exit != MissingKey
  }

  /**
   * From the sorted series to the signal: too few points, an unreadable
   * entry among those read (the current close and the averaged closes), or
   * the percentage and its signal.
   */
  function Evaluate(cfg: Settings, sorted: seq<Bar>, unreadable: set<string>): (v: Verdict)
    ensures EarlyExit(v)
    ensures |sorted| < cfg.period as int ==> v == Stop(Run(Retry, TooFewPoints, [Reschedule]))
    ensures v.Signalled? <==>
      && cfg.period as int <= |sorted| && 0 < |sorted|
      && forall i :: 0 <= i < |sorted| && (i == 0 || i < cfg.period as int) ==> sorted[i].date !in unreadable
    ensures cfg.period as int <= |sorted| && v.Stop? ==> v == Stop(Crash)
    ensures v.Signalled? ==>
      && 0 < |sorted| && cfg.period as int <= |sorted|
      && v.pct == ChangePercent(sorted[0].close, sorted, cfg.period as int)
      && v.signal == DetermineSignal(v.pct, cfg.buy, cfg.sell)
  {
    var period := cfg.period as int;
    if |sorted| < period then Stop(Run(Retry, TooFewPoints, [Reschedule]))
    else if |sorted| == 0 then Stop(Crash)
    else if ReadsUnreadable(sorted, if period > 1 then period else 1, unreadable) then Stop(Crash)
    else
      var pct := ChangePercent(sorted[0].close, sorted, period);
      Signalled(DetermineSignal(pct, cfg.buy, cfg.sell), pct)
  }

  /** The reply checks: fetch failure, API error, missing or malformed series. The "Note" member is only logged. */
  function Analyse(cfg: Settings, json: Option<Payload>): (v: Verdict)
    ensures EarlyExit(v)
    ensures json.None? ==> v == Stop(Run(Retry, FetchFailed, [Reschedule]))
    ensures json.Some? && json.value.errorMessage.Some? ==>
      v == Stop(Run(Success, ApiError, [Notify(Title, Text("API Error: " + json.value.errorMessage.value)), Reschedule]))
    ensures v.Signalled? ==> json.Some? && json.value.errorMessage.None? && json.value.series.Series?
    ensures json.Some? && json.value.errorMessage.None? ==>
      var series := json.value.series;
      && (series.SeriesAbsent? ==> v == Stop(Run(Retry, NoTimeSeries, [Reschedule])))
      && (series.SeriesNotObject? ==> v == Stop(Crash))
      && (series.Series? ==> v == Evaluate(cfg, SortNewestFirst(series.bars), series.unreadable))
  {
    match json
    case None => Stop(Run(Retry, FetchFailed, [Reschedule]))
    case Some(p) =>
      if p.errorMessage.Some? then
        Stop(Run(Success, ApiError, [Notify(Title, Text("API Error: " + p.errorMessage.value)), Reschedule]))
      else
        match p.series
        case SeriesAbsent => Stop(Run(Retry, NoTimeSeries, [Reschedule]))
        case SeriesNotObject => Stop(Crash)
        case Series(bars, unreadable) => Evaluate(cfg, SortNewestFirst(bars), unreadable)
  }

  /**
   * The network as the run sees it: the outcomes of the attempts to fetch
   * the daily series of a symbol with an API key, that is, of the URL
   * `DailySeriesUrl(symbol, apiKey)`.
   */
  type Net = (string, string) -> seq<Attempt<Payload>>

  /** The reply the run acts on: the retry loop over the daily-series request (see FetchedIsFetchWithRetry). */
  function Fetched(cfg: Settings, net: Net): Option<Payload> {
    RetryFrom(net(Symbol(cfg.index), cfg.apiKey), 1).result
  }

  /** The daily-series URL is never blank. */
  lemma DailySeriesUrlNotBlank(symbol: string, apiKey: string)
    ensures !IsBlank(DailySeriesUrl(symbol, apiKey))
  {
    var url := DailySeriesUrl(symbol, apiKey);
    var tail := "&outputsize=full";
    assert tail[|tail| - 1] == 'l';
    assert url[|url| - 1] == 'l';
    BlankIffAllTrimmed(url);
  }

  /** What the run acts on is `fetchWithRetry` of the daily-series URL. */
  lemma FetchedIsFetchWithRetry(cfg: Settings, net: Net)
    ensures var symbol := Symbol(cfg.index);
      Fetched(cfg, net) == FetchWithRetry(Some(DailySeriesUrl(symbol, cfg.apiKey)), net(symbol, cfg.apiKey)).result
  {
    DailySeriesUrlNotBlank(Symbol(cfg.index), cfg.apiKey);
  }

  /**
   * `doWork`. A wrongly typed setting is the catch-all exception (retry);
   * an empty API key notifies and succeeds without fetching; otherwise the
   * reply is analysed and a signal is compared, announced and stored.
   * Every exit reschedules exactly once, last.
   */
  function DoWork(st: Store, net: Net, today: string): (r: Run)
    ensures WellFormed(r)
    ensures ReadSettings(st).None? ==> r == Crash
    ensures r.exit == MissingKey <==> ReadSettings(st).Some? && ReadSettings(st).value.apiKey == ""
    ensures r.exit == MissingKey ==> r == KeyMissing
    ensures ReadSettings(st).Some? && ReadSettings(st).value.apiKey != "" ==>
      var cfg := ReadSettings(st).value;
      var json := Fetched(cfg, net);
      && (json.None? ==> r == Run(Retry, FetchFailed, [Reschedule]))
      && (json.Some? && json.value.errorMessage.Some? ==>
            r == Run(Success, ApiError, [Notify(Title, Text("API Error: " + json.value.errorMessage.value)), Reschedule]))
      && (json.Some? && json.value.errorMessage.None? && json.value.series.SeriesAbsent? ==>
            r == Run(Retry, NoTimeSeries, [Reschedule]))
      && (json.Some? && json.value.errorMessage.None? && json.value.series.Series?
            && |json.value.series.bars| < cfg.period as int ==>
            r == Run(Retry, TooFewPoints, [Reschedule]))
      && (Analyse(cfg, json).Stop? ==> r == Analyse(cfg, json).run)
      && (Analyse(cfg, json).Signalled? ==> r == Report(st, Analyse(cfg, json).signal, Analyse(cfg, json).pct, today))
  {
    FixedRunsWellFormed();
    match ReadSettings(st)
    case None => Crash
    case Some(cfg) =>
      if cfg.apiKey == "" then KeyMissing
      else Proceed(st, cfg, Fetched(cfg, net), today)
  }

  /** The run once the reply is in: an early exit, or the comparison stage with the decided signal. */
  function Proceed(st: Store, cfg: Settings, json: Option<Payload>, today: string): (r: Run)
    ensures WellFormed(r) && r.exit != MissingKey
    ensures r.exit == Completed ==> Analyse(cfg, json).Signalled?
    ensures Analyse(cfg, json).Stop? ==> r == Analyse(cfg, json).run
    ensures Analyse(cfg, json).Signalled? ==> r == Report(st, Analyse(cfg, json).signal, Analyse(cfg, json).pct, today)
  {
    match Analyse(cfg, json)
    case Stop(r) => r
    case Signalled(signal, pct) => Report(st, signal, pct, today)
  }

  // ---------------------------------------------------------------------------
  // What a run leaves behind

  /** The keys a completed run writes. */
  const LastKeys: set<string> := {KeyLastSignal, KeyLastPercent, KeyLastDate}

  /** `a` and `b` agree on every key outside `keys`. */
  ghost predicate SameOutside(a: Store, b: Store, keys: set<string>) {
    forall k :: k !in keys ==> (k in a <==> k in b) && (k in a ==> a[k] == b[k])
  }

  lemma ApplySnoc(st: Store, e: seq<Effect>, x: Effect)
    ensures Apply(st, e + [x]) == if x.Put? then Apply(st, e)[x.key := x.value] else Apply(st, e)
  {
    assert (e + [x])[..|e|] == e;
  }

  /** Effects without writes leave the store alone. */
  lemma {:induction false} ApplyWithoutWrites(st: Store, e: seq<Effect>)
    requires !Writes(e)
    ensures Apply(st, e) == st
    decreases |e|
  {
    if |e| > 0 {
      var init := e[..|e| - 1];
      forall i | 0 <= i < |init|
        ensures !init[i].Put?
      {
        assert init[i] == e[i];
      }
      ApplyWithoutWrites(st, init);
    }
  }

  /** The store after a write-free prefix followed by the persisted results. */
  lemma ApplyPersist(st: Store, prefix: seq<Effect>, signal: Signal, pct: Double, today: string)
    requires !Writes(prefix)
    ensures Apply(st, prefix + Persist(signal, pct, today))
      == st[KeyLastSignal := PString(Name(signal))][KeyLastPercent := PFloat(pct)][KeyLastDate := PString(today)]
  {
    var p1 := Put(KeyLastSignal, PString(Name(signal)));
    var p2 := Put(KeyLastPercent, PFloat(pct));
    var p3 := Put(KeyLastDate, PString(today));
    assert prefix + Persist(signal, pct, today) == prefix + [p1] + [p2] + [p3] + [Reschedule];
    ApplyWithoutWrites(st, prefix);
    ApplySnoc(st, prefix, p1);
    ApplySnoc(st, prefix + [p1], p2);
    ApplySnoc(st, prefix + [p1] + [p2], p3);
    ApplySnoc(st, prefix + [p1] + [p2] + [p3], Reschedule);
  }

  /** Typed reads of a key outside `keys` agree on stores that agree outside `keys`. */
  lemma ReadsOutside(a: Store, b: Store, keys: set<string>, k: string)
    requires SameOutside(a, b, keys) && k !in keys
    ensures forall d :: GetString(a, k, d) == GetString(b, k, d)
    ensures forall d :: GetInt(a, k, d) == GetInt(b, k, d)
    ensures forall d :: GetFloat(a, k, d) == GetFloat(b, k, d)
    ensures forall d :: GetBool(a, k, d) == GetBool(b, k, d)
  {
  }

  /**
   * The comparison stage completes exactly when the stored last signal and
   * date can be read, and the master toggle too when the signal changed.
   */
  lemma ReportCompletes(st: Store, signal: Signal, pct: Double, today: string)
    ensures Report(st, signal, pct, today).exit == Completed <==>
      && GetString(st, KeyLastSignal, "").Value?
      && GetString(st, KeyLastDate, "").Value?
      && (GetString(st, KeyLastSignal, "") != Value(Name(signal)) ==> GetBool(st, KeyNotifEnabled, true).Value?)
  {
  }

  /**
   * A completed comparison stage stores the signal, the percentage and
   * today's date and nothing else; any other outcome writes nothing.
   */
  lemma ReportWrites(st: Store, signal: Signal, pct: Double, today: string)
    ensures var r := Report(st, signal, pct, today);
      var after := Apply(st, r.effects);
      && (r.exit != Completed ==> after == st)
      && (r.exit == Completed ==>
            && GetString(after, KeyLastSignal, "") == Value(Name(signal))
            && GetFloat(after, KeyLastPercent, NaN) == Value(pct)
            && GetString(after, KeyLastDate, "") == Value(today)
            && SameOutside(after, st, LastKeys))
  {
    var r := Report(st, signal, pct, today);
    var tail := Persist(signal, pct, today);
    if r.exit != Completed {
      ApplyWithoutWrites(st, r.effects);
    } else if r.effects == tail {
      ApplyPersist(st, [], signal, pct, today);
      assert [] + tail == tail;
    } else {
      var note := Notify(Title, SignalChanged(signal, pct));
      assert r.effects == [note] + tail;
      ApplyPersist(st, [note], signal, pct, today);
    }
  }

  /** A completed comparison stage announces a change exactly when the stored signal differs and the master toggle is on. */
  lemma ReportAnnounces(st: Store, signal: Signal, pct: Double, today: string)
    ensures var r := Report(st, signal, pct, today);
      r.exit == Completed ==>
        (AnnouncesChange(r.effects) <==>
          GetString(st, KeyLastSignal, "") != Value(Name(signal)) && GetBool(st, KeyNotifEnabled, true) == Value(true))
    ensures var r := Report(st, signal, pct, today);
      r.exit == Completed ==>
        Notices(r.effects) == if ChangeToAnnounce(st, signal) then [SignalChanged(signal, pct)] else []
  {
    var r := Report(st, signal, pct, today);
    var tail := Persist(signal, pct, today);
    if r.exit == Completed {
      NoticesOfPersist(signal, pct, today);
      if r.effects == tail {
        forall i | 0 <= i < |tail|
          ensures !tail[i].Notify?
        {
        }
      } else {
        var note := Notify(Title, SignalChanged(signal, pct));
        assert r.effects[0] == note;
        NoticesAppend([note], tail);
        assert Notices([note]) == Notices([]) + [note.message];
      }
    }
  }

  lemma {:induction false} NoticesAppend(a: seq<Effect>, b: seq<Effect>)
    ensures Notices(a + b) == Notices(a) + Notices(b)
    decreases |b|
  {
    if |b| == 0 {
      assert a + b == a;
    } else {
      var init := b[..|b| - 1];
      assert (a + b)[..|a + b| - 1] == a + init;
      NoticesAppend(a, init);
    }
  }

  lemma NoticesOfPersist(signal: Signal, pct: Double, today: string)
    ensures Notices(Persist(signal, pct, today)) == []
  {
    var e := Persist(signal, pct, today);
    assert Notices(e[..1]) == Notices([]);
    assert e[..2][..1] == e[..1];
    assert Notices(e[..2]) == [];
    assert e[..3][..2] == e[..2];
    assert Notices(e[..3]) == [];
    assert e[..4][..3] == e[..3] && e[..4] == e;
  }

  /** A completed run got past the settings reads and the API key check. */
  lemma CompletedRunProceeds(st: Store, net: Net, today: string)
    requires DoWork(st, net, today).exit == Completed
    ensures ReadSettings(st).Some?
    ensures DoWork(st, net, today) == Proceed(st, ReadSettings(st).value, Fetched(ReadSettings(st).value, net), today)
  {
  }

  /** A completed run went through the comparison stage with the signal and percentage its reply decided. */
  lemma CompletedRun(st: Store, net: Net, today: string) returns (signal: Signal, pct: Double)
    requires DoWork(st, net, today).exit == Completed
    ensures ReadSettings(st).Some?
    ensures Analyse(ReadSettings(st).value, Fetched(ReadSettings(st).value, net)) == Signalled(signal, pct)
    ensures DoWork(st, net, today) == Report(st, signal, pct, today)
  {
    CompletedRunProceeds(st, net, today);
    var cfg := ReadSettings(st).value;
    var v := Analyse(cfg, Fetched(cfg, net));
    signal, pct := v.signal, v.pct;
  }

  /**
   * A completed run stored, as the last signal, the name of the signal that
   * `determineSignal` gives for the percentage of the newest close against
   * the moving average of the reply's series.
   */
  lemma CompletedRunStoresDecidedSignal(st: Store, net: Net, today: string)
    requires DoWork(st, net, today).exit == Completed
    ensures ReadSettings(st).Some?
    ensures var cfg := ReadSettings(st).value;
      var json := Fetched(cfg, net);
      && json.Some? && json.value.errorMessage.None? && json.value.series.Series?
      && var sorted := SortNewestFirst(json.value.series.bars);
      && 0 < |sorted| && cfg.period as int <= |sorted|
      && var pct := ChangePercent(sorted[0].close, sorted, cfg.period as int);
      && GetString(Apply(st, DoWork(st, net, today).effects), KeyLastSignal, "")
           == Value(Name(DetermineSignal(pct, cfg.buy, cfg.sell)))
      && GetFloat(Apply(st, DoWork(st, net, today).effects), KeyLastPercent, NaN) == Value(pct)
  {
    var signal, pct := CompletedRun(st, net, today);
    ReportWrites(st, signal, pct, today);
  }

  /**
   * The path that `doWork` ends with `Result.success()` after storing: with
   * readable settings, an API key, a reply whose series has at least
   * `period` entries none of which is unreadable, and readable stored last
   * signal, date and master toggle, the run completes, through the
   * comparison stage, with the signal of the newest close.
   */
  lemma ReadableRunCompletes(st: Store, net: Net, today: string)
    requires ReadSettings(st).Some? && ReadSettings(st).value.apiKey != ""
    requires var cfg := ReadSettings(st).value;
      var json := Fetched(cfg, net);
      && json.Some? && json.value.errorMessage.None? && json.value.series.Series?
      && 0 < |json.value.series.bars| && cfg.period as int <= |json.value.series.bars|
      && forall i :: 0 <= i < |json.value.series.bars| ==> json.value.series.bars[i].date !in json.value.series.unreadable
    requires GetString(st, KeyLastSignal, "").Value? && GetString(st, KeyLastDate, "").Value?
    requires GetBool(st, KeyNotifEnabled, true).Value?
    ensures DoWork(st, net, today).exit == Completed
    ensures var cfg := ReadSettings(st).value;
      var sorted := SortNewestFirst(Fetched(cfg, net).value.series.bars);
      && 0 < |sorted|
      && var pct := ChangePercent(sorted[0].close, sorted, cfg.period as int);
      && DoWork(st, net, today) == Report(st, DetermineSignal(pct, cfg.buy, cfg.sell), pct, today)
  {
    var cfg := ReadSettings(st).value;
    var series := Fetched(cfg, net).value.series;
    var sorted := SortNewestFirst(series.bars);
    forall i | 0 <= i < |sorted|
      ensures sorted[i].date !in series.unreadable
    {
      assert sorted[i] in multiset(series.bars);
      var j :| 0 <= j < |series.bars| && series.bars[j] == sorted[i];
    }
    var v := Evaluate(cfg, sorted, series.unreadable);
    assert v.Signalled?;
    ReportCompletes(st, v.signal, v.pct, today);
  }

  /**
   * Over a whole run: a run that does not complete writes nothing; a
   * completed run writes only the last-signal keys, stores today's date,
   * and announces a change exactly when the stored signal changes and the
   * master toggle is on.
   */
  lemma RunFacts(st: Store, net: Net, today: string)
    ensures var r := DoWork(st, net, today);
      var after := Apply(st, r.effects);
      && (r.exit != Completed ==> after == st)
      && (r.exit == Completed ==>
            && GetString(after, KeyLastDate, "") == Value(today)
            && SameOutside(after, st, LastKeys)
            && (AnnouncesChange(r.effects) <==>
                  GetString(st, KeyLastSignal, "") != GetString(after, KeyLastSignal, "")
                  && GetBool(st, KeyNotifEnabled, true) == Value(true)))
  {
    var r := DoWork(st, net, today);
    if r.exit != Completed {
      ApplyWithoutWrites(st, r.effects);
    } else {
      var signal, pct := CompletedRun(st, net, today);
      ReportWrites(st, signal, pct, today);
      ReportAnnounces(st, signal, pct, today);
    }
  }

  /**
   * Running the job again on the same data after a completed run completes
   * too, announces nothing and stores the same signal: a change is
   * announced once.
   */
  lemma SecondRunIsQuiet(st: Store, net: Net, today: string, later: string)
    requires DoWork(st, net, today).exit == Completed
    ensures var st2 := Apply(st, DoWork(st, net, today).effects);
      var r2 := DoWork(st2, net, later);
      && r2.exit == Completed
      && !AnnouncesChange(r2.effects)
      && GetString(Apply(st2, r2.effects), KeyLastSignal, "") == GetString(st2, KeyLastSignal, "")
  {
    var signal, pct := CompletedRun(st, net, today);
    ReportWrites(st, signal, pct, today);
    var st2 := Apply(st, DoWork(st, net, today).effects);
    SettingsOutsideLastKeys(st2, st);
    assert DoWork(st2, net, later) == Report(st2, signal, pct, later);
    ReportCompletes(st2, signal, pct, later);
    ReportWrites(st2, signal, pct, later);
    ReportAnnounces(st2, signal, pct, later);
  }

  /** The settings a run reads are untouched by what a run writes. */
  lemma SettingsOutsideLastKeys(a: Store, b: Store)
    requires SameOutside(a, b, LastKeys)
    ensures ReadSettings(a) == ReadSettings(b)
  {
    ReadsOutside(a, b, LastKeys, KeyApi);
    ReadsOutside(a, b, LastKeys, KeyIndex);
    ReadsOutside(a, b, LastKeys, KeySma);
    ReadsOutside(a, b, LastKeys, KeyBuy);
    ReadsOutside(a, b, LastKeys, KeySell);
  }

  // ---------------------------------------------------------------------------
  // The reschedule keeps the chain alive

  /** The pending work after the run's effects: each reschedule runs `scheduleDailyAnalysis` against the store as written so far. */
  function Settle(p: Scheduler.Pending, st: Store, effects: seq<Effect>, local: Scheduler.Clock, ny: Option<Scheduler.Clock>, wm: Scheduler.WorkManager): Scheduler.Pending
    requires Scheduler.ValidClock(local) && (ny.Some? ==> Scheduler.ValidClock(ny.value))
    decreases |effects|
  {
    if |effects| == 0 then p
    else
      var init := effects[..|effects| - 1];
      var before := Settle(p, st, init, local, ny, wm);
      if effects[|effects| - 1].Reschedule? then Scheduler.ScheduleDailyAnalysis(before, Apply(st, init), local, ny, wm)
      else before
  }

  /**
   * Whatever the run's exit, afterwards the daily entry is pending with a
   * delay between one minute and seven days when WorkManager works, and
   * either it or the one-hour fallback is pending when only the fallback
   * call works.
   */
  lemma ChainStaysAlive(st: Store, net: Net, today: string,
                        p: Scheduler.Pending, local: Scheduler.Clock, ny: Option<Scheduler.Clock>, wm: Scheduler.WorkManager)
    requires Scheduler.ValidClock(local) && (ny.Some? ==> Scheduler.ValidClock(ny.value))
    ensures var q := Settle(p, st, DoWork(st, net, today).effects, local, ny, wm);
      && (wm.cancelWorks && wm.enqueueWorks ==>
            Scheduler.PrimaryWork in q && Scheduler.MinDelayMs <= q[Scheduler.PrimaryWork] <= Scheduler.MaxDelayMs)
      && (wm.fallbackWorks ==> Scheduler.PrimaryWork in q || Scheduler.FallbackWork in q)
  {
    SettleLast(p, st, DoWork(st, net, today).effects, local, ny, wm);
  }

  /** Effects that end with a reschedule leave the pending work as that reschedule sets it. */
  lemma SettleLast(p: Scheduler.Pending, st: Store, e: seq<Effect>, local: Scheduler.Clock, ny: Option<Scheduler.Clock>, wm: Scheduler.WorkManager)
    requires Scheduler.ValidClock(local) && (ny.Some? ==> Scheduler.ValidClock(ny.value))
    requires ReschedulesOnce(e)
    ensures Settle(p, st, e, local, ny, wm)
      == Scheduler.ScheduleDailyAnalysis(Settle(p, st, e[..|e| - 1], local, ny, wm), Apply(st, e[..|e| - 1]), local, ny, wm)
  {
  }

  /** The "Note" member of the reply changes nothing. */
  lemma NoteIsIgnored(cfg: Settings, p: Payload, note: Option<string>)
    ensures Analyse(cfg, Some(p.(note := note))) == Analyse(cfg, Some(p))
  {
  }
}
