/**
 * WorkScheduler: the delay until the next analysis run, the clamp applied
 * to it, and the pending unique work entries (primary run, one-hour
 * fallback) kept by WorkManager. Time is a millisecond-of-day and an ISO
 * day of week; days are 24 hours long. Pending work maps each unique work
 * name to its initial delay.
 */
module Scheduler {
  import opened Base
  import opened Prefs

  const MinuteMs: int := 60_000
  const HourMs: int := 3_600_000
  const DayMs: int := 86_400_000
  const MinDelayMs: int := 60_000
  const MaxDelayMs: int := 7 * 24 * 60 * 60 * 1000
  const FallbackDelayMs: int := HourMs

  const PrimaryWork: string := "SMA_DAILY_ANALYSIS"
  const FallbackWork: string := PrimaryWork + "_fallback"

  /** The configured run time when none is stored, and the fixed time of the New York variant. */
  const DefaultHour: Int32 := 15
  const DefaultMinute: Int32 := 30

  /** A wall-clock reading: milliseconds since midnight and ISO day of week (1 = Monday, 7 = Sunday). */
  datatype Clock = Clock(millisOfDay: int, dayOfWeek: int)

  predicate ValidClock(c: Clock) {
    0 <= c.millisOfDay < DayMs && 1 <= c.dayOfWeek <= 7
  }

  /** Pending unique work: name to initial delay in milliseconds. */
  type Pending = map<string, int>

  /** Which WorkManager calls succeed; a failing call throws inside `scheduleDailyAnalysis`. */
  datatype WorkManager = WorkManager(cancelWorks: bool, enqueueWorks: bool, fallbackWorks: bool)

  const Healthy := WorkManager(true, true, true)

  // ---------------------------------------------------------------------------
  // Delay computation

  /** The day of week `days` days after `dow`. */
  function DayAfter(dow: int, days: nat): (r: int)
    requires 1 <= dow <= 7
    ensures 1 <= r <= 7
  {
    (dow - 1 + days) % 7 + 1
  }

  predicate IsWeekend(dow: int) {
    dow >= 6
  }

  lemma NextDay(dow: int, days: nat)
    requires 1 <= dow <= 7
    ensures DayAfter(dow, days + 1) == if DayAfter(dow, days) == 7 then 1 else DayAfter(dow, days) + 1
  {
  }

  /**
   * The candidate today at `target` ms of day, moved to tomorrow when `now`
   * is at or past it, as a delay from `now`: it is positive, at most one day,
   * and lands on `target`.
   */
  function DelayUntil(now: int, target: int): (r: int)
    requires 0 <= now < DayMs && 0 <= target < DayMs
    ensures 0 < r <= DayMs
    ensures (now + r) % DayMs == target
    ensures r == DayMs <==> now == target
  {
    var candidate := if now >= target then target + DayMs else target;
    var millis := candidate - now;
    if millis < 0 then 0 else millis
  }

  /** No earlier moment after `now` is at the target time of day. */
  lemma DelayUntilIsEarliest(now: int, target: int, d: int)
    requires 0 <= now < DayMs && 0 <= target < DayMs
    requires 0 < d < DelayUntil(now, target)
    ensures (now + d) % DayMs != target
  {
    if now + d >= DayMs {
      assert (now + d) % DayMs == now + d - DayMs;
    } else {
      assert (now + d) % DayMs == now + d;
    }
  }

  /**
   * The first day at or after `start` days from `dow` that is not a
   * Saturday or Sunday, in closed form.
   */
  function SkipWeekend(dow: int, start: nat): (d: nat)
    requires 1 <= dow <= 7
    ensures start <= d <= start + 2
    ensures !IsWeekend(DayAfter(dow, d))
    ensures forall e :: start <= e < d ==> IsWeekend(DayAfter(dow, e))
  {
    var w0, w1, w2 := DayAfter(dow, start), DayAfter(dow, start + 1), DayAfter(dow, start + 2);
    NextDay(dow, start);
    NextDay(dow, start + 1);
    if w0 == 6 then
      assert w1 == 7 && w2 == 1;
      assert forall e :: start <= e < start + 2 ==> IsWeekend(DayAfter(dow, e)) by {
        forall e | start <= e < start + 2
          ensures IsWeekend(DayAfter(dow, e))
        {
          if e != start {
            assert e == start + 1;
          }
        }
      }
      start + 2
    else if w0 == 7 then
      assert w1 == 1;
      start + 1
    else
      start
  }

  /** The `while (candidate.getDayOfWeek().getValue() >= 6)` loop of the New York variant. */
  method SkipWeekendLoop(dow: int, start: nat) returns (d: nat)
    requires 1 <= dow <= 7
    ensures d == SkipWeekend(dow, start)
  {
    d := start;
    while IsWeekend(DayAfter(dow, d))
      invariant start <= d <= start + 2
      invariant forall e :: start <= e < d ==> IsWeekend(DayAfter(dow, e))
      invariant d == start + 1 ==> DayAfter(dow, start) == 6 || DayAfter(dow, d) != 6
      invariant d == start + 2 ==> DayAfter(dow, start) == 6
      decreases start + 2 - d
    {
      NextDay(dow, d);
      d := d + 1;
    }
    NextDay(dow, start);
  }

  /**
   * `calculateDelayUntilNextRun()`: 15:30 New York time, moved to tomorrow
   * when now is at or past it, then past any weekend day. `ny` is None when
   * reading the New York clock throws, which falls back to 24 hours.
   */
  function LegacyDelay(ny: Option<Clock>): (r: int)
    requires ny.Some? ==> ValidClock(ny.value)
    ensures 0 < r <= 3 * DayMs
    ensures ny.None? ==> r == DayMs
    ensures ny.Some? ==>
      var now := ny.value;
      && (now.millisOfDay + r) % DayMs == DefaultHour as int * HourMs + DefaultMinute as int * MinuteMs
      && !IsWeekend(DayAfter(now.dayOfWeek, (now.millisOfDay + r) / DayMs))
  {
    match ny
    case None => DayMs
    case Some(now) =>
      var target := DefaultHour as int * HourMs + DefaultMinute as int * MinuteMs;
      var start := if now.millisOfDay >= target then 1 else 0;
      var days := SkipWeekend(now.dayOfWeek, start);
      var millis := days * DayMs + target - now.millisOfDay;
      assert (now.millisOfDay + millis) / DayMs == days;
      if millis < 0 then 0 else millis
  }

  /**
   * The legacy delay reaches the NEXT weekday 15:30 in New York: every
   * earlier moment at 15:30 falls on a Saturday or a Sunday.
   */
  lemma LegacyDelayIsNext(now: Clock, d: int)
    requires ValidClock(now)
    requires 0 < d < LegacyDelay(Some(now))
    requires (now.millisOfDay + d) % DayMs == DefaultHour as int * HourMs + DefaultMinute as int * MinuteMs
    ensures IsWeekend(DayAfter(now.dayOfWeek, (now.millisOfDay + d) / DayMs))
  {
    var target := DefaultHour as int * HourMs + DefaultMinute as int * MinuteMs;
    var m := now.millisOfDay;
    var start := if m >= target then 1 else 0;
    var days := SkipWeekend(now.dayOfWeek, start);
    LegacyDelayValue(now);
    DayIndexBetween(m, d, target, start, days);
  }

  /** The legacy delay before clamping at zero, which never bites. */
  lemma LegacyDelayValue(now: Clock)
    requires ValidClock(now)
    ensures var target := DefaultHour as int * HourMs + DefaultMinute as int * MinuteMs;
      var start := if now.millisOfDay >= target then 1 else 0;
      LegacyDelay(Some(now)) == SkipWeekend(now.dayOfWeek, start) * DayMs + target - now.millisOfDay
  {
  }

  /**
   * A moment `d` ms after time of day `m` that is at time of day `target`
   * and earlier than `target` on day `days` lies on a day from `start` on
   * (the first day whose `target` is still ahead) and before day `days`.
   */
  lemma DayIndexBetween(m: int, d: int, target: int, start: int, days: int)
    requires 0 <= m < DayMs && 0 <= target < DayMs
    requires start == if m >= target then 1 else 0
    requires 0 < d < days * DayMs + target - m
    requires (m + d) % DayMs == target
    ensures start <= (m + d) / DayMs < days
  {
    var e := (m + d) / DayMs;
    assert m + d == e * DayMs + target;
    ScaledLess(e, days, DayMs);
    if m >= target {
      ScaledLess(0, e, DayMs);
    }
  }

  /** Comparing multiples of a positive unit compares the multipliers. */
  lemma ScaledLess(a: int, b: int, unit: int)
    requires 0 < unit && a * unit < b * unit
    ensures a < b
  {
  }

  /**
   * `calculateDelayUntilNextRun(ctx)`: the stored hour and minute (15:30 when
   * unset) on the local clock. A stored value of the wrong type, or an hour
   * or minute that `LocalTime.of` rejects, falls back to the New York variant.
   */
  function DelayFromSettings(st: Store, local: Clock, ny: Option<Clock>): (r: int)
    requires ValidClock(local)
    requires ny.Some? ==> ValidClock(ny.value)
    ensures 0 < r <= 3 * DayMs
    ensures ValidRunTime(st) ==> r == DelayUntil(local.millisOfDay, StoredRunTime(st))
    ensures !ValidRunTime(st) ==> r == LegacyDelay(ny)
  {
    if ValidRunTime(st) then DelayUntil(local.millisOfDay, StoredRunTime(st)) else LegacyDelay(ny)
  }

  /** Both stored fields read as ints and form a valid `LocalTime`. */
  predicate ValidRunTime(st: Store) {
    var h := GetInt(st, KeyNotifHour, DefaultHour);
    var m := GetInt(st, KeyNotifMinute, DefaultMinute);
    && h.Value? && m.Value?
    && 0 <= h.v <= 23 && 0 <= m.v <= 59
  }

  /** The stored run time as milliseconds of day. */
  function StoredRunTime(st: Store): (t: int)
    requires ValidRunTime(st)
    ensures 0 <= t < DayMs
    ensures t / HourMs == (if KeyNotifHour in st then st[KeyNotifHour].i else DefaultHour) as int
    ensures t % HourMs / MinuteMs == (if KeyNotifMinute in st then st[KeyNotifMinute].i else DefaultMinute) as int
    ensures t % MinuteMs == 0
  {
    GetInt(st, KeyNotifHour, DefaultHour).v as int * HourMs + GetInt(st, KeyNotifMinute, DefaultMinute).v as int * MinuteMs
  }

  /** With nothing stored, the run time is 15:30 on the local clock. */
  lemma UnsetTimeDefaultsTo1530(st: Store, local: Clock, ny: Option<Clock>)
    requires ValidClock(local) && (ny.Some? ==> ValidClock(ny.value))
    requires KeyNotifHour !in st && KeyNotifMinute !in st
    ensures DelayFromSettings(st, local, ny) == DelayUntil(local.millisOfDay, 15 * HourMs + 30 * MinuteMs)
  {
  }

  /** A valid stored hour and minute are the run time on the local clock. */
  lemma StoredTimeIsUsed(st: Store, local: Clock, ny: Option<Clock>, h: Int32, m: Int32)
    requires ValidClock(local) && (ny.Some? ==> ValidClock(ny.value))
    requires KeyNotifHour in st && st[KeyNotifHour] == PInt(h) && 0 <= h <= 23
    requires KeyNotifMinute in st && st[KeyNotifMinute] == PInt(m) && 0 <= m <= 59
    ensures DelayFromSettings(st, local, ny) == DelayUntil(local.millisOfDay, h as int * HourMs + m as int * MinuteMs)
  {
  }

  /** Out-of-range hour: `LocalTime.of` throws and the New York variant decides. */
  lemma InvalidHourFallsBack(st: Store, local: Clock, ny: Option<Clock>)
    requires ValidClock(local) && (ny.Some? ==> ValidClock(ny.value))
    requires KeyNotifHour in st && st[KeyNotifHour].PInt? && st[KeyNotifHour].i > 23
    ensures DelayFromSettings(st, local, ny) == LegacyDelay(ny)
  {
  }

  /** The clamp of `scheduleDailyAnalysis`: into [1 minute, 7 days], leaving in-range delays alone. */
  function ClampDelay(d: int): (r: int)
    ensures MinDelayMs <= r <= MaxDelayMs
    ensures MinDelayMs <= d <= MaxDelayMs ==> r == d
    ensures d < MinDelayMs ==> r == MinDelayMs
    ensures d > MaxDelayMs ==> r == MaxDelayMs
  {
    if d < MinDelayMs then MinDelayMs else if d > MaxDelayMs then MaxDelayMs else d
  }

  lemma ClampIdempotentAndMonotone(a: int, b: int)
    ensures ClampDelay(ClampDelay(a)) == ClampDelay(a)
    ensures a <= b ==> ClampDelay(a) <= ClampDelay(b)
  {
  }

  // ---------------------------------------------------------------------------
  // Pending work

  /** `scheduleFallbackAnalysis`: the fallback entry with a one-hour delay, replacing any earlier one; a failing call is swallowed. */
  function ArmFallback(p: Pending, wm: WorkManager): (r: Pending)
    ensures wm.fallbackWorks ==> FallbackWork in r && r[FallbackWork] == FallbackDelayMs
    ensures !wm.fallbackWorks ==> r == p
    ensures forall k :: k != FallbackWork ==> (k in r <==> k in p) && (k in r ==> r[k] == p[k])
  {
    if wm.fallbackWorks then p[FallbackWork := FallbackDelayMs] else p
  }

  /**
   * `scheduleDailyAnalysis`: cancel the primary entry, compute and clamp the
   * delay, enqueue the primary entry with REPLACE. Any WorkManager failure
   * arms the one-hour fallback entry instead, if that call works.
   */
  function ScheduleDailyAnalysis(p: Pending, st: Store, local: Clock, ny: Option<Clock>, wm: WorkManager): (r: Pending)
    requires ValidClock(local) && (ny.Some? ==> ValidClock(ny.value))
    ensures wm.cancelWorks && wm.enqueueWorks ==>
      && PrimaryWork in r
      && MinDelayMs <= r[PrimaryWork] <= MaxDelayMs
      && r[PrimaryWork] == ClampDelay(DelayFromSettings(st, local, ny))
      && (FallbackWork in r <==> FallbackWork in p)
    ensures !(wm.cancelWorks && wm.enqueueWorks) ==>
      && (PrimaryWork in r <==> PrimaryWork in p && !wm.cancelWorks)
      && (wm.fallbackWorks ==> FallbackWork in r && r[FallbackWork] == FallbackDelayMs)
      && (!wm.fallbackWorks ==> (FallbackWork in r <==> FallbackWork in p))
    ensures forall k :: k != PrimaryWork && (k != FallbackWork || (wm.cancelWorks && wm.enqueueWorks) || !wm.fallbackWorks) ==>
      (k in r <==> k in p) && (k in r ==> r[k] == p[k])
    ensures !wm.cancelWorks ==>
      (PrimaryWork in r <==> PrimaryWork in p) && (PrimaryWork in p ==> r[PrimaryWork] == p[PrimaryWork])
  {
    if !wm.cancelWorks then ArmFallback(p, wm)
    else
      var cancelled := p - {PrimaryWork};
      var delay := ClampDelay(DelayFromSettings(st, local, ny));
      if !wm.enqueueWorks then ArmFallback(cancelled, wm)
      else cancelled[PrimaryWork := delay]
  }

  /** Scheduling replaces: a second call leaves exactly what a single call with the later inputs leaves. */
  lemma ScheduleReplaces(p: Pending, st1: Store, st2: Store, l1: Clock, l2: Clock, n1: Option<Clock>, n2: Option<Clock>)
    requires ValidClock(l1) && (n1.Some? ==> ValidClock(n1.value))
    requires ValidClock(l2) && (n2.Some? ==> ValidClock(n2.value))
    ensures ScheduleDailyAnalysis(ScheduleDailyAnalysis(p, st1, l1, n1, Healthy), st2, l2, n2, Healthy)
         == ScheduleDailyAnalysis(p, st2, l2, n2, Healthy)
  {
    var once := ScheduleDailyAnalysis(p, st1, l1, n1, Healthy);
    assert once - {PrimaryWork} == p - {PrimaryWork};
  }

  /**
   * `cancelAllWork`: the primary entry, then the fallback entry. When the
   * first cancel throws nothing is cancelled; when only the second throws
   * the fallback entry stays. Other entries are never touched.
   */
  function CancelAllWork(p: Pending, primaryCancelWorks: bool, fallbackCancelWorks: bool): (r: Pending)
    ensures primaryCancelWorks ==> PrimaryWork !in r
    ensures primaryCancelWorks && fallbackCancelWorks ==> FallbackWork !in r
    ensures !primaryCancelWorks ==> r == p
    ensures forall k :: k in r ==> k in p && r[k] == p[k]
    ensures forall k :: k in p && k != PrimaryWork && (k != FallbackWork || !primaryCancelWorks || !fallbackCancelWorks) ==> k in r
  {
    if !primaryCancelWorks then p
    else if !fallbackCancelWorks then p - {PrimaryWork}
    else p - {PrimaryWork, FallbackWork}
  }

  /** Cancelling everything after a healthy reschedule leaves what cancelling alone leaves: the reschedule adds nothing else. */
  lemma CancelUndoesSchedule(p: Pending, st: Store, local: Clock, ny: Option<Clock>)
    requires ValidClock(local) && (ny.Some? ==> ValidClock(ny.value))
    ensures CancelAllWork(ScheduleDailyAnalysis(p, st, local, ny, Healthy), true, true) == CancelAllWork(p, true, true)
  {
    var q := ScheduleDailyAnalysis(p, st, local, ny, Healthy);
    assert q - {PrimaryWork, FallbackWork} == p - {PrimaryWork, FallbackWork};
  }
}
