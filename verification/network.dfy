/**
 * NetworkHelper: one HTTP GET turned into a parsed payload or a thrown
 * failure (`fetchJson`), and the bounded retry loop around it
 * (`fetchWithRetry`). The network is a sequence of per-attempt outcomes;
 * an attempt beyond the end of that sequence fails with an I/O error.
 */
module Network {
  import opened Base

  const MaxRetries: nat := 3
  const RetryDelayMs: nat := 2000
  const HttpOk: int := 200

  /** What one connection yields: an I/O failure, or a status, a body and the body parsed as JSON (None if it does not parse). */
  datatype HttpResponse<+T> = IoFailure | Response(status: int, body: string, json: Option<T>)

  /** One call of `fetchJson` as seen by the loop: a payload, a null, or an exception. */
  datatype AttemptResult<+T> = Got(value: T) | GotNull | Threw

  /** One loop iteration: the attempt's result and whether the backoff sleep after it is interrupted. */
  datatype Attempt<+T> = Attempt(result: AttemptResult<T>, sleepInterrupted: bool)

  /**
   * `fetchJson`: a payload only for status 200 with a non-blank body that
   * parses; a non-200 status, a blank body, an unparsable body or an I/O
   * error all throw. It never returns null.
   */
  function FetchJson<T>(resp: HttpResponse<T>): (r: AttemptResult<T>)
    ensures !r.GotNull?
    ensures r.Got? <==> resp.Response? && resp.status == HttpOk && !IsBlank(resp.body) && resp.json.Some?
    ensures r.Got? ==> r.value == resp.json.value
  {
    match resp
    case IoFailure => Threw
    case Response(status, body, json) =>
      if status != HttpOk then Threw
      else if IsBlank(body) then Threw
      else if json.None? then Threw
      else Got(json.value)
  }

  /** The network's behaviour for the attempt with 0-based index `i`. */
  function AttemptAt<T>(env: seq<Attempt<T>>, i: nat): Attempt<T> {
    if i < |env| then env[i] else Attempt(Threw, false)
  }

  /** What a call of `fetchWithRetry` did: its result (None is Java null), how many attempts it made, and the sleeps it requested in order. */
  datatype FetchTrace<+T> = FetchTrace(result: Option<T>, attempts: nat, sleeps: seq<nat>)

  /** Prepends `n` earlier attempts and their sleeps to the trace of the remaining ones. */
  function After<T>(n: nat, sleeps: seq<nat>, rest: FetchTrace<T>): FetchTrace<T> {
    FetchTrace(rest.result, n + rest.attempts, sleeps + rest.sleeps)
  }

  /** The loop from attempt number `k` (1-based) onwards. */
  function RetryFrom<T>(env: seq<Attempt<T>>, k: nat): FetchTrace<T>
    requires 1 <= k
    decreases MaxRetries + 1 - k
  {
    if k > MaxRetries then FetchTrace(None, 0, [])
    else
      var a := AttemptAt(env, k - 1);
      match a.result
      case Got(v) => FetchTrace(Some(v), 1, [])
      case GotNull => After(1, [], RetryFrom(env, k + 1))
      case Threw =>
        if k < MaxRetries then
          if a.sleepInterrupted then FetchTrace(None, 1, [RetryDelayMs * k])
          else After(1, [RetryDelayMs * k], RetryFrom(env, k + 1))
        else FetchTrace(None, 1, [])
  }

  /** `fetchWithRetry(url)` as a function: a null or blank URL is rejected before any attempt. */
  function FetchWithRetry<T>(url: Option<string>, env: seq<Attempt<T>>): FetchTrace<T> {
    if url.None? || IsBlank(url.value) then FetchTrace(None, 0, []) else RetryFrom(env, 1)
  }

  /**
   * The loop as written: attempts 1..3, return on the first non-null
   * payload, a `2000 * attempt` ms sleep after a thrown failure except the
   * last, and `break` when that sleep is interrupted.
   */
  method FetchWithRetryLoop<T>(url: Option<string>, env: seq<Attempt<T>>)
    returns (r: Option<T>, attempts: nat, sleeps: seq<nat>)
    ensures FetchTrace(r, attempts, sleeps) == FetchWithRetry(url, env)
  {
    if url.None? || IsBlank(url.value) {
      return None, 0, [];
    }
    ghost var whole := RetryFrom(env, 1);
    assert whole == After(0, [], whole);
    r, attempts, sleeps := None, 0, [];
    var attempt: nat := 1;
    while attempt <= MaxRetries
      invariant 1 <= attempt <= MaxRetries + 1
      invariant r.None?
      invariant whole == After(attempts, sleeps, RetryFrom(env, attempt))
      decreases MaxRetries + 1 - attempt
    {
      var done;
      done, r, attempts, sleeps := RetryIteration(env, attempt, attempts, sleeps);
      if done {
        return;
      }
      attempt := attempt + 1;
    }
    EndStep(env, attempts, sleeps);
  }

  /**
   * One pass of the loop body for attempt `k`, after `n` attempts and the
   * sleeps `s`: a payload returns (`done`); a null goes on; a thrown failure
   * sleeps `2000 * k` ms unless it was the last attempt, and an interrupted
   * sleep breaks out of the loop (`done`, no result).
   */
  method RetryIteration<T>(env: seq<Attempt<T>>, k: nat, n: nat, s: seq<nat>)
    returns (done: bool, r: Option<T>, attempts: nat, sleeps: seq<nat>)
    requires 1 <= k <= MaxRetries
    ensures done ==> FetchTrace(r, attempts, sleeps) == After(n, s, RetryFrom(env, k))
    ensures !done ==> r.None? && After(attempts, sleeps, RetryFrom(env, k + 1)) == After(n, s, RetryFrom(env, k))
  {
    var a := AttemptAt(env, k - 1);
    attempts, sleeps := n + 1, s;
    match a.result {
      case Got(v) =>
        ReturnStep(env, k, n, s);
        return true, Some(v), attempts, sleeps;
      case GotNull =>
        ContinueStep(env, k, n, s);
        assert sleeps == s + PauseAfter(env, k);
      case Threw =>
        if k < MaxRetries {
          var pause := RetryDelayMs * k;
          sleeps := sleeps + [pause];
          if a.sleepInterrupted {
            BreakStep(env, k, n, s);
            return true, None, attempts, sleeps;
          }
        }
        ContinueStep(env, k, n, s);
        assert sleeps == s + PauseAfter(env, k);
    }
    return false, None, attempts, sleeps;
  }

  /** The sleep requested after attempt `k` when the loop goes on. */
  function PauseAfter<T>(env: seq<Attempt<T>>, k: nat): seq<nat>
    requires 1 <= k
  {
    if AttemptAt(env, k - 1).result.Threw? && k < MaxRetries then [RetryDelayMs * k] else []
  }

  /** Attempt `k` returns its payload. */
  lemma ReturnStep<T>(env: seq<Attempt<T>>, k: nat, n: nat, s: seq<nat>)
    requires 1 <= k <= MaxRetries && AttemptAt(env, k - 1).result.Got?
    ensures After(n, s, RetryFrom(env, k)) == FetchTrace(Some(AttemptAt(env, k - 1).result.value), n + 1, s)
  {
    assert s + [] == s;
  }

  /** Attempt `k` throws and the sleep after it is interrupted. */
  lemma BreakStep<T>(env: seq<Attempt<T>>, k: nat, n: nat, s: seq<nat>)
    requires 1 <= k < MaxRetries && AttemptAt(env, k - 1) == Attempt(Threw, true)
    ensures After(n, s, RetryFrom(env, k)) == FetchTrace(None, n + 1, s + [RetryDelayMs * k])
  {
  }

  /** Attempt `k` yields null, or throws without an interrupted sleep: the loop goes on with attempt `k + 1`. */
  lemma ContinueStep<T>(env: seq<Attempt<T>>, k: nat, n: nat, s: seq<nat>)
    requires 1 <= k <= MaxRetries
    requires AttemptAt(env, k - 1).result.GotNull?
      || (AttemptAt(env, k - 1).result.Threw? && !(k < MaxRetries && AttemptAt(env, k - 1).sleepInterrupted))
    ensures After(n, s, RetryFrom(env, k)) == After(n + 1, s + PauseAfter(env, k), RetryFrom(env, k + 1))
  {
    var rest := RetryFrom(env, k + 1);
    AfterAssociates(n, s, PauseAfter(env, k), rest);
    if AttemptAt(env, k - 1).result.Threw? && k == MaxRetries {
      assert s + [] == s;
    }
  }

  lemma AfterAssociates<T>(n: nat, s: seq<nat>, d: seq<nat>, t: FetchTrace<T>)
    ensures After(n, s, After(1, d, t)) == After(n + 1, s + d, t)
  {
    assert s + (d + t.sleeps) == (s + d) + t.sleeps;
  }

  /** Past the last attempt nothing more happens. */
  lemma EndStep<T>(env: seq<Attempt<T>>, n: nat, s: seq<nat>)
    ensures After(n, s, RetryFrom(env, MaxRetries + 1)) == FetchTrace(None, n, s)
  {
    assert s + [] == s;
  }

  /** Which attempts the loop from attempt `k` on makes; `last` is the number of the last one. */
  lemma {:induction false} RetryFromAttempts<T>(env: seq<Attempt<T>>, k: nat)
    requires 1 <= k <= MaxRetries + 1
    ensures var t := RetryFrom(env, k);
      var last := k - 1 + t.attempts;
      && last <= MaxRetries
      && (k <= MaxRetries ==> t.attempts >= 1)
      && (forall i :: k - 1 <= i < last - 1 ==> !AttemptAt(env, i).result.Got?)
      && (t.result.Some? ==> t.attempts >= 1 && AttemptAt(env, last - 1).result == Got(t.result.value))
      && (t.result.None? ==> t.attempts == 0 || !AttemptAt(env, last - 1).result.Got?)
      && (t.result.None? && t.attempts > 0 && last < MaxRetries ==>
            AttemptAt(env, last - 1) == Attempt(Threw, true))
    decreases MaxRetries + 1 - k
  {
    if k <= MaxRetries {
      var a := AttemptAt(env, k - 1);
      if a.result.GotNull? || (a.result.Threw? && k < MaxRetries && !a.sleepInterrupted) {
        RetryFromAttempts(env, k + 1);
      }
    }
  }

  /** `s` is strictly increasing and starts at `lo` or above. */
  predicate AscendingFrom(s: seq<nat>, lo: int)
    decreases |s|
  {
    |s| == 0 || (lo <= s[0] && AscendingFrom(s[1..], s[0] + 1))
  }

  lemma {:induction false} AscendingFromWeaken(s: seq<nat>, lo: int, lower: int)
    requires AscendingFrom(s, lo) && lower <= lo
    ensures AscendingFrom(s, lower)
  {
  }

  lemma {:induction false} AscendingIsSorted(s: seq<nat>, lo: int)
    requires AscendingFrom(s, lo)
    ensures forall i :: 0 <= i < |s| ==> lo <= s[i]
    ensures forall i, j :: 0 <= i < j < |s| ==> s[i] < s[j]
    decreases |s|
  {
    if |s| > 0 {
      AscendingIsSorted(s[1..], s[0] + 1);
      assert forall i :: 0 < i < |s| ==> s[i] == s[1..][i - 1];
    }
  }

  /** The sleeps of the loop from attempt `k` on: strictly increasing, each 2000 ms or 4000 ms and at least `2000 * k`. */
  lemma {:induction false} RetryFromSleeps<T>(env: seq<Attempt<T>>, k: nat)
    requires 1 <= k <= MaxRetries + 1
    ensures var t := RetryFrom(env, k);
      && AscendingFrom(t.sleeps, RetryDelayMs * k)
      && (forall i :: 0 <= i < |t.sleeps| ==> t.sleeps[i] in {2000, 4000})
    decreases MaxRetries + 1 - k
  {
    if k <= MaxRetries {
      var a := AttemptAt(env, k - 1);
      var t := RetryFrom(env, k);
      if a.result.GotNull? {
        RetryFromSleeps(env, k + 1);
        AscendingFromWeaken(t.sleeps, RetryDelayMs * (k + 1), RetryDelayMs * k);
      } else if a.result.Threw? && k < MaxRetries {
        if a.sleepInterrupted {
          assert t.sleeps == [RetryDelayMs * k];
          assert t.sleeps[1..] == [];
        } else {
          RetryFromSleeps(env, k + 1);
          var rest := RetryFrom(env, k + 1).sleeps;
          assert t.sleeps == [RetryDelayMs * k] + rest;
          assert t.sleeps[1..] == rest;
        }
      }
    }
  }

  /** A null or blank URL makes no attempt and does not sleep. */
  lemma BlankUrlMakesNoAttempt<T>(url: Option<string>, env: seq<Attempt<T>>)
    requires url.None? || forall i :: 0 <= i < |url.value| ==> IsTrimmed(url.value[i])
    ensures FetchWithRetry(url, env) == FetchTrace(None, 0, [])
  {
    if url.Some? {
      BlankIffAllTrimmed(url.value);
    }
  }

  /**
   * For a usable URL: between one and three attempts; a payload is the
   * result of the last attempt and no earlier attempt produced one; a
   * failure after fewer than three attempts means the last one threw and
   * its sleep was interrupted; the sleeps are increasing multiples of
   * 2000 ms below 6000 ms.
   */
  lemma RetryContract<T>(url: string, env: seq<Attempt<T>>)
    requires !IsBlank(url)
    ensures var t := FetchWithRetry(Some(url), env);
      && 1 <= t.attempts <= MaxRetries
      && (forall i :: 0 <= i < t.attempts - 1 ==> !AttemptAt(env, i).result.Got?)
      && (t.result.Some? ==> AttemptAt(env, t.attempts - 1).result == Got(t.result.value))
      && (t.result.None? ==> !AttemptAt(env, t.attempts - 1).result.Got?)
      && (t.result.None? && t.attempts < MaxRetries ==> AttemptAt(env, t.attempts - 1) == Attempt(Threw, true))
      && (forall i :: 0 <= i < |t.sleeps| ==> t.sleeps[i] in {2000, 4000})
      && (forall i, j :: 0 <= i < j < |t.sleeps| ==> t.sleeps[i] < t.sleeps[j])
  {
    RetryFromAttempts(env, 1);
    RetryFromSleeps(env, 1);
    AscendingIsSorted(RetryFrom(env, 1).sleeps, RetryDelayMs);
  }

  /** Three thrown failures with uninterrupted sleeps: three attempts, sleeps of 2000 and 4000 ms, no result. */
  lemma PersistentFailureUsesWholeBudget<T>(url: string, env: seq<Attempt<T>>)
    requires !IsBlank(url)
    requires forall i :: 0 <= i < MaxRetries ==> AttemptAt(env, i) == Attempt(Threw, false)
    ensures FetchWithRetry(Some(url), env) == FetchTrace(None, 3, [2000, 4000])
  {
    assert AttemptAt(env, 0) == Attempt(Threw, false);
    assert AttemptAt(env, 1) == Attempt(Threw, false);
    assert AttemptAt(env, 2) == Attempt(Threw, false);
  }

  /** A null result moves on to the next attempt without sleeping. */
  lemma NullResultDoesNotSleep<T>(url: string, env: seq<Attempt<T>>, v: T)
    requires !IsBlank(url)
    requires AttemptAt(env, 0).result == GotNull && AttemptAt(env, 1).result == Got(v)
    ensures FetchWithRetry(Some(url), env) == FetchTrace(Some(v), 2, [])
  {
  }

  /** `fetchJson` returns a payload for the response of attempt `i` (0-based). */
  predicate Accepted<T>(resps: seq<HttpResponse<T>>, i: nat) {
    i < |resps| && FetchJson(resps[i]).Got?
  }

  /** Each of the three attempts is `fetchJson` of the next HTTP response (a thrown failure once they run out), and no sleep is interrupted. */
  predicate CallsOf<T(==)>(env: seq<Attempt<T>>, resps: seq<HttpResponse<T>>) {
    forall i :: 0 <= i < MaxRetries ==>
      AttemptAt(env, i) == Attempt(if i < |resps| then FetchJson(resps[i]) else Threw, false)
  }

  /**
   * `fetchWithRetry` over `fetchJson`: it returns the parsed body of the
   * first of the three responses that `fetchJson` accepts, and null after
   * three attempts exactly when `fetchJson` refuses all three.
   */
  lemma FetchWithRetryOverHttp<T>(url: string, resps: seq<HttpResponse<T>>, env: seq<Attempt<T>>)
    requires !IsBlank(url) && CallsOf(env, resps)
    ensures var t := FetchWithRetry(Some(url), env);
      t.result.Some? <==> exists i :: 0 <= i < MaxRetries && Accepted(resps, i)
    ensures var t := FetchWithRetry(Some(url), env);
      t.result.Some? ==>
        && 1 <= t.attempts <= |resps| && Accepted(resps, t.attempts - 1)
        && t.result.value == resps[t.attempts - 1].json.value
        && forall j :: 0 <= j < t.attempts - 1 ==> !Accepted(resps, j)
    ensures var t := FetchWithRetry(Some(url), env);
      t.result.None? ==> t.attempts == MaxRetries
  {
    var t := FetchWithRetry(Some(url), env);
    HttpTrace(url, resps, env);
    RefusedBefore(resps, if t.result.Some? then t.attempts - 1 else MaxRetries);
  }

  lemma RefusedBefore<T>(resps: seq<HttpResponse<T>>, n: nat)
    requires n <= 3
    requires 0 < n ==> !Accepted(resps, 0)
    requires 1 < n ==> !Accepted(resps, 1)
    requires 2 < n ==> !Accepted(resps, 2)
    ensures forall j :: 0 <= j < n ==> !Accepted(resps, j)
  {
    forall j | 0 <= j < n
      ensures !Accepted(resps, j)
    {
      assert j == 0 || j == 1 || j == 2;
    }
  }

  /** The trace over HTTP responses, case by case: the first accepted response ends the loop. */
  lemma HttpTrace<T>(url: string, resps: seq<HttpResponse<T>>, env: seq<Attempt<T>>)
    requires !IsBlank(url) && CallsOf(env, resps)
    ensures FetchWithRetry(Some(url), env) ==
      if Accepted(resps, 0) then FetchTrace(Some(resps[0].json.value), 1, [])
      else if Accepted(resps, 1) then FetchTrace(Some(resps[1].json.value), 2, [2000])
      else if Accepted(resps, 2) then FetchTrace(Some(resps[2].json.value), 3, [2000, 4000])
      else FetchTrace(None, 3, [2000, 4000])
  {
    CallOf(env, resps, 0);
    CallOf(env, resps, 1);
    CallOf(env, resps, 2);
  }

  /** Attempt `i` of the three: the accepted payload, or a thrown failure, and never an interrupted sleep. */
  lemma CallOf<T>(env: seq<Attempt<T>>, resps: seq<HttpResponse<T>>, i: nat)
    requires CallsOf(env, resps) && i < MaxRetries
    ensures AttemptAt(env, i) == Attempt(if Accepted(resps, i) then Got(resps[i].json.value) else Threw, false)
  {
  }
}
