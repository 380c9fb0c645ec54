/**
 * Two notification rules. The frequency decision table of the notification
 * tests (`shouldNotifyForSignal`: disabled / on_change / daily) and the rule
 * the daily job actually applies, which ignores the frequency setting and
 * notifies whenever the signal name differs from the stored one and the
 * master toggle is on. The lemmas show where the two agree and where they
 * do not.
 */
module NotificationPolicy {
  import opened Base
  import opened SignalEngine

  const Disabled := "disabled"
  const Daily := "daily"
  const OnChange := "on_change"

  /**
   * The decision table: "disabled" never notifies, "daily" always does,
   * "on_change" notifies only when there is a previous signal and the
   * current one differs from it, and any other mode (null included) never
   * notifies.
   */
  function ShouldNotifyForSignal(current: string, last: Option<string>, frequency: Option<string>): (b: bool)
    ensures frequency == Some(Disabled) ==> !b
    ensures frequency == Some(Daily) ==> b
    ensures frequency == Some(OnChange) ==> (b <==> last.Some? && last.value != "" && current != last.value)
    ensures frequency.None? || frequency.value !in {Disabled, Daily, OnChange} ==> !b
  {
    if frequency == Some(Disabled) then false
    else if frequency == Some(Daily) then true
    else if frequency == Some(OnChange) then
      if last.None? || last.value == "" then false
      else current != last.value
    else false
  }

  /** The daily job's rule: the stored name differs and the master toggle is on (every signal is enabled). */
  function JobNotifies(signal: Signal, last: string, master: bool): (b: bool)
    ensures b ==> master
    ensures master ==> (b <==> last != Name(signal))
  {
    if Name(signal) != last then master && SignalEnabled(signal) else false
  }

  /** `isSignalEnabled`: with the simplified controls, every signal is enabled. */
  function SignalEnabled(signal: Signal): bool {
    true
  }

  /** With a previous signal and the master toggle on, the job behaves exactly like "on_change". */
  lemma JobIsOnChangeAfterFirstRun(signal: Signal, last: string)
    requires last != ""
    ensures JobNotifies(signal, last, true) == ShouldNotifyForSignal(Name(signal), Some(last), Some(OnChange))
  {
  }

  /**
   * Where the rules differ: on a first run the job notifies while "on_change"
   * does not; for an unchanged signal "daily" notifies while the job does not;
   * and "disabled" does not silence the job.
   */
  lemma RulesDisagree(signal: Signal)
    ensures JobNotifies(signal, "", true) && !ShouldNotifyForSignal(Name(signal), Some(""), Some(OnChange))
    ensures ShouldNotifyForSignal(Name(signal), Some(Name(signal)), Some(Daily)) && !JobNotifies(signal, Name(signal), true)
    ensures !ShouldNotifyForSignal(Name(signal), Some("HOLD"), Some(Disabled)) && (signal != Hold ==> JobNotifies(signal, "HOLD", true))
  {
    NameInjective(signal, Hold);
  }

  /** Examples the tests spell out: SELL 80% to SELL ALL notifies under on_change, HOLD to HOLD does not. */
  lemma OnChangeExamples()
    ensures ShouldNotifyForSignal(Name(SellAll), Some(Name(Sell80)), Some(OnChange))
    ensures !ShouldNotifyForSignal(Name(Hold), Some(Name(Hold)), Some(OnChange))
    ensures !ShouldNotifyForSignal(Name(Buy), None, Some(OnChange))
    ensures !ShouldNotifyForSignal(Name(Buy), Some(Name(Sell)), Some("weekly"))
  {
  }
}
