/**
 * The unseal evaluator: from the target instant and `now`, whether the reveal is
 * unsealed, whether it just became so (within 3 seconds, re-derived from elapsed
 * time and never stored), whether the feed grid is shown, and, in recurring mode
 * once the display window has passed, the next target to roll over to.
 */
module Unseal {
  import opened Wrappers
  import opened UtcTime
  import opened Config
  import opened Schedule

  /** How long after the unseal moment `justUnsealed` stays true, in ms. */
  const JustUnsealedMs: int := 3000

  /**
   * `timeRemaining` is present on every path of the evaluator, so it is a plain
   * field here; `nextTargetDate` only on the rollover path.
   */
  datatype UnsealState = UnsealState(
    isUnsealed: bool,
    justUnsealed: bool,
    shouldShowFeedGrid: bool,
    nextTargetDate: Option<int>,
    timeRemaining: int
  )

  /** The display window of a recurring schedule, in ms. */
  function DisplayWindowMs(cfg: AppConfig): int {
    cfg.displayWindowSeconds * 1000
  }

  /** A recurring target is past its display window: time to roll over. */
  predicate PastWindow(cfg: AppConfig, target: int, now: int) {
    IsRecurringMode(cfg) && target - now <= 0 && now - target > DisplayWindowMs(cfg)
  }

  /**
   * The evaluator.  It fails only where it asks the resolver for the next target
   * and the resolver throws.
   */
  function GetUnsealState(cfg: AppConfig, target: int, now: int): (r: Result<UnsealState, ScheduleError>)
    // failure only on rollover with a schedule that does not resolve
    ensures r.Failure? <==> PastWindow(cfg, target, now) && NextTargetDate(cfg, now).Failure?
    ensures r.Failure? ==> r.error == InvalidScheduleConfiguration
    // unsealed exactly from the target on, and in recurring mode only up to the window's end
    ensures r.Success? ==> (r.value.isUnsealed <==>
              target - now <= 0 && (IsRecurringMode(cfg) ==> now - target <= DisplayWindowMs(cfg)))
    ensures r.Success? ==> r.value.shouldShowFeedGrid == r.value.isUnsealed
    ensures r.Success? ==> (r.value.justUnsealed <==> r.value.isUnsealed && now - target < JustUnsealedMs)
    // a next target only past the window, and then the resolver's, with its own remaining time
    ensures r.Success? ==> (r.value.nextTargetDate.Some? <==> PastWindow(cfg, target, now))
    ensures r.Success? && r.value.nextTargetDate.Some? ==>
              && NextTargetDate(cfg, now) == Success(r.value.nextTargetDate.value)
              && r.value.timeRemaining == r.value.nextTargetDate.value - now
    // otherwise the remaining time is target - now while sealed, and 0 once unsealed
    ensures r.Success? && r.value.nextTargetDate.None? ==>
              r.value.timeRemaining == if r.value.isUnsealed then 0 else target - now
  {
    var timeRemaining := target - now;
    if timeRemaining > 0 then
      Success(UnsealState(false, false, false, None, timeRemaining))
    else if !IsRecurringMode(cfg) then
      // one-shot: unsealed for good
      Success(UnsealState(true, -timeRemaining < JustUnsealedMs, true, None, 0))
    else
      var timeSinceUnseal := -timeRemaining;
      if timeSinceUnseal <= DisplayWindowMs(cfg) then
        Success(UnsealState(true, timeSinceUnseal < JustUnsealedMs, true, None, 0))
      else
        match NextTargetDate(cfg, now)
        case Failure(e) => Failure(e)
        case Success(nextTarget) =>
          Success(UnsealState(false, false, false, Some(nextTarget), nextTarget - now))
  }

  /** Sealed iff the target is still ahead; then nothing is shown and the remaining time is exact. */
  lemma SealedIff(cfg: AppConfig, target: int, now: int)
    ensures target - now > 0 <==>
              GetUnsealState(cfg, target, now) == Success(UnsealState(false, false, false, None, target - now))
  {
  }

  /**
   * One-shot mode never re-seals: unsealed at `now` means unsealed, shown, with
   * zero remaining time, at every later instant for the same target.
   */
  lemma OneShotStaysUnsealed(cfg: AppConfig, target: int, now: int, later: int)
    requires !IsRecurringMode(cfg)
    requires GetUnsealState(cfg, target, now).Success? && GetUnsealState(cfg, target, now).value.isUnsealed
    requires now <= later
    ensures GetUnsealState(cfg, target, later).Success?
    ensures var u := GetUnsealState(cfg, target, later).value;
              u.isUnsealed && u.shouldShowFeedGrid && u.timeRemaining == 0 && u.nextTargetDate.None?
  {
  }

  /**
   * `justUnsealed` is true exactly at the target (when the target is shown at all)
   * and false from 3 seconds after it.
   */
  lemma JustUnsealedBoundary(cfg: AppConfig, target: int)
    requires IsRecurringMode(cfg) ==> cfg.displayWindowSeconds >= 0
    ensures GetUnsealState(cfg, target, target).Success?
    ensures GetUnsealState(cfg, target, target).value.justUnsealed
    ensures forall now :: now >= target + JustUnsealedMs && GetUnsealState(cfg, target, now).Success? ==>
              !GetUnsealState(cfg, target, now).value.justUnsealed
  {
  }

  /** Recurring mode within the window (inclusive): unsealed and shown. */
  lemma RecurringWithinWindow(cfg: AppConfig, target: int, now: int)
    requires IsRecurringMode(cfg)
    requires target <= now <= target + DisplayWindowMs(cfg)
    ensures GetUnsealState(cfg, target, now).Success?
    ensures var u := GetUnsealState(cfg, target, now).value;
              u.isUnsealed && u.shouldShowFeedGrid && u.nextTargetDate.None? && u.timeRemaining == 0
  {
  }

  /**
   * Recurring mode past the window, with a complete validated schedule: sealed
   * again, nothing shown, and a next target strictly after `now`, so the
   * remaining time it reports is positive.
   */
  lemma RolloverIsAhead(cfg: AppConfig, target: int, now: int)
    requires ValidRanges(cfg) && IsRecurringMode(cfg) && ScheduleIsComplete(cfg)
    requires target <= now && now - target > DisplayWindowMs(cfg)
    ensures GetUnsealState(cfg, target, now).Success?
    ensures var u := GetUnsealState(cfg, target, now).value;
              && !u.isUnsealed && !u.justUnsealed && !u.shouldShowFeedGrid
              && u.nextTargetDate.Some? && u.nextTargetDate.value > now
              && u.timeRemaining > 0
  {
    RecurringTargetIsAfterNow(cfg, now);
  }

  /**
   * Daily `00:00:00`: resolved at 2024-01-01T23:00:00Z, the target is
   * 2024-01-02T00:00:00Z, and at that instant the evaluator reports it unsealed
   * and just unsealed.
   */
  lemma DailyMidnightScenario(window: int)
    requires window >= 0
    ensures var cfg := AppConfig(Unset, Daily, Some(ClockTime(0, 0, 0)), None, window);
            && NextTargetDate(cfg, Jan1st2024 + 23 * HourMs) == Success(Jan1st2024 + MsPerDay)
            && GetUnsealState(cfg, Jan1st2024 + MsPerDay, Jan1st2024 + MsPerDay).Success?
            && GetUnsealState(cfg, Jan1st2024 + MsPerDay, Jan1st2024 + MsPerDay).value.isUnsealed
            && GetUnsealState(cfg, Jan1st2024 + MsPerDay, Jan1st2024 + MsPerDay).value.justUnsealed
  {
    DailyMidnightExample();
  }
}
