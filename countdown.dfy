/**
 * The countdown controller: three cells (the `isConfigValid` flag, the current
 * target instant and the last emitted snapshot) and a tick that either marks the
 * configuration invalid, replaces the target (emitting nothing), or writes a
 * fresh snapshot.  Each tick takes the configuration read and the clock sample
 * it is run with; the remaining-time decomposition and the phase classifier,
 * whose code is not part of this model, are passed in as functions.
 */
module Countdown {
  import opened Wrappers
  import opened Config
  import opened Schedule
  import opened Unseal

  /** A phase identifier; the hook itself only names phase "A". */
  type Phase = string

  datatype PhaseInfo = PhaseInfo(
    phase: Phase,
    name: string,
    description: string,
    shouldPauseLogs: bool,
    shouldInvertDigits: bool
  )

  /** Remaining time to a target: total ms and its hours/minutes/seconds decomposition. */
  datatype RemainingTime = RemainingTime(totalMs: int, hours: int, minutes: int, seconds: int)

  /**
   * The collaborators: `remainingTime(target, now)` stands for getRemainingTime,
   * and `phaseFromRemaining(totalMs)` for getPhaseFromRemaining applied to
   * totalMs / 1000.  Both are arbitrary total functions here.
   */
  datatype Collaborators = Collaborators(
    remainingTime: (int, int) -> RemainingTime,
    phaseFromRemaining: int -> PhaseInfo
  )

  /** The render-ready snapshot the hook returns. */
  datatype CountdownState = CountdownState(
    remainingMs: int,
    h: int,
    m: int,
    s: int,
    phase: Phase,
    phaseInfo: PhaseInfo,
    isUnsealed: bool,
    justUnsealed: bool,
    shouldShowFeedGrid: bool,
    targetDate: int,
    isConfigValid: bool
  )

  /** The all-zero "Configuration Error" record shown when no configuration can be read. */
  function ConfigErrorState(now: int): CountdownState {
    CountdownState(
      0, 0, 0, 0, "A",
      PhaseInfo("A", "Configuration Error", "Invalid configuration", true, false),
      false, false, false, now, false)
  }

  /** A snapshot for `target` at `now`, with the evaluator's flags copied in. */
  function Snapshot(target: int, now: int, u: UnsealState, env: Collaborators): CountdownState {
    var remaining := env.remainingTime(target, now);
    var phaseInfo := env.phaseFromRemaining(remaining.totalMs);
    CountdownState(
      remaining.totalMs, remaining.hours, remaining.minutes, remaining.seconds,
      phaseInfo.phase, phaseInfo,
      u.isUnsealed, u.justUnsealed, u.shouldShowFeedGrid,
      target, true)
  }

  /**
   * `s` reports the evaluator's result `u` for `target` at `now`: the record
   * `Snapshot` builds, stated field by field as what a caller may rely on.  Its remaining
   * time is the collaborator's for (target, now), its phase the classifier's for
   * that remaining time, its flags `u`'s, and it is marked valid.
   */
  predicate ReportsEvaluation(s: CountdownState, target: int, now: int, u: UnsealState, env: Collaborators) {
    var remaining := env.remainingTime(target, now);
    && s.remainingMs == remaining.totalMs
    && s.h == remaining.hours && s.m == remaining.minutes && s.s == remaining.seconds
    && s.phaseInfo == env.phaseFromRemaining(remaining.totalMs)
    && s.phase == s.phaseInfo.phase
    && s.isUnsealed == u.isUnsealed && s.justUnsealed == u.justUnsealed
    && s.shouldShowFeedGrid == u.shouldShowFeedGrid
    && s.targetDate == target && s.isConfigValid
  }

  /** The flags agree with each other and the phase with its info. */
  predicate WellFormed(s: CountdownState) {
    && s.shouldShowFeedGrid == s.isUnsealed
    && (s.justUnsealed ==> s.isUnsealed)
    && s.phase == s.phaseInfo.phase
  }

  /**
   * What every snapshot the controller holds satisfies: well formed, and marked
   * invalid only when it is the configuration-error record.
   */
  predicate SnapshotInvariant(s: CountdownState) {
    WellFormed(s) && (!s.isConfigValid ==> s == ConfigErrorState(s.targetDate))
  }

  /**
   * The initial target: the resolver's, or `now` when resolution throws.  A
   * one-shot instant is taken verbatim, a complete validated recurring schedule
   * gives an instant after `now`, and otherwise the fallback is `now` itself.
   */
  function InitialTarget(config: Option<AppConfig>, now: int): (t: int)
    ensures config.None? ==> t == now
    ensures config.Some? && config.value.target.Instant? ==> t == config.value.target.ms
    ensures config.Some? && ValidRanges(config.value) && IsRecurringMode(config.value) && ScheduleIsComplete(config.value) ==>
              t > now
    ensures config.Some? && NextTargetDate(config.value, now).Failure? ==> t == now
    ensures config.Some? && NextTargetDate(config.value, now).Success? ==> t == NextTargetDate(config.value, now).value
  {
    if config.None? then now
    else match NextTargetDate(config.value, now)
      case Success(t) => t
      case Failure(_) => now
  }

  /**
   * On mount, a complete recurring schedule targets its next occurrence: the
   * configured time of day (and weekday), strictly after `now`, with no earlier
   * occurrence in between.
   */
  lemma InitialTargetIsNextOccurrence(cfg: AppConfig, now: int)
    requires ValidRanges(cfg) && IsRecurringMode(cfg) && ScheduleIsComplete(cfg)
    ensures cfg.mode == Daily ==>
              && IsDailyOccurrence(cfg.daily.value, InitialTarget(Some(cfg), now))
              && forall t :: now < t && IsDailyOccurrence(cfg.daily.value, t) ==> InitialTarget(Some(cfg), now) <= t
    ensures cfg.mode == Weekly ==>
              && IsWeeklyOccurrence(cfg.weekly.value, InitialTarget(Some(cfg), now))
              && forall t :: now < t && IsWeeklyOccurrence(cfg.weekly.value, t) ==> InitialTarget(Some(cfg), now) <= t
  {
    if cfg.mode == Daily {
      DailyIsNextOccurrence(cfg.daily.value, now);
    } else {
      WeeklyIsNextOccurrence(cfg.weekly.value, now);
    }
  }

  /**
   * The initial snapshot: the error record without a configuration, otherwise a
   * snapshot of the evaluator's result.  The initialiser does not catch, so an
   * evaluator error is an error here.
   */
  function InitialState(config: Option<AppConfig>, target: int, now: int, env: Collaborators)
    : (r: Result<CountdownState, ScheduleError>)
    ensures config.None? ==> r == Success(ConfigErrorState(now))
    ensures r.Success? ==> SnapshotInvariant(r.value)
    // with a configuration: it evaluates exactly when the evaluator does, and reports its result
    ensures config.Some? ==> (r.Success? <==> GetUnsealState(config.value, target, now).Success?)
    ensures config.Some? && r.Success? ==>
              ReportsEvaluation(r.value, target, now, GetUnsealState(config.value, target, now).value, env)
  {
    if config.None? then
      Success(ConfigErrorState(now))
    else match GetUnsealState(config.value, target, now)
      case Failure(e) => Failure(e)
      case Success(u) => Success(Snapshot(target, now, u, env))
  }

  /**
   * The initial snapshot can only fail for a recurring schedule that does not
   * resolve together with a negative display window: otherwise the fallback
   * target `now` is within the window and the resolver is never asked again.
   */
  lemma InitialStateFailsOnlyOnNegativeWindow(cfg: AppConfig, now: int, env: Collaborators)
    requires InitialState(Some(cfg), InitialTarget(Some(cfg), now), now, env).Failure?
    ensures cfg.displayWindowSeconds < 0
    ensures IsRecurringMode(cfg) && !ScheduleIsComplete(cfg)
  {
    var target := InitialTarget(Some(cfg), now);
    assert GetUnsealState(cfg, target, now).Failure?;
    assert NextTargetDate(cfg, now).Failure?;
    assert target == now;
  }

  /** What one tick decides to do. */
  datatype TickAction =
    | MarkConfigInvalid
    | ReplaceTarget(next: int)
    | WriteSnapshot(unseal: UnsealState)

  /** The decision of a tick for the current target, the configuration read and the clock sample. */
  function Decide(target: int, config: Option<AppConfig>, now: int): (a: TickAction)
    // no configuration, or an evaluator error: the configuration is marked invalid
    ensures a.MarkConfigInvalid? <==> config.None? || GetUnsealState(config.value, target, now).Failure?
    // a replacement only in recurring mode, to the resolver's next target
    ensures a.ReplaceTarget? ==>
              && config.Some? && IsRecurringMode(config.value)
              && PastWindow(config.value, target, now)
              && NextTargetDate(config.value, now) == Success(a.next)
    // otherwise the evaluator's result, which then carries no next target
    ensures a.WriteSnapshot? ==>
              && config.Some?
              && GetUnsealState(config.value, target, now) == Success(a.unseal)
              && a.unseal.nextTargetDate.None?
  {
    if config.None? then MarkConfigInvalid
    else match GetUnsealState(config.value, target, now)
      case Failure(_) => MarkConfigInvalid
      case Success(u) =>
        if IsRecurringMode(config.value) && u.nextTargetDate.Some? then ReplaceTarget(u.nextTargetDate.value)
        else WriteSnapshot(u)
  }

  /** The three cells of the controller, as one value. */
  datatype Cells = Cells(isConfigValid: bool, targetDate: int, state: CountdownState)

  /** The effect of one tick on the cells. */
  function Step(c: Cells, config: Option<AppConfig>, now: int, env: Collaborators): (r: Cells)
    // the flag records whether this tick could evaluate
    ensures r.isConfigValid <==> !Decide(c.targetDate, config, now).MarkConfigInvalid?
    // a rollover installs the next target and writes no snapshot
    ensures Decide(c.targetDate, config, now).ReplaceTarget? ==>
              r.targetDate == Decide(c.targetDate, config, now).next && r.state == c.state
    // a normal tick keeps the target and writes the evaluator's snapshot
    ensures Decide(c.targetDate, config, now).WriteSnapshot? ==>
              && r.targetDate == c.targetDate
              && ReportsEvaluation(r.state, c.targetDate, now, Decide(c.targetDate, config, now).unseal, env)
    // the target is replaced at most once, and then no snapshot is written
    ensures r.targetDate != c.targetDate ==>
              Decide(c.targetDate, config, now) == ReplaceTarget(r.targetDate) && r.state == c.state
    // a written snapshot keeps the target and is marked valid
    ensures r.state != c.state ==>
              r.targetDate == c.targetDate && r.state.targetDate == c.targetDate && r.state.isConfigValid
    // a marked-invalid tick changes nothing else
    ensures !r.isConfigValid ==> r.targetDate == c.targetDate && r.state == c.state
    ensures SnapshotInvariant(c.state) ==> SnapshotInvariant(r.state)
  {
    match Decide(c.targetDate, config, now)
    case MarkConfigInvalid => c.(isConfigValid := false)
    case ReplaceTarget(next) => c.(isConfigValid := true, targetDate := next)
    case WriteSnapshot(u) => c.(isConfigValid := true, state := Snapshot(c.targetDate, now, u, env))
  }

  /**
   * A tick that writes a snapshot copies the evaluator's verdict: unsealed exactly
   * when the target has been reached (and, in recurring mode, the window has not
   * passed), shown exactly when unsealed, just unsealed only within 3 seconds, for
   * the unchanged target and marked valid; its remaining time is the
   * collaborator's for (target, now) and its phase the classifier's for it.
   */
  lemma NormalTickSnapshot(c: Cells, cfg: AppConfig, now: int, env: Collaborators)
    requires Decide(c.targetDate, Some(cfg), now).WriteSnapshot?
    ensures var s := Step(c, Some(cfg), now, env).state;
              && s.isConfigValid && s.targetDate == c.targetDate
              && (s.isUnsealed <==>
                    c.targetDate <= now && (IsRecurringMode(cfg) ==> now - c.targetDate <= DisplayWindowMs(cfg)))
              && s.shouldShowFeedGrid == s.isUnsealed
              && (s.justUnsealed <==> s.isUnsealed && now - c.targetDate < JustUnsealedMs)
              && s.phase == s.phaseInfo.phase
              && s.remainingMs == env.remainingTime(c.targetDate, now).totalMs
              && s.h == env.remainingTime(c.targetDate, now).hours
              && s.m == env.remainingTime(c.targetDate, now).minutes
              && s.s == env.remainingTime(c.targetDate, now).seconds
              && s.phaseInfo == env.phaseFromRemaining(s.remainingMs)
  {
  }

  /**
   * In one-shot mode a tick never replaces the target and always writes a
   * snapshot, unsealed exactly when the target has been reached.
   */
  lemma OneShotTickWritesSnapshot(c: Cells, cfg: AppConfig, now: int, env: Collaborators)
    requires !IsRecurringMode(cfg)
    ensures var r := Step(c, Some(cfg), now, env);
              && r.isConfigValid && r.targetDate == c.targetDate
              && r.state.targetDate == c.targetDate
              && (r.state.isUnsealed <==> c.targetDate <= now)
  {
  }

  /**
   * With a complete validated recurring schedule, a tick that rolls over moves
   * the target strictly after `now`; a second tick at the same instant then
   * writes a sealed snapshot for the new target instead of rolling over again.
   */
  lemma RolloverSettlesInOneTick(c: Cells, cfg: AppConfig, now: int, env: Collaborators)
    requires ValidRanges(cfg) && IsRecurringMode(cfg) && ScheduleIsComplete(cfg)
    requires Decide(c.targetDate, Some(cfg), now).ReplaceTarget?
    ensures var r := Step(c, Some(cfg), now, env);
              && r.targetDate > now
              && Decide(r.targetDate, Some(cfg), now).WriteSnapshot?
              && !Step(r, Some(cfg), now, env).state.isUnsealed
              && Step(r, Some(cfg), now, env).targetDate == r.targetDate
  {
    RecurringTargetIsAfterNow(cfg, now);
    var r := Step(c, Some(cfg), now, env);
    assert r.targetDate == NextTargetDate(cfg, now).value;
    SealedIff(cfg, r.targetDate, now);
  }

  /** One tick's inputs: the configuration read and the clock sample. */
  datatype Sample = Sample(config: Option<AppConfig>, now: int)

  /**
   * A sequence of ticks, whatever triggered them (the periodic timer, a
   * visibility change or a focus event all run the same tick).
   */
  function Run(c: Cells, samples: seq<Sample>, env: Collaborators): Cells
    decreases |samples|
  {
    if samples == [] then c
    else Run(Step(c, samples[0].config, samples[0].now, env), samples[1..], env)
  }

  /** Every snapshot the controller holds over any run of ticks satisfies the snapshot invariant. */
  lemma {:induction false} RunKeepsSnapshotInvariant(c: Cells, samples: seq<Sample>, env: Collaborators)
    requires SnapshotInvariant(c.state)
    ensures SnapshotInvariant(Run(c, samples, env).state)
    decreases |samples|
  {
    if samples != [] {
      RunKeepsSnapshotInvariant(Step(c, samples[0].config, samples[0].now, env), samples[1..], env);
    }
  }

  /** A tick that reads no configuration, or a one-shot one, cannot roll over. */
  predicate NonRecurringSample(x: Sample) {
    x.config.Some? ==> !IsRecurringMode(x.config.value)
  }

  /**
   * One-shot mode never re-seals: once the snapshot is unsealed, ticks at or
   * after the target keep the target and keep the snapshot unsealed and shown.
   */
  lemma {:induction false} OneShotNeverReseals(c: Cells, samples: seq<Sample>, env: Collaborators)
    requires c.state.isUnsealed && c.state.shouldShowFeedGrid
    requires forall i :: 0 <= i < |samples| ==> NonRecurringSample(samples[i]) && samples[i].now >= c.targetDate
    ensures Run(c, samples, env).targetDate == c.targetDate
    ensures Run(c, samples, env).state.isUnsealed && Run(c, samples, env).state.shouldShowFeedGrid
    decreases |samples|
  {
    if samples != [] {
      var x := samples[0];
      var next := Step(c, x.config, x.now, env);
      if x.config.Some? {
        OneShotTickWritesSnapshot(c, x.config.value, x.now, env);
      }
      assert next.targetDate == c.targetDate;
      OneShotNeverReseals(next, samples[1..], env);
    }
  }

  /** A configuration read whose present recurrence settings are in range. */
  predicate SaneSample(x: Sample) {
    x.config.Some? ==> ValidRanges(x.config.value)
  }

  /**
   * Over any run of ticks with in-range settings, the target only moves
   * forward: a rollover happens only at a `now` at or after the old target, and
   * replaces it with an instant strictly after that `now`.
   */
  lemma {:induction false} RunTargetNeverMovesBack(c: Cells, samples: seq<Sample>, env: Collaborators)
    requires forall i :: 0 <= i < |samples| ==> SaneSample(samples[i])
    ensures Run(c, samples, env).targetDate >= c.targetDate
    decreases |samples|
  {
    if samples != [] {
      var x := samples[0];
      var next := Step(c, x.config, x.now, env);
      if Decide(c.targetDate, x.config, x.now).ReplaceTarget? {
        RecurringTargetIsAfterNow(x.config.value, x.now);
      }
      assert next.targetDate >= c.targetDate;
      RunTargetNeverMovesBack(next, samples[1..], env);
    }
  }

  /** The controller object; its fields are the hook's three state cells. */
  class CountdownController {
    var isConfigValid: bool
    var targetDate: int
    var state: CountdownState

    function View(): Cells
      reads this
    {
      Cells(isConfigValid, targetDate, state)
    }

    predicate Valid()
      reads this
    {
      SnapshotInvariant(state)
    }

    /** Mounting: the flag starts false, the target and the snapshot from their initialisers. */
    constructor (config: Option<AppConfig>, now: int, env: Collaborators)
      requires InitialState(config, InitialTarget(config, now), now, env).Success?
      ensures Valid()
      ensures View() == Cells(false, InitialTarget(config, now),
                              InitialState(config, InitialTarget(config, now), now, env).value)
    {
      isConfigValid := false;
      var target := InitialTarget(config, now);
      targetDate := target;
      state := InitialState(config, target, now, env).value;
    }

    /** One tick, from the configuration read and the clock sample it runs with. */
    method Tick(config: Option<AppConfig>, now: int, env: Collaborators)
      requires Valid()
      modifies this
      ensures Valid()
      ensures View() == Step(old(View()), config, now, env)
    {
      if config.None? {
        isConfigValid := false;
        return;
      }
      isConfigValid := true;
      var unsealState := GetUnsealState(config.value, targetDate, now);
      if unsealState.Failure? {
        isConfigValid := false;
        return;
      }
      if IsRecurringMode(config.value) && unsealState.value.nextTargetDate.Some? {
        targetDate := unsealState.value.nextTargetDate.value;
        return;
      }
      state := Snapshot(targetDate, now, unsealState.value, env);
    }
  }
}
