/**
 * The schedule resolver: from the configuration and the current instant, the
 * next target instant.  A configured one-shot instant wins over any schedule
 * mode; otherwise a daily or weekly rule gives the next occurrence strictly
 * after `now` (an occurrence equal to `now` counts as already passed).
 */
module Schedule {
  import opened Wrappers
  import opened UtcTime
  import opened Config

  /** The two errors the resolver throws. */
  datatype ScheduleError = InvalidTargetDate | InvalidScheduleConfiguration

  /** The configured mode has the time setting it needs. */
  predicate ScheduleIsComplete(cfg: AppConfig) {
    || (cfg.mode == Daily && cfg.daily.Some?)
    || (cfg.mode == Weekly && cfg.weekly.Some?)
  }

  /** Recurring iff no one-shot target is set and the mode is daily or weekly. */
  predicate IsRecurringMode(cfg: AppConfig) {
    cfg.target.Unset? && (cfg.mode == Daily || cfg.mode == Weekly)
  }

  /** Today at the clock time, or tomorrow when today's moment is at or before `now`. */
  function NextDaily(clock: ClockTime, now: int): int {
    var today := StartOfDay(now) + ClockMs(clock);
    if today <= now then today + MsPerDay else today
  }

  /**
   * The day offset is `day - WeekDay(now)`: 0 with today's time still ahead
   * gives today, 0 with the time passed becomes 7, a negative offset gets +7.
   */
  function NextWeekly(rule: WeeklyTime, now: int): int {
    var todayTarget := StartOfDay(now) + ClockMs(rule.clock);
    var daysUntilTarget := rule.day - WeekDay(now);
    if daysUntilTarget == 0 && todayTarget > now then
      todayTarget
    else
      var days :=
        if daysUntilTarget == 0 then 7
        else if daysUntilTarget < 0 then daysUntilTarget + 7
        else daysUntilTarget;
      StartOfDay(now) + days * MsPerDay + ClockMs(rule.clock)
  }

  function NextTargetDate(cfg: AppConfig, now: int): (r: Result<int, ScheduleError>)
    // a parsed one-shot instant is returned unchanged, whatever the mode
    ensures cfg.target.Instant? ==> r == Success(cfg.target.ms)
    // an unparsable one is an error, never a sentinel instant
    ensures cfg.target.Unparsable? ==> r == Failure(InvalidTargetDate)
    // without a one-shot instant, only a complete daily or weekly setting resolves
    ensures cfg.target.Unset? ==> (r.Success? <==> ScheduleIsComplete(cfg))
    // a complete daily or weekly setting resolves to that rule's next occurrence
    ensures cfg.target.Unset? && cfg.mode == Daily && cfg.daily.Some? ==>
              r == Success(NextDaily(cfg.daily.value, now))
    ensures cfg.target.Unset? && cfg.mode == Weekly && cfg.weekly.Some? ==>
              r == Success(NextWeekly(cfg.weekly.value, now))
    ensures r.Failure? ==> r.error == (if cfg.target.Unparsable? then InvalidTargetDate else InvalidScheduleConfiguration)
  {
    match cfg.target
    case Unparsable => Failure(InvalidTargetDate)
    case Instant(ms) => Success(ms)
    case Unset =>
      if cfg.mode == Daily && cfg.daily.Some? then
        Success(NextDaily(cfg.daily.value, now))
      else if cfg.mode == Weekly && cfg.weekly.Some? then
        Success(NextWeekly(cfg.weekly.value, now))
      else
        Failure(InvalidScheduleConfiguration)
  }

  /** An instant at which a daily rule fires. */
  predicate IsDailyOccurrence(clock: ClockTime, t: int) {
    TimeWithinDay(t) == ClockMs(clock)
  }

  /** An instant at which a weekly rule fires. */
  predicate IsWeeklyOccurrence(rule: WeeklyTime, t: int) {
    WeekDay(t) == rule.day && TimeWithinDay(t) == ClockMs(rule.clock)
  }

  /**
   * The daily result is the first occurrence strictly after `now`: it fires at the
   * configured time of day, lies in (now, now + one day], and no occurrence lies
   * strictly between `now` and it.  When today's moment is at or before `now` it
   * is exactly that moment plus one day.
   */
  lemma DailyIsNextOccurrence(clock: ClockTime, now: int)
    requires ValidClock(clock)
    ensures now < NextDaily(clock, now) <= now + MsPerDay
    ensures IsDailyOccurrence(clock, NextDaily(clock, now))
    ensures StartOfDay(now) + ClockMs(clock) <= now ==>
              NextDaily(clock, now) == StartOfDay(now) + ClockMs(clock) + MsPerDay
    ensures forall t :: now < t && IsDailyOccurrence(clock, t) ==> NextDaily(clock, now) <= t
  {
    var c := ClockMs(clock);
    ClockMsWithinDay(clock);
    StartOfDayBounds(now);
    var r := NextDaily(clock, now);
    if StartOfDay(now) + c <= now {
      assert r == (Day(now) + 1) * MsPerDay + c;
      DayOfInstant(Day(now) + 1, c);
    } else {
      DayOfInstant(Day(now), c);
    }
    forall t | now < t && IsDailyOccurrence(clock, t)
      ensures r <= t
    {
      StartOfDayBounds(t);
      DayMonotone(now, t);
      if Day(t) == Day(now) {
        assert t == StartOfDay(now) + c;
      } else {
        assert Day(t) >= Day(now) + 1;
        assert t >= (Day(now) + 1) * MsPerDay + c;
      }
    }
  }

  /**
   * Stepping `days` (1 to 7) forward from weekday `a % 7` lands on weekday `b % 7`,
   * and `b` is not before `a` (nor equal when `days` is a full week): then `b` is
   * at least `days` after `a`.
   */
  lemma WeekdayDistance(a: int, b: int, days: int)
    requires a <= b && 1 <= days <= 7
    requires (a % 7 + days) % 7 == b % 7
    requires days == 7 ==> a < b
    ensures a + days <= b
  {
  }

  /**
   * The weekly result is the first occurrence strictly after `now`: it falls on the
   * configured weekday at the configured time, lies in (now, now + 7 days], and no
   * occurrence lies strictly between `now` and it.  When today is the target day
   * and today's moment is at or before `now`, it is that moment plus 7 days.
   */
  lemma WeeklyIsNextOccurrence(rule: WeeklyTime, now: int)
    requires ValidWeekly(rule)
    ensures now < NextWeekly(rule, now) <= now + 7 * MsPerDay
    ensures IsWeeklyOccurrence(rule, NextWeekly(rule, now))
    ensures WeekDay(now) == rule.day && StartOfDay(now) + ClockMs(rule.clock) <= now ==>
              NextWeekly(rule, now) == StartOfDay(now) + ClockMs(rule.clock) + 7 * MsPerDay
    ensures forall t :: now < t && IsWeeklyOccurrence(rule, t) ==> NextWeekly(rule, now) <= t
  {
    var c := ClockMs(rule.clock);
    ClockMsWithinDay(rule.clock);
    StartOfDayBounds(now);
    var n := Day(now);
    var cur := WeekDay(now);
    var off := rule.day - cur;
    var days := if off == 0 && n * MsPerDay + c > now then 0
                else if off == 0 then 7
                else if off < 0 then off + 7
                else off;
    var r := NextWeekly(rule, now);
    assert r == (n + days) * MsPerDay + c;
    assert (cur + days) % 7 == rule.day;
    DayOfInstant(n + days, c);
    DayOfInstant(n, 0);
    assert cur == (n + 4) % 7;
    assert WeekDay(r) == (n + days + 4) % 7;
    assert (n + days + 4) % 7 == ((n + 4) % 7 + days) % 7;
    forall t | now < t && IsWeeklyOccurrence(rule, t)
      ensures r <= t
    {
      StartOfDayBounds(t);
      DayMonotone(now, t);
      var m := Day(t);
      assert t == m * MsPerDay + c;
      if days != 0 {
        assert m != n || days != 7;
        assert (m + 4) % 7 == rule.day;
        WeekdayDistance(n + 4, m + 4, days);
      }
      assert (n + days) * MsPerDay <= m * MsPerDay;
    }
  }

  /**
   * A complete recurring configuration with validated ranges always resolves, to
   * an instant strictly after `now`: the invariant the controller's rollover relies on.
   */
  lemma RecurringTargetIsAfterNow(cfg: AppConfig, now: int)
    requires ValidRanges(cfg) && IsRecurringMode(cfg) && ScheduleIsComplete(cfg)
    ensures NextTargetDate(cfg, now).Success?
    ensures now < NextTargetDate(cfg, now).value <= now + 7 * MsPerDay
  {
    if cfg.mode == Daily {
      DailyIsNextOccurrence(cfg.daily.value, now);
    } else {
      WeeklyIsNextOccurrence(cfg.weekly.value, now);
    }
  }

  /**
   * Outside recurring mode, resolution does not depend on the clock: the same
   * instant (or the same error) at every `now`.
   */
  lemma NonRecurringIgnoresNow(cfg: AppConfig, now1: int, now2: int)
    requires !IsRecurringMode(cfg)
    ensures NextTargetDate(cfg, now1) == NextTargetDate(cfg, now2)
  {
  }

  /**
   * Recurring mode is exactly when resolution reads the clock: for a setting
   * that resolves (or a one-shot setting), any two instants a week apart give
   * different targets iff the mode is recurring.
   */
  lemma RecurringIffClockMatters(cfg: AppConfig, now: int)
    requires ValidRanges(cfg) && (ScheduleIsComplete(cfg) || !cfg.target.Unset?)
    ensures IsRecurringMode(cfg) <==> NextTargetDate(cfg, now) != NextTargetDate(cfg, now + 7 * MsPerDay)
  {
    if IsRecurringMode(cfg) {
      RecurringTargetIsAfterNow(cfg, now);
      RecurringTargetIsAfterNow(cfg, now + 7 * MsPerDay);
    }
  }

  /** 2024-01-01T00:00:00Z in epoch milliseconds (a Monday). */
  const Jan1st2024: int := 1_704_067_200_000

  const HourMs: int := 3_600_000

  /** Daily 00:00:00 at 2024-01-01T23:00:00Z resolves to 2024-01-02T00:00:00Z. */
  lemma DailyMidnightExample()
    ensures NextDaily(ClockTime(0, 0, 0), Jan1st2024 + 23 * HourMs) == Jan1st2024 + MsPerDay
  {
    assert Day(Jan1st2024 + 23 * HourMs) == 19723;
  }

  /** Weekly `1-12:00:00` exactly at 2024-01-01T12:00:00Z (a Monday) resolves to 2024-01-08T12:00:00Z. */
  lemma WeeklyTieExample()
    ensures WeekDay(Jan1st2024) == 1
    ensures NextWeekly(WeeklyTime(1, ClockTime(12, 0, 0)), Jan1st2024 + 12 * HourMs)
            == Jan1st2024 + 7 * MsPerDay + 12 * HourMs
  {
    assert Day(Jan1st2024) == 19723;
    assert Day(Jan1st2024 + 12 * HourMs) == 19723;
  }
}
