/**
 * The application configuration the temporal core reads, as an explicit value.
 * Loading and validating it (environment parsing, the `HH:MM:SS` and
 * `D-HH:MM:SS` string formats) happens upstream; what arrives here is already
 * split into integers, and an ISO target instant is already parsed, or known to
 * be unparsable.
 */
module Config {
  import opened Wrappers
  import opened UtcTime

  /** The one-shot target: absent (empty), present but not a valid ISO instant, or parsed. */
  datatype TargetSetting = Unset | Unparsable | Instant(ms: int)

  /** `scheduleMode`: 'daily', 'weekly', or anything else (including absent). */
  datatype ScheduleMode = Daily | Weekly | Unscheduled

  /** A UTC time of day from a `HH:MM:SS` setting. */
  datatype ClockTime = ClockTime(hours: int, minutes: int, seconds: int)

  /** A weekly occurrence from a `D-HH:MM:SS` setting; day 0 is Sunday. */
  datatype WeeklyTime = WeeklyTime(day: int, clock: ClockTime)

  datatype AppConfig = AppConfig(
    target: TargetSetting,
    mode: ScheduleMode,
    daily: Option<ClockTime>,
    weekly: Option<WeeklyTime>,
    displayWindowSeconds: int
  )

  /** Milliseconds after UTC midnight at which a clock time falls. */
  function ClockMs(c: ClockTime): int {
    TimeOfDayMs(c.hours, c.minutes, c.seconds)
  }

  predicate ValidClock(c: ClockTime) {
    0 <= c.hours <= 23 && 0 <= c.minutes <= 59 && 0 <= c.seconds <= 59
  }

  predicate ValidWeekly(w: WeeklyTime) {
    0 <= w.day <= 6 && ValidClock(w.clock)
  }

  /** The ranges upstream validation guarantees for whichever recurrence settings are present. */
  predicate ValidRanges(cfg: AppConfig) {
    && (cfg.daily.Some? ==> ValidClock(cfg.daily.value))
    && (cfg.weekly.Some? ==> ValidWeekly(cfg.weekly.value))
  }

  /** A valid clock time is a time within one day. */
  lemma ClockMsWithinDay(c: ClockTime)
    requires ValidClock(c)
    ensures 0 <= ClockMs(c) < MsPerDay
  {
  }
}
