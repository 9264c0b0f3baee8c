# Countdown unseal core, modelled in Dafny

This project models the temporal core of a countdown landing page. The page "unseals" a reveal (a grid of simulated feeds) at a UTC instant. The instant is either configured once or repeats daily or weekly. The core has three parts:

- **Schedule resolver** (`Schedule`, from `client/src/config/schedule.ts`). From the configuration and the current instant, it computes the next target instant.
  - A configured one-shot instant wins over any schedule mode.
  - A daily rule gives today at `HH:MM:SS` UTC, or tomorrow when that moment is at or before now.
  - A weekly rule offsets the day by `day - WeekDay(now)`. An offset of 0 whose time has passed becomes 7, and a negative offset gets +7.
  - An unparsable one-shot instant is an error. So is a schedule mode without its time setting.
- **Unseal evaluator** (`Unseal`, from `client/src/state/unseal.ts`). From the target and now, it decides one of four things: sealed; one-shot unsealed for good; recurring unsealed inside the display window; or recurring past the window, which rolls over to the resolver's next target. `justUnsealed` is derived from the elapsed time (< 3000 ms) and is never stored.
- **Countdown controller** (`Countdown`, from `client/src/hooks/useUtcCountdown.ts`). It is a class with the hook's three state cells: the `isConfigValid` flag, the target instant, and the snapshot. Each `Tick` does exactly one of three things: it marks the configuration invalid, replaces the target without writing a snapshot, or writes a fresh snapshot. `Tick` is proved against the pure function `Step`, and the properties are lemmas about `Step` and `Decide`.

Instants are integer milliseconds since the epoch. They follow the time values of ECMA-262, section 21.4.1:
- every day is 86 400 000 ms;
- `Day(t) = floor(t / msPerDay)`;
- `WeekDay(t) = (Day(t) + 4) mod 7`.

Under this model, `Date.UTC(y, m, d + k, hh, mm, ss)` built from now's date is `StartOfDay(now) + k * MsPerDay + TimeOfDayMs(hh, mm, ss)` for any year outside 0..99, and `setUTCDate(+1)` adds one day (module `UtcTime`).

The configuration is the explicit value `Config.AppConfig`. It has:
- the one-shot setting: `Unset`, `Unparsable` or `Instant(ms)`;
- the mode;
- the daily clock time;
- the weekly day and clock time;
- `displayWindowSeconds`.

Each tick and each mount receives the configuration read as an `Option` (`None` when no configuration is available) and a single clock sample `now`.

On these points the model follows the code:
- When resolution fails on mount, the target falls back to the current time. Ticking does not stop.
- The `isConfigValid` cell that a tick clears is separate from the returned snapshot. A tick never writes `false` into the snapshot. Only the initial configuration-error record carries `false`.
- `timeRemaining` is set on every path of the evaluator, so it is a plain field here.

## Model

| member | source | states |
|---|---|---|
| `Schedule.NextTargetDate` | client/src/config/schedule.ts:4-84 | A parsed one-shot instant is returned unchanged whatever the mode. An unparsable one gives `InvalidTargetDate`. Without a one-shot instant, resolution succeeds iff the mode is daily or weekly with its time setting present, and fails otherwise with `InvalidScheduleConfiguration`. A complete daily setting resolves to `NextDaily` and a complete weekly one to `NextWeekly`, the next occurrences characterised by the two lemmas below. |
| `Schedule.DailyIsNextOccurrence` | client/src/config/schedule.ts:19-37 | For a valid clock time, the daily result is strictly after now and at most one day later. Its UTC time of day is `((h*60+m)*60+s)*1000`. It is exactly today's moment plus one day when today's moment is at or before now (the tie counts as passed). No instant with that time of day lies between now and it. |
| `Schedule.WeeklyIsNextOccurrence` | client/src/config/schedule.ts:40-81 | For a day in [0,6] and a valid clock time, the weekly result is strictly after now and at most 7 days later. It falls on the configured weekday at the configured time. On the target day with the moment at or before now, it is that moment plus 7 days. No matching instant lies between now and it. |
| `Schedule.RecurringTargetIsAfterNow` | client/src/config/schedule.ts:16-81 | A complete recurring configuration with valid ranges always resolves, to an instant in (now, now + 7 days]. |
| `Schedule.RecurringIffClockMatters` | client/src/config/schedule.ts:86-89 | For a one-shot setting or a complete schedule in range, the mode is recurring iff resolving at any instant `now` and at `now` plus 7 days gives different targets: recurrence is exactly when the clock matters. |
| `Schedule.NonRecurringIgnoresNow` | client/src/config/schedule.ts:86-89 | Outside recurring mode (a one-shot setting is present, or the mode is neither daily nor weekly), resolution gives the same instant or the same error at every `now`. |
| `Schedule.DailyMidnightExample` | client/src/config/schedule.ts:22-34 | Daily `00:00:00` at 2024-01-01T23:00:00Z resolves to 2024-01-02T00:00:00Z. |
| `Schedule.WeeklyTieExample` | client/src/config/schedule.ts:45-63 | 2024-01-01 is a Monday. Weekly `1-12:00:00` exactly at 2024-01-01T12:00:00Z resolves to 2024-01-08T12:00:00Z. |
| `Unseal.GetUnsealState` | client/src/state/unseal.ts:12-60 | It fails only past a recurring window when the resolver throws. It is unsealed iff `target - now <= 0` and, in recurring mode, the elapsed time is within the window (inclusive). `shouldShowFeedGrid == isUnsealed`. `justUnsealed` iff unsealed and elapsed < 3000 ms. `nextTargetDate` is present iff the target is recurring and past the window, and then it is the resolver's value with `timeRemaining = next - now`. Otherwise `timeRemaining` is `target - now` while sealed and 0 once unsealed. |
| `Unseal.SealedIff` | client/src/state/unseal.ts:13-23 | Sealed iff `target - now > 0`. Then all three flags are false, there is no next target, and `timeRemaining = target - now`. |
| `Unseal.OneShotStaysUnsealed` | client/src/state/unseal.ts:25-33 | Outside recurring mode, unsealed at `now` implies unsealed at every later instant for the same target, with the grid shown, `timeRemaining` 0 and no next target. |
| `Unseal.JustUnsealedBoundary` | client/src/state/unseal.ts:26-47 | `justUnsealed` holds at `now == target` when the window is non-negative. It is false at every `now >= target + 3000`. |
| `Unseal.RecurringWithinWindow` | client/src/state/unseal.ts:35-47 | In recurring mode with `target <= now <= target + displayWindowSeconds*1000`, the state is unsealed and shown, with no next target. |
| `Unseal.RolloverIsAhead` | client/src/state/unseal.ts:49-59 | Past the window, with a complete validated recurring schedule, all three flags are false and a next target strictly after now is present. `timeRemaining` is then positive. |
| `Unseal.DailyMidnightScenario` | client/src/state/unseal.ts:36-47 | Daily `00:00:00`: resolved at 2024-01-01T23:00:00Z, the target is 2024-01-02T00:00:00Z, and at that instant the evaluator reports unsealed and just unsealed. |
| `Countdown.InitialState` | client/src/hooks/useUtcCountdown.ts:32-73 | Without a configuration, the initial snapshot is the all-zero "Configuration Error" record with phase `A` and `isConfigValid` false. With a configuration, it succeeds exactly when the evaluator does. It then reports the evaluator's flags for the initial target, the remaining-time collaborator's values for (target, now), and the classifier's phase for that remaining time, and it is marked valid. |
| `Countdown.InitialTarget` | client/src/hooks/useUtcCountdown.ts:24-30 | The initial target is whatever the resolver returns when it succeeds: a one-shot instant verbatim, and for a complete recurring schedule in range an instant strictly after now. It falls back to now when there is no configuration or resolution throws. |
| `Countdown.InitialTargetIsNextOccurrence` | client/src/hooks/useUtcCountdown.ts:24-27 | For a complete recurring schedule in range, the target set on mount is the configured daily time of day (or weekly weekday and time), and no such occurrence lies strictly between now and it. |
| `Countdown.InitialStateFailsOnlyOnNegativeWindow` | client/src/hooks/useUtcCountdown.ts:56-58 | The initial snapshot can fail to evaluate only for a recurring mode whose time setting is missing, together with a negative display window. |
| `Countdown.Decide` | client/src/hooks/useUtcCountdown.ts:77-95 | A tick marks the configuration invalid iff there is no configuration or the evaluator fails. It replaces the target only in recurring mode past the window, with the resolver's next target. Otherwise it writes a snapshot from an evaluator result that carries no next target. |
| `Countdown.Step` | client/src/hooks/useUtcCountdown.ts:77-116 | The flag records whether the tick could evaluate. A rollover installs the evaluator's next target and leaves the snapshot unchanged. A normal tick keeps the target and writes a snapshot of the evaluator's flags, the collaborator's remaining time and the classifier's phase, marked valid. A marked-invalid tick changes nothing else. The snapshot invariant (consistent flags; `isConfigValid` false only in the error record) is preserved. |
| `Countdown.NormalTickSnapshot` | client/src/hooks/useUtcCountdown.ts:96-111 | A written snapshot is for the unchanged target and is marked valid. It is unsealed iff the target is reached (and, in recurring mode, the window has not passed). It is shown iff unsealed, and just unsealed iff elapsed < 3000 ms. Its `remainingMs`, `h`, `m` and `s` are the remaining-time collaborator's values for (target, now). Its `phaseInfo` is the classifier's for that remaining time, and `phase` is `phaseInfo.phase`. |
| `Countdown.OneShotTickWritesSnapshot` | client/src/hooks/useUtcCountdown.ts:88-111 | Outside recurring mode, a tick never replaces the target. It always writes a valid snapshot, unsealed iff `target <= now`. |
| `Countdown.RolloverSettlesInOneTick` | client/src/hooks/useUtcCountdown.ts:88-94 | With a complete validated recurring schedule, a rollover moves the target strictly after now. A second tick at the same instant writes a sealed snapshot instead of rolling over again. |
| `Countdown.RunKeepsSnapshotInvariant` | client/src/hooks/useUtcCountdown.ts:77-116 | Over any sequence of ticks, the snapshot keeps consistent flags. Its `isConfigValid` is false only in the configuration-error record. |
| `Countdown.OneShotNeverReseals` | client/src/hooks/useUtcCountdown.ts:88-111 | Outside recurring mode, an unsealed snapshot stays unsealed and shown over every sequence of ticks at or after the target. The target is never replaced. |
| `Countdown.RunTargetNeverMovesBack` | client/src/hooks/useUtcCountdown.ts:91-94 | With in-range settings, no sequence of ticks moves the target earlier. |
| `Countdown.CountdownController.constructor` | client/src/hooks/useUtcCountdown.ts:23-73 | Mounting sets the flag to false, the target from its initialiser and the snapshot from its initialiser, and establishes the snapshot invariant. |
| `Countdown.CountdownController.Tick` | client/src/hooks/useUtcCountdown.ts:77-116 | The cells after a tick are `Step` of the cells before it. The snapshot invariant is kept. |

## Left out

- The 250 ms interval and the `visibilitychange`/`focus` listeners with their teardown (client/src/hooks/useUtcCountdown.ts:118-147) are host scheduling. The model has only "a tick happens": a call to `Tick`, or a sequence of ticks as `Countdown.Run`.
- Clock reads become one `now` per tick and per mount. The source samples the clock separately in the resolver (client/src/config/schedule.ts:16), in the evaluator's default argument, and in `getRemainingTime` (client/src/hooks/useUtcCountdown.ts:96). The model does not capture the few milliseconds of drift between those samples.
- `getAppConfig` and `getValidatedAppConfig` become one `Option<AppConfig>` parameter. The model assumes both reads agree within one tick or mount. Their validation is not part of this model. The ranges it is assumed to guarantee appear as `ValidRanges` hypotheses of the lemmas that need them.
- The `HH:MM:SS` and `D-HH:MM:SS` strings (`split`, `Number`, `parseInt`) and `parseIsoUtcSafe` are not modelled. Values arrive as integers, and the ISO instant as `Instant(ms)` or `Unparsable`. NaN arising from malformed numbers is not modelled.
- JavaScript's `Date` range limit (±8.64e15 ms, beyond which a date is invalid) is not modelled. Instants are unbounded integers.
- `Date.UTC` reads a year in 0..99 as 1900 + year. For a `now` in those years, the source's daily and weekly targets (client/src/config/schedule.ts:22-29, 50-57, 71-78) land about 1900 years later than `NextDaily` and `NextWeekly`. The model holds only for years outside 0..99.
- `getRemainingTime` and `getPhaseFromRemaining` (utils/time, state/phases) are not part of this model. They are the arbitrary total functions of `Countdown.Collaborators`. The phase classifier receives the remaining milliseconds instead of the floating-point seconds `totalMs / 1000`. Since the classifier is arbitrary, no information is lost.
- Countdown.CountdownController.constructor: requires the initial snapshot to evaluate. In the source, an evaluator error in the state initialiser is not caught and the first render throws. `InitialStateFailsOnlyOnNegativeWindow` shows when that can happen, under the model's single clock sample. The source samples the clock separately for the fallback target (client/src/hooks/useUtcCountdown.ts:28) and in the evaluator's default argument (client/src/state/unseal.ts:12). So with a zero display window and a recurring mode missing its time setting, a 1 ms gap between the two samples already makes the first render throw. The model does not capture that.
- React's deferred state updates are not modelled. The model applies each write at once. Each path writes each cell at most once, except the error path, which writes the flag `true` and then `false`; the last write wins there as it does in React.
- The components (client/src/components/*.tsx) are presentation. The GitHub upload scripts are network and filesystem tooling. Neither is part of the temporal core.
