# Pomodoro timer — a Dafny model

This project models the logic at the centre of a Pomodoro web application and proves
properties of it. The application is a React front end with a focus/break countdown,
persisted timer settings, a dashboard with a settings form, a registration page, and a
simpler timer hook in the public front end.

The main part is the countdown and cycle state machine of the app hook
(`app/src/hooks/usePomodoro.ts`). The hook keeps a wall-clock deadline and arms one interval.
Each tick computes the remaining milliseconds, shows them as whole seconds rounded up, and
publishes a second only when it changes. It flips focus and break at the end of a cycle,
counts focus cycles and requests a session log. It then either starts the next mode or
waits idle at its full duration. Its settings are read from and written back to the
`pomodoro:settings` storage key.

The model has two layers:

- `AppTimerSpec` states every command as a function from the state before to the state after.
- `AppTimer.Pomodoro` is a class whose fields are the hook's refs and state. Its methods update
  them in the hook's order. Each method is proved to end in the state its function gives.

The invariant `AppTimerSpec.Valid` holds from mounting on, whatever commands follow:

- a deadline is set exactly when an interval is armed, exactly when the timer runs;
- the displayed second is the ceiling of the displayed milliseconds;
- reloading from the storage key gives back the current settings, when both durations are
  positive (the hook itself accepts any durations; only the dashboard form insists on a minute).

The last point holds for the cycle end as intended, which the model uses. The cycle end
as the interval actually runs it reads `autoStart` from the render that started the
timer, and so breaks that point; see the row under "## Findings".

Alongside the hook, the project models these smaller pieces:

- the dashboard's short duration label, button text, form validation, hours/minutes
  decomposition, presets, progress ring and handlers;
- the registration page's error-message extraction and translation, and its loading and
  error state;
- the public timer hook with its two copies of the exhaustion rule;
- `formatTime` and `getMicrocopy`.

Modules, one concern each:

- `Wrappers`: Option and Result.
- `Numbers`: the JavaScript arithmetic used, namely truncating `%`, `Math.ceil(ms / 1000)`
  and `Math.round(s / 60)`.
- `Decimal`: `String(n)` for integers, and digit parsing.
- `Settings`: the stored record, its reading and its defaults.
- `AppTimerSpec`, `AppTimer`, `AppTimerProperties`, `AppTimerStaleClosure`: the app hook.
- `DashboardForm`, `DashboardPage`: the dashboard.
- `Register`: the registration page.
- `PublicTimer`: the public hook.
- `TimeFormat`: `formatTime`.
- `Microcopy`: `getMicrocopy`.

Cross-cutting modelling choices:

- The clock is an integer `now` argument.
- The interval is a boolean `armed` and the deadline an `Option<int>`.
- The chime, the requested session logs and the storage writes are counted or recorded as
  effects.
- React refs and the state they mirror (`modeRef`/`mode`, and so on) are one field each.
- Commands run one after another.

## Model

| member | source | states |
|---|---|---|
| Numbers.TruncRem | public/src/utils/time.ts:3 | JavaScript `%`: a − b·q with q the quotient truncated toward zero; the Euclidean remainder for a non-negative dividend, a value in (-b, 0] for a negative one |
| Numbers.CeilThousandth | app/src/hooks/usePomodoro.ts:90 | `Math.ceil(ms / 1000)`: the least s with ms <= 1000·s |
| Numbers.RoundSixtieth | app/src/pages/Dashboard.tsx:70 | `Math.round(s / 60)` on integers: the m with 60·m − 30 <= s < 60·m + 30, so halves round up |
| Decimal.NatToString | public/src/utils/time.ts:5-6 | `String(n)` for n >= 0: non-empty and all digits; one digit exactly when n < 10, at most two exactly when n < 100; no leading zero from 10 on |
| Decimal.IntToString | public/src/utils/time.ts:5-6 | `String(i)`: non-empty, starting with '-' exactly when i < 0; what follows the sign is a digit string that reads back as the magnitude of i |
| Decimal.ParseNatToString | public/src/utils/time.ts:5-6 | reading the digits of `String(n)` gives n back |
| Decimal.CanonicalReadsBack | public/src/utils/time.ts:5-6 | a non-empty digit string with no leading zero is `String` of its value, so `String` prints no other digit string for that value |
| Settings.ReadStoredSettings | app/src/hooks/usePomodoro.ts:19-30 | a parsed entry is returned and left in place; text JSON.parse rejects is removed and read as absent; an absent key reads as absent |
| Settings.ReadStoredSettingsStable | app/src/hooks/usePomodoro.ts:19-30 | a second read after the clean-up reads the same, and restores the same settings |
| Settings.InitialSettings | app/src/hooks/usePomodoro.ts:33-50 | both durations are positive; with nothing stored, all defaults; a duration is the stored number exactly when that is a number > 0, else its default; the mode is break exactly when "break" is stored; auto-start is off exactly when `false` is stored |
| Settings.Encode | app/src/hooks/usePomodoro.ts:103-111 | the written record always carries all four properties |
| Settings.RestoredEncode | app/src/hooks/usePomodoro.ts:97-112 | loading a record written from settings with positive durations gives back exactly those settings |
| AppTimerSpec.Flip | app/src/hooks/usePomodoro.ts:255 | the next mode always differs from the current one |
| AppTimerSpec.SecondsFor | app/src/hooks/usePomodoro.ts:90 | the shown second is never negative; it is 0 for no time left and otherwise the ceiling of ms/1000 |
| AppTimerSpec.Remaining | app/src/hooks/usePomodoro.ts:162-163 | the clamped remaining time is never negative; it is 0 exactly when now >= deadline, and otherwise deadline − now |
| AppTimerSpec.Init | app/src/hooks/usePomodoro.ts:33-79 | the mounted state is valid, and idle with no cycles; its settings are those the stored entry restores; it shows the selected mode's full duration in seconds and ×1000 in ms; a malformed entry has been removed |
| AppTimerSpec.StopInterval | app/src/hooks/usePomodoro.ts:81-87 | disarms and clears the deadline, nothing else; on a stopped timer it changes nothing |
| AppTimerSpec.Snap | app/src/hooks/usePomodoro.ts:203-205 | shows d seconds, d·1000 ms, and d as the last synced second (a consistent display); nothing else changes |
| AppTimerSpec.SyncTick | app/src/hooks/usePomodoro.ts:89-95 | the last synced second becomes max(0, ceil(ms/1000)); when that equals the previous one nothing changes, otherwise the second and ms are published; valid stays valid |
| AppTimerSpec.PersistSettings | app/src/hooks/usePomodoro.ts:97-112 | writes one record with all four settings, each the passed value or else the current one; loading it restores them; nothing else changes |
| AppTimerSpec.Start | app/src/hooks/usePomodoro.ts:150-159 | a no-op while running; otherwise running and armed with deadline now + timeLeft·1000, chiming unless resuming from pause; nothing else changes; valid stays valid |
| AppTimerSpec.StartWithDuration | app/src/hooks/usePomodoro.ts:171-178 | a no-op while an interval is armed; otherwise shows the full duration, runs and is armed with deadline now + duration·1000; valid stays valid |
| AppTimerSpec.Pause | app/src/hooks/usePomodoro.ts:190-194 | acts only from running: paused and disarmed, with the displayed time frozen; valid stays valid |
| AppTimerSpec.Reset | app/src/hooks/usePomodoro.ts:196-207 | idle, disarmed, same mode at its full duration, no cycles; settings, storage, log and chimes untouched; valid stays valid |
| AppTimerSpec.SelectMode | app/src/hooks/usePomodoro.ts:209-222 | idle, disarmed, in the chosen mode at its full duration; durations, auto-start and cycles kept; the new settings written; valid stays valid |
| AppTimerSpec.SetDurations | app/src/hooks/usePomodoro.ts:224-236 | idle, disarmed, with the new durations and the current mode at its new duration; the new settings written; valid stays valid |
| AppTimerSpec.SetAutoStartPreference | app/src/hooks/usePomodoro.ts:238-242 | only the flag changes (besides the write), and the new settings are written; valid stays valid |
| AppTimerSpec.HandleCycleEnd | app/src/hooks/usePomodoro.ts:244-281 | the mode flips; cycles increase by one exactly when focus ended; a (FOCUS, focus) or (BREAK, break) log is requested; one chime; the flipped settings are written; with auto-start, running on the new mode from now; without it, idle at the new mode's full duration; valid stays valid |
| AppTimerSpec.Tick | app/src/hooks/usePomodoro.ts:160-168 | without a (truthy) deadline nothing happens; before the deadline it is a sync of deadline − now, keeping the deadline and state and showing ceil((deadline − now)/1000); at or after it, the cycle ends; valid stays valid |
| AppTimerSpec.CycleEndIgnoresDisplay | app/src/hooks/usePomodoro.ts:164-166 | the sync made just before a cycle end leaves no trace in the state after it |
| AppTimer.Pomodoro.constructor | app/src/hooks/usePomodoro.ts:33-79 | the fields start valid and equal to `Init` of the stored entry |
| AppTimer.Pomodoro.StopInterval | app/src/hooks/usePomodoro.ts:81-87 | the new state is `StopInterval` of the old |
| AppTimer.Pomodoro.SnapTo | app/src/hooks/usePomodoro.ts:203-205 | the new state is `Snap` of the old |
| AppTimer.Pomodoro.PlayBeep | app/src/hooks/usePomodoro.ts:114-148 | one chime more, nothing else |
| AppTimer.Pomodoro.RegisterSession | app/src/hooks/usePomodoro.ts:251-253 | one log request appended, nothing else |
| AppTimer.Pomodoro.SyncTick | app/src/hooks/usePomodoro.ts:89-95 | the new state is `SyncTick` of the old |
| AppTimer.Pomodoro.PersistSettings | app/src/hooks/usePomodoro.ts:97-112 | the new state is `PersistSettings` of the old |
| AppTimer.Pomodoro.Start | app/src/hooks/usePomodoro.ts:150-159 | keeps `Valid`; the new state is `Start` of the old |
| AppTimer.Pomodoro.StartWithDuration | app/src/hooks/usePomodoro.ts:171-188 | the new state is `StartWithDuration` of the old |
| AppTimer.Pomodoro.Tick | app/src/hooks/usePomodoro.ts:160-168 | keeps `Valid`; the new state is `Tick` of the old |
| AppTimer.Pomodoro.Pause | app/src/hooks/usePomodoro.ts:190-194 | keeps `Valid`; the new state is `Pause` of the old |
| AppTimer.Pomodoro.Reset | app/src/hooks/usePomodoro.ts:196-207 | keeps `Valid`; the new state is `Reset` of the old |
| AppTimer.Pomodoro.SelectMode | app/src/hooks/usePomodoro.ts:209-222 | keeps `Valid`; the new state is `SelectMode` of the old |
| AppTimer.Pomodoro.SetDurations | app/src/hooks/usePomodoro.ts:224-236 | keeps `Valid`; the new state is `SetDurations` of the old |
| AppTimer.Pomodoro.SetAutoStartPreference | app/src/hooks/usePomodoro.ts:238-242 | keeps `Valid`; the new state is `SetAutoStartPreference` of the old |
| AppTimerSpec.EndCycle | app/src/hooks/usePomodoro.ts:244-257 | interval stopped and idle, the mode flipped, a finished focus counted, the finished mode's session requested, one chime, a record of the state's settings written and stored, and nothing else changed |
| AppTimer.Pomodoro.EndCycle | app/src/hooks/usePomodoro.ts:244-257 | the new state is `EndCycle` of the old: stopped and idle, a finished focus counted, the log requested, one chime, the mode flipped and stored |
| AppTimer.Pomodoro.HandleCycleEnd | app/src/hooks/usePomodoro.ts:244-281 | the new state is `HandleCycleEnd` of the old |
| AppTimerProperties.RunKeepsValid | app/src/hooks/usePomodoro.ts:150-242 | from any valid state, the mounted one included, after any sequence of start, tick, pause, reset, mode, duration and auto-start commands, the invariant holds, so one interval at most is armed and it is armed exactly while running |
| AppTimerProperties.NoDoubleArming | app/src/hooks/usePomodoro.ts:150-172 | on an armed timer both start paths change nothing |
| AppTimerProperties.TickNeverIncreases | app/src/hooks/usePomodoro.ts:160-168 | with a fixed deadline and a clock that does not go back, a later tick never shows a larger second |
| AppTimerProperties.ResumeUsesWholeSeconds | app/src/hooks/usePomodoro.ts:150-159 | resuming from pause does not chime, and re-arms at now + timeLeft·1000, between 0 and 999 ms after the frozen remaining time |
| AppTimerProperties.PauseResumeKeepsElapsed | app/src/hooks/usePomodoro.ts:150-194 | 100 s started, 40 s elapse, a pause of 500 s: 60 s shown, and the resumed deadline is 60 s ahead |
| AppTimerProperties.CycleEndsOnce | app/src/hooks/usePomodoro.ts:160-188 | a tick at or past the deadline requests the log once; another tick before the next deadline requests nothing more |
| AppTimerProperties.AutoStartScenario | app/src/hooks/usePomodoro.ts:244-281 | focus 1500 s / break 300 s with auto-start: FOCUS logged and a 300 s break running after 1500 s, then BREAK logged, focus running and one cycle counted after 1800 s |
| AppTimerProperties.SetDurationsIdempotent | app/src/hooks/usePomodoro.ts:224-236 | setting the same durations twice is setting them once, plus one identical write |
| AppTimerProperties.CycleEndWithoutAutoStart | app/src/hooks/usePomodoro.ts:258-264 | without auto-start the cycle end leaves the new mode idle at its full duration, and a further tick changes nothing |
| AppTimerStaleClosure.HandleCycleEndAsWritten | app/src/hooks/usePomodoro.ts:244-257 | the cycle end as the interval runs it: everything as intended, but the record written carries the auto-start flag of the render that started the timer |
| AppTimerStaleClosure.StaleAutoStartIsPersisted | app/src/hooks/usePomodoro.ts:238-257 | started with auto-start on and switched off while running, the cycle end leaves auto-start off while the stored record restores it on |
| AppTimerStaleClosure.CycleEndPersistsCurrentSettings | app/src/hooks/usePomodoro.ts:244-281 | the intended cycle end stores the current settings: loading restores exactly the state's durations, mode and flag |
| DashboardForm.TotalMinutes | app/src/pages/Dashboard.tsx:70 | at least one minute; for at least 30 s, the nearest whole minute with halves rounded up; below 90 s, exactly one |
| DashboardForm.FormatShort | app/src/pages/Dashboard.tsx:69-76 | the label starts with a digit, and ends in "h" exactly when the total is a positive whole number of hours |
| DashboardForm.FormatShortParsesBack | app/src/pages/Dashboard.tsx:69-76 | the label reads back, as "Mmin" (M in [1, 60)), "Hh" or "Hh Mmin" (H >= 1, M in [1, 60), no leading zeros), as exactly the rounded total minutes |
| DashboardForm.ParseShortInverse | app/src/pages/Dashboard.tsx:69-76 | a text read back as v minutes is the label of v: "Mmin" below an hour, "Hh" on whole hours, "Hh Mmin" otherwise |
| DashboardForm.FormatShortIsTheOnlyLabel | app/src/pages/Dashboard.tsx:69-76 | a text reads back as the rounded total minutes exactly when it is the label of the duration, so "90min", "0h 30min" or "01h" are never printed |
| DashboardForm.GetButtonText | app/src/pages/Dashboard.tsx:78-83 | the text starts with "P" (Pausar) exactly when the timer runs |
| DashboardForm.ButtonTextOnlyRunningMatters | app/src/pages/Dashboard.tsx:78-83 | two texts are equal exactly when the modes are equal and both or neither are running |
| DashboardForm.ValidateDurations | app/src/pages/Dashboard.tsx:99-111 | accepted exactly when both raw totals are at least 60 s, and then the totals are h·3600 + m·60 exactly; otherwise the minimum-duration message |
| DashboardForm.HoursOf | app/src/pages/Dashboard.tsx:120-122 | the whole hours h with 3600·h <= d < 3600·(h + 1) |
| DashboardForm.MinutesOf | app/src/pages/Dashboard.tsx:121-123 | the m with 60·m <= d % 3600 < 60·(m + 1), JavaScript's `%` keeping the sign of d; in [-60, 60), and in [0, 60) for d >= 0 |
| DashboardForm.Recombine | app/src/pages/Dashboard.tsx:100-101 | a whole number of minutes, non-negative from non-negative fields, and with minutes in [0, 60) its whole hours are the hours field |
| DashboardForm.DecomposeRecombine | app/src/pages/Dashboard.tsx:119-125 | for d >= 0, minutes lie in [0, 60); recombining loses less than a minute, and gives d back exactly when d is a multiple of 60 |
| DashboardForm.RecombineDecompose | app/src/pages/Dashboard.tsx:119-125 | hours >= 0 and minutes < 60 decompose back to themselves |
| DashboardForm.PresetsRoundTrip | app/src/pages/Dashboard.tsx:113-117 | each of the three presets, decomposed into the form, validates back to exactly its durations |
| DashboardForm.OpenThenApplyKeepsDurations | app/src/pages/Dashboard.tsx:99-125 | opening the form on whole-minute durations and saving it unchanged submits the same durations |
| DashboardForm.ProgressAngle | app/src/pages/Dashboard.tsx:263-271 | the angle is in [0, 360]; it is not-a-number exactly for 0 ms of a zero duration |
| DashboardForm.ProgressAngleExact | app/src/pages/Dashboard.tsx:263-271 | within the duration the angle is ms·360 / (duration·1000) |
| DashboardForm.ProgressAngleMonotone | app/src/pages/Dashboard.tsx:263-271 | for a positive duration, less time left never gives a larger angle |
| DashboardPage.Page.constructor | app/src/pages/Dashboard.tsx:57-65 | the form starts at 0 h 25 min and 0 h 5 min, closed, without error, notice or pulse; the timer starts mounted |
| DashboardPage.Page.HandleStartPause | app/src/pages/Dashboard.tsx:85-97 | the pulse key increases by one and the pulse shows; the timer is paused exactly when it was running, started otherwise; the form is untouched |
| DashboardPage.Page.ApplyDurations | app/src/pages/Dashboard.tsx:99-111 | on rejection only the error is set; on acceptance the error is cleared, the timer gets exactly the totals, the form closes and the saved notice shows |
| DashboardPage.Page.OpenSettings | app/src/pages/Dashboard.tsx:119-125 | the form holds the timer's durations as hours and minutes, and is open |
| DashboardPage.Page.ChoosePreset | app/src/pages/Dashboard.tsx:721-730 | the form holds the preset's durations as hours and minutes; nothing else changes |
| DashboardPage.Page.ApplyPreset | app/src/pages/Dashboard.tsx:99-130 | choosing a preset and saving sets the timer to exactly the preset's durations, with no error |
| Register.GetApiErrorMessage | app/src/pages/Register.tsx:348-355 | none for a non-object (null included) or an object without `response`; a message exactly when `response.data.message` is a string, and then that string |
| Register.ExtractsServerMessage | app/src/pages/Register.tsx:348-355 | for a rejection carrying a body, the extracted message is the body's string `message`, and none when it has no string there |
| Register.RegistrationErrorText | app/src/pages/Register.tsx:52-60 | the three known server messages become their fixed Portuguese texts; any other message is shown unchanged; no message gives the generic text |
| Register.GenericOnlyWithoutMessage | app/src/pages/Register.tsx:52-60 | the generic text appears exactly when there is no message or the message is that text; an empty message is shown as empty |
| Register.RegisterForm.constructor | app/src/pages/Register.tsx:14-18 | empty credentials, not loading, no error |
| Register.RegisterForm.Begin | app/src/pages/Register.tsx:43-47 | the error is cleared, loading is set, and one request with the current credentials goes out |
| Register.RegisterForm.Settle | app/src/pages/Register.tsx:47-63 | loading ends; on success the page goes to the dashboard, on failure the translated message is the error |
| Register.RegisterForm.HandleRegister | app/src/pages/Register.tsx:42-64 | one request; loading ends; the error is set exactly when the request failed, to the translated message |
| PublicTimer.StartSpec | public/src/hooks/usePomodoro.ts:18-20 | only `isRunning` changes, to true |
| PublicTimer.PauseSpec | public/src/hooks/usePomodoro.ts:22-24 | only `isRunning` changes, to false |
| PublicTimer.ResetSpec | public/src/hooks/usePomodoro.ts:26-31 | exactly the initial state (focus, 1500 s, not running, 0 cycles) |
| PublicTimer.ExhaustionSpec | public/src/hooks/usePomodoro.ts:33-45 | with time left nothing changes; at zero focus becomes (break, 300) and counts a cycle, break becomes (focus, 1500) |
| PublicTimer.CommitSpec | public/src/hooks/usePomodoro.ts:33-58 | both effects on one render: nothing with time left; a focus exhaustion gives (break, 300), two more cycles and one session post; a break exhaustion gives (focus, 1500); afterwards time is left |
| PublicTimer.CommitSettles | public/src/hooks/usePomodoro.ts:33-58 | the render after the effects triggers no further change |
| PublicTimer.FocusExhaustionCountsTwice | public/src/hooks/usePomodoro.ts:33-58 | an exhausted focus render ends with two counted cycles and one post |
| PublicTimer.NeverExhausts | public/src/hooks/usePomodoro.ts:10-58 | from the initial state no sequence of start, pause and reset reaches an exhaustion: focus, 1500 s, no cycles, no posts |
| PublicTimer.PublicPomodoro.constructor | public/src/hooks/usePomodoro.ts:11-14 | the hook starts in the initial state |
| PublicTimer.PublicPomodoro.Start | public/src/hooks/usePomodoro.ts:18-20 | the new state is `StartSpec` of the old |
| PublicTimer.PublicPomodoro.Pause | public/src/hooks/usePomodoro.ts:22-24 | the new state is `PauseSpec` of the old |
| PublicTimer.PublicPomodoro.Reset | public/src/hooks/usePomodoro.ts:26-31 | the new state is `ResetSpec` of the old |
| PublicTimer.PublicPomodoro.RunExhaustionEffect | public/src/hooks/usePomodoro.ts:33-45 | the new state is `ExhaustionSpec` of the old for the render's snapshot |
| PublicTimer.PublicPomodoro.CommitEffects | public/src/hooks/usePomodoro.ts:33-58 | the new state is `CommitSpec` of the old |
| PublicTimer.DoubleCountWitness | public/src/hooks/usePomodoro.ts:33-58 | running both effects on an exhausted focus render counts two cycles |
| TimeFormat.PadStart | public/src/utils/time.ts:5-6 | the length is max(width, length of s); s is the suffix, preceded only by the fill character; nothing is truncated |
| TimeFormat.ClockParts | public/src/utils/time.ts:2-3 | for s >= 0: minutes = s div 60, seconds = s mod 60 in [0, 60), and minutes·60 + seconds = s |
| TimeFormat.PaddedDigits | public/src/utils/time.ts:5-6 | zero-padding a digit string to two characters keeps it a digit string with the same value |
| TimeFormat.FormatTime | public/src/utils/time.ts:1-8 | for s >= 0, at least five characters, ':' third from the end, digits on both sides of it (two after it), the part before reading as s div 60 and the part after as s mod 60 |
| TimeFormat.FormatTimeParsesBack | public/src/utils/time.ts:1-8 | for s >= 0, reading "mm:ss" back (zero-padded minutes, two digits of seconds below 60) as mm·60 + ss gives s |
| TimeFormat.PaddedCanonicalReadsBack | public/src/utils/time.ts:5-6 | a digit string of at least two characters, with a leading zero only at two, is `String(n).padStart(2, '0')` of its value n |
| TimeFormat.ParseClockInverse | public/src/utils/time.ts:1-8 | a text read back as v seconds is `formatTime(v)`, and v >= 0 |
| TimeFormat.FormatTimeIsTheOnlyText | public/src/utils/time.ts:1-8 | for s >= 0, a text reads back as s exactly when it is `formatTime(s)`, so "00:61" or "1:01" are never printed |
| TimeFormat.FormatTimeShape | public/src/utils/time.ts:5-8 | for 0 <= s < 6000 the text has length 5 with ':' at index 2 |
| Microcopy.GetMicrocopy | public/src/utils/microcopy.ts:4-21 | a focus line exactly in focus and a break line exactly in a break; idle is the fall-through of each mode |
| Microcopy.GetMicrocopyInjective | public/src/utils/microcopy.ts:4-21 | the six (mode, state) pairs give six different lines |

## Findings

| source | as written | input that shows it | evidently intended | confidence | as-written member | corrected member |
|---|---|---|---|---|---|---|
| app/src/hooks/usePomodoro.ts:257 | the interval callback belongs to the render that started the timer, so the cycle end's `persistSettings` writes that render's `autoStart` | start with auto-start on, switch it off while running, reach the deadline: the hook continues with auto-start off, the stored record says on (`AppTimerStaleClosure.StaleAutoStartIsPersisted`) | the record written at a cycle end holds the current settings, so a reload restores them (`AppTimerStaleClosure.CycleEndPersistsCurrentSettings`) | medium, not executed | AppTimerStaleClosure.HandleCycleEndAsWritten | AppTimerSpec.HandleCycleEnd |

## Left out

- The chime (`playBeep`, Web Audio with float gain ramps): only counted.
- Real timers and the clock (`setInterval`, `clearInterval`, `Date.now`): the interval is a flag and `now` an argument. The 100 ms cadence is not modelled, and interval ids are taken to be truthy, as browsers give them.
- Storage and `JSON.parse`/`JSON.stringify`: the key holds an optional entry, malformed or parsed. Numbers are integers, and the server-side rendering branch (`typeof window === 'undefined'`) is left out.
- Settings.InitialSettings: treats any stored duration that is not a number as absent, because the JavaScript coercions (a stored string such as "90" is truthy and compares greater than 0, so the source keeps it) are not modelled.
- HTTP (`registerPomodoroSession`, `getPomodoroSessions`, the register call): a session log is an appended request, and the register outcome is an argument. Request failures never change the timer.
- React scheduling: batching, effect timing and stale closures. Commands run one after another on the current state. The one stale closure with a visible effect, the auto-start flag written at a cycle end, is the finding above. Everything else the callback reads comes from refs or cannot change while an interval is armed.
- Floating point and number limits: durations, milliseconds and form inputs are unbounded integers. Fractional or NaN form input and precision above 2^53 are not modelled. The progress ring is in `real`, where -0 and +0 are one value.
- DashboardPage.Page: the saved notice's 2 s timeout, the Escape-key listener, the 5 s session polling, the session history list and all rendering (animations, CSS, the dialog markup).
- Register.GetApiErrorMessage: properties inherited through prototypes count as absent, and arrays and functions are not told apart from other values. The e-mail and password inputs, the show-password toggle and the idle prefetch of the login page are not modelled.
- Authentication, the token context, the HTTP client and the server are not part of this model.
