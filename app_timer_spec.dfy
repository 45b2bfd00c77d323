/** The countdown and cycle state machine of app/src/hooks/usePomodoro.ts,
    stated on values: one function per command of the hook, each giving the
    state after the command from the state before it. The class in
    app_timer.dfy runs the same commands step by step on its fields. */
module AppTimerSpec {
  import opened Wrappers
  import opened Numbers
  import opened Settings

  datatype TimerState = Idle | Running | Paused

  datatype SessionType = FOCUS | BREAK

  /** A call of `registerPomodoroSession(type, duration)`. */
  datatype SessionRequest = SessionRequest(kind: SessionType, duration: int)

  /** Everything the hook keeps. `armed` stands for `intervalRef.current !==
      null`, `deadline` for `endTimeRef.current`; `storage` is the content of
      the settings key, `writes` the records written to it, `sessionLog` the
      session logs requested and `beeps` the number of chimes played. */
  datatype Runtime = Runtime(
    mode: Mode,
    focusDuration: int,
    breakDuration: int,
    autoStart: bool,
    timeLeft: int,
    timeLeftMs: int,
    timerState: TimerState,
    cyclesCompleted: nat,
    armed: bool,
    deadline: Option<int>,
    lastSyncedSecond: int,
    storage: Option<Entry>,
    writes: seq<StoredSettings>,
    sessionLog: seq<SessionRequest>,
    beeps: nat)

  function DurationOf(s: Runtime, m: Mode): int {
    if m == Focus then s.focusDuration else s.breakDuration
  }

  function ConfigOf(s: Runtime): Config {
    Config(s.focusDuration, s.breakDuration, s.mode, s.autoStart)
  }

  function Flip(m: Mode): (n: Mode)
    ensures n != m
  {
    if m == Focus then Break else Focus
  }

  /** The invariant the commands keep:
      - an interval is armed exactly when a deadline is set, and exactly
        when the timer is running (so at most one interval exists);
      - the last synced second is the displayed second, which is the
        whole-second ceiling of the displayed milliseconds;
      - reloading the page from the stored entry gives back the current
        durations, mode and auto-start flag (while both durations are
        positive, the only values the loader accepts). */
  predicate Valid(s: Runtime) {
    (s.armed <==> s.deadline.Some?) &&
    (s.armed <==> s.timerState == Running) &&
    s.lastSyncedSecond == s.timeLeft &&
    s.timeLeft == CeilThousandth(s.timeLeftMs) &&
    (s.focusDuration > 0 && s.breakDuration > 0 ==> Restored(s.storage) == ConfigOf(s))
  }

  /** Whole seconds shown for a remaining number of milliseconds:
      `Math.max(0, Math.ceil(ms / 1000))`. */
  function SecondsFor(ms: int): (sec: int)
    ensures sec >= 0
    ensures ms >= 0 ==> (sec - 1) * 1000 < ms <= sec * 1000
    ensures ms <= 0 ==> sec == 0
  {
    Max(0, CeilThousandth(ms))
  }

  /** The tick's remaining time, `Math.max(0, end - now)`. */
  function Remaining(deadline: int, now: int): (ms: int)
    ensures ms >= 0
    ensures ms == 0 <==> now >= deadline
    ensures ms > 0 ==> ms == deadline - now
  {
    Max(0, deadline - now)
  }

  /** The state the hook starts in, read from the settings key. */
  function Init(entry: Option<Entry>): (s: Runtime)
    ensures Valid(s)
    ensures ConfigOf(s) == Restored(entry)
    ensures s.timerState == Idle && s.cyclesCompleted == 0
    ensures s.timeLeft == DurationOf(s, s.mode) && s.timeLeftMs == s.timeLeft * 1000
    ensures s.storage == (if entry == Some(Malformed) then None else entry)
    ensures s.writes == [] && s.sessionLog == [] && s.beeps == 0
  {
    var read := ReadStoredSettings(entry);
    var c := InitialSettings(read.stored);
    var d := if c.mode == Focus then c.focus else c.brk;
    ReadStoredSettingsStable(entry);
    CeilThousandthWhole(d);
    Runtime(c.mode, c.focus, c.brk, c.autoStart, d, d * 1000, Idle, 0,
            false, None, d, read.entryAfter, [], [], 0)
  }

  /** `stopInterval`: disarms and clears the deadline, and nothing else. */
  function StopInterval(s: Runtime): (r: Runtime)
    ensures !r.armed && r.deadline == None
    ensures r.(armed := s.armed, deadline := s.deadline) == s
    ensures !s.armed && s.deadline == None ==> r == s
  {
    s.(armed := false, deadline := None)
  }

  /** The same three fields every snap to a full duration sets. */
  function Snap(s: Runtime, d: int): (r: Runtime)
    ensures r.timeLeft == d && r.timeLeftMs == d * 1000 && r.lastSyncedSecond == d
    ensures r.timeLeft == CeilThousandth(r.timeLeftMs)
    ensures r.(timeLeft := s.timeLeft, timeLeftMs := s.timeLeftMs, lastSyncedSecond := s.lastSyncedSecond) == s
  {
    CeilThousandthWhole(d);
    s.(timeLeft := d, timeLeftMs := d * 1000, lastSyncedSecond := d)
  }

  /** `syncTick`: publishes a new second, or nothing when the second is the
      last one synced. */
  function SyncTick(s: Runtime, clampedMs: int): (r: Runtime)
    requires clampedMs >= 0
    ensures r.lastSyncedSecond == SecondsFor(clampedMs)
    ensures SecondsFor(clampedMs) == s.lastSyncedSecond ==> r == s
    ensures SecondsFor(clampedMs) != s.lastSyncedSecond ==>
              r == s.(lastSyncedSecond := SecondsFor(clampedMs), timeLeftMs := clampedMs,
                      timeLeft := SecondsFor(clampedMs))
    ensures Valid(s) ==> Valid(r) && r.timeLeft == SecondsFor(clampedMs)
  {
    var next := SecondsFor(clampedMs);
    if next == s.lastSyncedSecond then s
    else s.(lastSyncedSecond := next, timeLeftMs := clampedMs, timeLeft := next)
  }

  /** `persistSettings(next)`: writes all four settings, each the passed
      value or else the current one, and changes nothing else. */
  function PersistSettings(s: Runtime, focus: Option<int>, brk: Option<int>,
                           autoStart: Option<bool>, mode: Option<Mode>): (r: Runtime)
    ensures var c := Config(focus.GetOr(s.focusDuration), brk.GetOr(s.breakDuration),
                            mode.GetOr(s.mode), autoStart.GetOr(s.autoStart));
            r.writes == s.writes + [Encode(c)] &&
            r.storage == Some(Parsed(Encode(c))) &&
            (c.focus > 0 && c.brk > 0 ==> Restored(r.storage) == c)
    ensures r.(storage := s.storage, writes := s.writes) == s
  {
    var c := Config(focus.GetOr(s.focusDuration), brk.GetOr(s.breakDuration),
                    mode.GetOr(s.mode), autoStart.GetOr(s.autoStart));
    RestoredEncode(c);
    s.(storage := Some(Parsed(Encode(c))), writes := s.writes + [Encode(c)])
  }

  /** `start(now)`: a no-op while running; otherwise running with the
      deadline `now + timeLeft * 1000`, chiming only when not resuming. */
  function Start(s: Runtime, now: int): (r: Runtime)
    ensures s.timerState == Running ==> r == s
    ensures s.timerState != Running ==>
              r.timerState == Running && r.armed &&
              r.deadline == Some(now + s.timeLeft * 1000) &&
              r.beeps == (if s.timerState == Paused then s.beeps else s.beeps + 1)
    ensures r.(timerState := s.timerState, armed := s.armed, deadline := s.deadline, beeps := s.beeps) == s
    ensures Valid(s) ==> Valid(r)
  {
    if s.timerState == Running then s
    else
      var wasPaused := s.timerState == Paused;
      s.(timerState := Running,
         beeps := if wasPaused then s.beeps else s.beeps + 1,
         deadline := Some(now + s.timeLeft * 1000),
         armed := true)
  }

  /** `startWithDuration(duration, now)`: a no-op while an interval is armed;
      otherwise running a full `duration` from `now`, without a chime. */
  function StartWithDuration(s: Runtime, now: int, duration: int): (r: Runtime)
    ensures s.armed ==> r == s
    ensures !s.armed ==>
              r == Snap(s, duration).(timerState := Running, armed := true,
                                      deadline := Some(now + duration * 1000))
    ensures Valid(s) ==> Valid(r)
  {
    if s.armed then s
    else
      Snap(s, duration).(timerState := Running, deadline := Some(now + duration * 1000), armed := true)
  }

  /** `pause`: only from running; disarms and freezes the displayed time. */
  function Pause(s: Runtime): (r: Runtime)
    ensures s.timerState != Running ==> r == s
    ensures s.timerState == Running ==>
              r == StopInterval(s).(timerState := Paused)
    ensures r.timeLeft == s.timeLeft && r.timeLeftMs == s.timeLeftMs
    ensures Valid(s) ==> Valid(r)
  {
    if s.timerState != Running then s
    else StopInterval(s.(timerState := Paused))
  }

  /** `reset`: idle in the same mode at its full duration, no cycles. */
  function Reset(s: Runtime): (r: Runtime)
    ensures r.timerState == Idle && !r.armed && r.deadline == None
    ensures r.mode == s.mode && r.cyclesCompleted == 0
    ensures r.timeLeft == DurationOf(s, s.mode) && r.timeLeftMs == DurationOf(s, s.mode) * 1000
    ensures ConfigOf(r) == ConfigOf(s) && r.storage == s.storage && r.writes == s.writes
    ensures r.sessionLog == s.sessionLog && r.beeps == s.beeps
    ensures Valid(s) ==> Valid(r)
  {
    var stopped := StopInterval(s).(timerState := Idle);
    Snap(stopped, DurationOf(s, s.mode)).(cyclesCompleted := 0)
  }

  /** `selectMode(m)`: idle in mode `m` at its full duration, persisted. */
  function SelectMode(s: Runtime, m: Mode): (r: Runtime)
    ensures r.timerState == Idle && !r.armed && r.deadline == None
    ensures r.mode == m
    ensures r.timeLeft == DurationOf(s, m) && r.timeLeftMs == DurationOf(s, m) * 1000
    ensures r.focusDuration == s.focusDuration && r.breakDuration == s.breakDuration
    ensures r.autoStart == s.autoStart && r.cyclesCompleted == s.cyclesCompleted
    ensures r.writes == s.writes + [Encode(ConfigOf(r))]
    ensures r.sessionLog == s.sessionLog && r.beeps == s.beeps
    ensures Valid(s) ==> Valid(r)
  {
    var stopped := StopInterval(s).(timerState := Idle, mode := m);
    PersistSettings(Snap(stopped, DurationOf(s, m)), None, None, None, Some(m))
  }

  /** `setDurations(f, b)`: idle at the active mode's new duration, persisted. */
  function SetDurations(s: Runtime, focus: int, brk: int): (r: Runtime)
    ensures r.timerState == Idle && !r.armed && r.deadline == None
    ensures r.focusDuration == focus && r.breakDuration == brk
    ensures r.mode == s.mode && r.autoStart == s.autoStart && r.cyclesCompleted == s.cyclesCompleted
    ensures r.timeLeft == DurationOf(r, s.mode) && r.timeLeftMs == DurationOf(r, s.mode) * 1000
    ensures r.writes == s.writes + [Encode(ConfigOf(r))]
    ensures r.sessionLog == s.sessionLog && r.beeps == s.beeps
    ensures Valid(s) ==> Valid(r)
  {
    var stopped := StopInterval(s).(timerState := Idle, focusDuration := focus, breakDuration := brk);
    var d := if s.mode == Focus then focus else brk;
    PersistSettings(Snap(stopped, d), Some(focus), Some(brk), None, None)
  }

  /** `setAutoStartPreference(v)`: changes only the flag, and persists it. */
  function SetAutoStartPreference(s: Runtime, v: bool): (r: Runtime)
    ensures r.autoStart == v
    ensures r.writes == s.writes + [Encode(ConfigOf(r))]
    ensures r.(autoStart := s.autoStart, storage := s.storage, writes := s.writes) == s
    ensures Valid(s) ==> Valid(r)
  {
    PersistSettings(s.(autoStart := v), None, None, Some(v), None)
  }

  /** The session log requested when mode `m` finishes. */
  function RequestFor(s: Runtime, m: Mode): SessionRequest {
    if m == Focus then SessionRequest(FOCUS, s.focusDuration) else SessionRequest(BREAK, s.breakDuration)
  }

  /** `handleCycleEnd(now)`: disarm, count a finished focus, request the log,
      chime, flip and persist the mode, then auto-start the new mode or go
      idle at its full duration. */
  function HandleCycleEnd(s: Runtime, now: int): (r: Runtime)
    ensures r.mode == Flip(s.mode)
    ensures r.cyclesCompleted == (if s.mode == Focus then s.cyclesCompleted + 1 else s.cyclesCompleted)
    ensures r.sessionLog == s.sessionLog + [RequestFor(s, s.mode)]
    ensures r.beeps == s.beeps + 1
    ensures r.focusDuration == s.focusDuration && r.breakDuration == s.breakDuration
    ensures r.autoStart == s.autoStart
    ensures r.writes == s.writes + [Encode(ConfigOf(r))]
    ensures r.timeLeft == DurationOf(s, r.mode) && r.timeLeftMs == DurationOf(s, r.mode) * 1000
    ensures !s.autoStart ==> r.timerState == Idle && !r.armed && r.deadline == None
    ensures s.autoStart ==>
              r.timerState == Running && r.armed && r.deadline == Some(now + DurationOf(s, r.mode) * 1000)
    ensures Valid(s) ==> Valid(r)
  {
    var ended := EndCycle(s);
    if ended.autoStart then StartWithDuration(ended, now, DurationOf(s, ended.mode))
    else Snap(ended, DurationOf(s, ended.mode))
  }

  /** The first half of `handleCycleEnd`, up to the auto-start decision:
      everything here happens whatever the decision is. */
  function EndCycle(s: Runtime): (r: Runtime)
    ensures !r.armed && r.deadline == None && r.timerState == Idle
    ensures r.mode == Flip(s.mode)
    ensures r.cyclesCompleted == (if s.mode == Focus then s.cyclesCompleted + 1 else s.cyclesCompleted)
    ensures r.sessionLog == s.sessionLog + [RequestFor(s, s.mode)] && r.beeps == s.beeps + 1
    ensures r.writes == s.writes + [Encode(ConfigOf(r))] && r.storage == Some(Parsed(Encode(ConfigOf(r))))
    ensures r.(armed := s.armed, deadline := s.deadline, timerState := s.timerState, mode := s.mode,
               cyclesCompleted := s.cyclesCompleted, sessionLog := s.sessionLog, beeps := s.beeps,
               storage := s.storage, writes := s.writes) == s
  {
    var stopped := StopInterval(s).(timerState := Idle);
    var next := Flip(s.mode);
    var logged := stopped.(cyclesCompleted := if s.mode == Focus then s.cyclesCompleted + 1 else s.cyclesCompleted,
                           sessionLog := s.sessionLog + [RequestFor(s, s.mode)],
                           beeps := s.beeps + 1,
                           mode := next);
    PersistSettings(logged, None, None, None, Some(next))
  }

  /** True when the interval callback would find a deadline: JavaScript's
      `if (!endTimeRef.current) return` also skips a deadline of 0. */
  predicate HasDeadline(s: Runtime) {
    s.deadline.Some? && s.deadline.value != 0
  }

  /** The interval callback at time `now`: sync the remaining time, and end
      the cycle when it has reached zero. */
  function Tick(s: Runtime, now: int): (r: Runtime)
    ensures !HasDeadline(s) ==> r == s
    ensures HasDeadline(s) && Remaining(s.deadline.value, now) > 0 ==>
              r == SyncTick(s, Remaining(s.deadline.value, now))
    ensures Valid(s) && HasDeadline(s) && Remaining(s.deadline.value, now) > 0 ==>
              r.timeLeft == SecondsFor(s.deadline.value - now) &&
              r.deadline == s.deadline && r.timerState == s.timerState
    ensures HasDeadline(s) && now >= s.deadline.value ==> r == HandleCycleEnd(s, now)
    ensures Valid(s) ==> Valid(r)
  {
    if !HasDeadline(s) then s
    else
      var clampedMs := Remaining(s.deadline.value, now);
      var synced := SyncTick(s, clampedMs);
      if clampedMs <= 0 then
        CycleEndIgnoresDisplay(s, synced, now);
        HandleCycleEnd(synced, now)
      else synced
  }

  /** Ending a cycle overwrites the displayed time, so the sync before it
      leaves no trace. */
  lemma CycleEndIgnoresDisplay(s: Runtime, t: Runtime, now: int)
    requires t == s.(timeLeft := t.timeLeft, timeLeftMs := t.timeLeftMs, lastSyncedSecond := t.lastSyncedSecond)
    ensures HandleCycleEnd(t, now) == HandleCycleEnd(s, now)
  {
  }
}
