/** The app hook as an object (app/src/hooks/usePomodoro.ts): the refs and
    the React state it updates are fields, and each command updates them in
    the order the hook does. Every method is proved to leave the state that
    the matching function of AppTimerSpec gives. */
module AppTimer {
  import opened Wrappers
  import opened Settings
  import opened AppTimerSpec

  class Pomodoro {
    var mode: Mode
    var focusDuration: int
    var breakDuration: int
    var autoStart: bool
    var timeLeft: int
    var timeLeftMs: int
    var timerState: TimerState
    var cyclesCompleted: nat
    var armed: bool
    var deadline: Option<int>
    var lastSyncedSecond: int
    // Effects outside the hook: the settings key in local storage, the
    // records written to it, the session logs requested, the chimes played.
    ghost var storage: Option<Entry>
    ghost var writes: seq<StoredSettings>
    ghost var sessionLog: seq<SessionRequest>
    ghost var beeps: nat

    ghost function Abs(): Runtime
      reads this
    {
      Runtime(mode, focusDuration, breakDuration, autoStart, timeLeft, timeLeftMs,
              timerState, cyclesCompleted, armed, deadline, lastSyncedSecond,
              storage, writes, sessionLog, beeps)
    }

    ghost predicate Valid()
      reads this
    {
      AppTimerSpec.Valid(Abs())
    }

    /** Mounting the hook: read the settings key, derive the initial
        settings, and start idle at the selected mode's duration. */
    constructor (entry: Option<Entry>)
      ensures Valid() && Abs() == Init(entry)
    {
      var read := ReadStoredSettings(entry);
      var c := InitialSettings(read.stored);
      mode, focusDuration, breakDuration, autoStart := c.mode, c.focus, c.brk, c.autoStart;
      var d := if c.mode == Focus then c.focus else c.brk;
      timeLeft := d;
      timeLeftMs := d * 1000;
      timerState := Idle;
      cyclesCompleted := 0;
      armed := false;
      deadline := None;
      lastSyncedSecond := d;
      storage := read.entryAfter;
      writes, sessionLog, beeps := [], [], 0;
    }

    method StopInterval()
      modifies this`armed, this`deadline
      ensures Abs() == AppTimerSpec.StopInterval(old(Abs()))
    {
      if armed {
        armed := false;
      }
      deadline := None;
    }

    /** The three updates every command makes to show a full duration:
        `setTimeLeft(d)`, `setTimeLeftMs(d * 1000)` and the last synced second. */
    method SnapTo(d: int)
      modifies this
      ensures Abs() == Snap(old(Abs()), d)
    {
      timeLeft := d;
      timeLeftMs := d * 1000;
      lastSyncedSecond := d;
    }

    /** `playBeep`: the chime, counted and nothing else. */
    method PlayBeep()
      modifies this
      ensures Abs() == old(Abs()).(beeps := old(beeps) + 1)
    {
      beeps := beeps + 1;
    }

    /** `registerPomodoroSession(request)`: the request is recorded; its
        outcome never reaches the timer. */
    method RegisterSession(request: SessionRequest)
      modifies this
      ensures Abs() == old(Abs()).(sessionLog := old(sessionLog) + [request])
    {
      sessionLog := sessionLog + [request];
    }

    method SyncTick(clampedMs: int)
      requires clampedMs >= 0
      modifies this`lastSyncedSecond, this`timeLeftMs, this`timeLeft
      ensures Abs() == AppTimerSpec.SyncTick(old(Abs()), clampedMs)
    {
      var nextSecond := SecondsFor(clampedMs);
      if nextSecond == lastSyncedSecond {
        return;
      }
      lastSyncedSecond := nextSecond;
      timeLeftMs := clampedMs;
      timeLeft := nextSecond;
    }

    method PersistSettings(focus: Option<int>, brk: Option<int>, auto: Option<bool>, m: Option<Mode>)
      modifies this`storage, this`writes
      ensures Abs() == AppTimerSpec.PersistSettings(old(Abs()), focus, brk, auto, m)
    {
      var record := Encode(Config(focus.GetOr(focusDuration), brk.GetOr(breakDuration),
                                  m.GetOr(mode), auto.GetOr(autoStart)));
      storage := Some(Parsed(record));
      writes := writes + [record];
    }

    method Start(now: int)
      requires Valid()
      modifies this
      ensures Valid() && Abs() == AppTimerSpec.Start(old(Abs()), now)
    {
      if timerState == Running {
        return;
      }
      var wasPaused := timerState == Paused;
      timerState := Running;
      if !wasPaused {
        PlayBeep();
      }
      deadline := Some(now + timeLeft * 1000);
      armed := true;
    }

    method StartWithDuration(now: int, duration: int)
      modifies this
      ensures Abs() == AppTimerSpec.StartWithDuration(old(Abs()), now, duration)
    {
      if armed {
        return;
      }
      SnapTo(duration);
      timerState := Running;
      deadline := Some(now + duration * 1000);
      armed := true;
    }

    /** The body of the interval callback, fired at time `now`. */
    method Tick(now: int)
      requires Valid()
      modifies this
      ensures Valid() && Abs() == AppTimerSpec.Tick(old(Abs()), now)
    {
      if deadline == None || deadline.value == 0 {
        return;
      }
      var remainingMs := deadline.value - now;
      var clampedMs := if remainingMs > 0 then remainingMs else 0;
      ghost var before := Abs();
      SyncTick(clampedMs);
      if clampedMs <= 0 {
        CycleEndIgnoresDisplay(before, Abs(), now);
        HandleCycleEnd(now);
      }
    }

    method Pause()
      requires Valid()
      modifies this
      ensures Valid() && Abs() == AppTimerSpec.Pause(old(Abs()))
    {
      if timerState != Running {
        return;
      }
      timerState := Paused;
      StopInterval();
    }

    method Reset()
      requires Valid()
      modifies this
      ensures Valid() && Abs() == AppTimerSpec.Reset(old(Abs()))
    {
      StopInterval();
      timerState := Idle;
      var duration := if mode == Focus then focusDuration else breakDuration;
      SnapTo(duration);
      cyclesCompleted := 0;
    }

    method SelectMode(nextMode: Mode)
      requires Valid()
      modifies this
      ensures Valid() && Abs() == AppTimerSpec.SelectMode(old(Abs()), nextMode)
    {
      StopInterval();
      timerState := Idle;
      mode := nextMode;
      var duration := if nextMode == Focus then focusDuration else breakDuration;
      SnapTo(duration);
      PersistSettings(None, None, None, Some(nextMode));
    }

    method SetDurations(nextFocus: int, nextBreak: int)
      requires Valid()
      modifies this
      ensures Valid() && Abs() == AppTimerSpec.SetDurations(old(Abs()), nextFocus, nextBreak)
    {
      StopInterval();
      timerState := Idle;
      focusDuration := nextFocus;
      breakDuration := nextBreak;
      var duration := if mode == Focus then nextFocus else nextBreak;
      SnapTo(duration);
      PersistSettings(Some(nextFocus), Some(nextBreak), None, None);
    }

    method SetAutoStartPreference(nextValue: bool)
      requires Valid()
      modifies this
      ensures Valid() && Abs() == AppTimerSpec.SetAutoStartPreference(old(Abs()), nextValue)
    {
      autoStart := nextValue;
      PersistSettings(None, None, Some(nextValue), None);
    }

    /** The first part of `handleCycleEnd`: stop, count, log, chime, switch
        the mode and store it. */
    method EndCycle()
      modifies this
      ensures Abs() == AppTimerSpec.EndCycle(old(Abs()))
    {
      ghost var s0 := Abs();
      StopInterval();
      timerState := Idle;
      var currentMode := mode;
      var nextMode := if currentMode == Focus then Break else Focus;
      var request := if currentMode == Focus then SessionRequest(FOCUS, focusDuration)
                     else SessionRequest(BREAK, breakDuration);
      assert request == RequestFor(s0, s0.mode) && nextMode == Flip(s0.mode);
      if currentMode == Focus {
        cyclesCompleted := cyclesCompleted + 1;
      }
      RegisterSession(request);
      PlayBeep();
      mode := nextMode;
      assert Abs() == AppTimerSpec.StopInterval(s0).(timerState := Idle).(
        cyclesCompleted := if s0.mode == Focus then s0.cyclesCompleted + 1 else s0.cyclesCompleted,
        sessionLog := s0.sessionLog + [request], beeps := s0.beeps + 1, mode := nextMode);
      PersistSettings(None, None, None, Some(nextMode));
    }

    method HandleCycleEnd(now: int)
      modifies this
      ensures Abs() == AppTimerSpec.HandleCycleEnd(old(Abs()), now)
    {
      EndCycle();
      var nextMode := mode;
      var duration := if nextMode == Focus then focusDuration else breakDuration;
      ghost var ended := Abs();
      if autoStart {
        StartWithDuration(now, duration);
        assert Abs() == AppTimerSpec.StartWithDuration(ended, now, duration);
      } else {
        SnapTo(duration);
        assert Abs() == Snap(ended, duration);
      }
    }
  }
}
