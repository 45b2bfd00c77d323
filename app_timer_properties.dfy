/** What the app hook promises across several commands, proved on the
    functions of AppTimerSpec. */
module AppTimerProperties {
  import opened Wrappers
  import opened Numbers
  import opened Settings
  import opened AppTimerSpec

  /** A command the page or the interval can issue. */
  datatype Command =
    | StartCmd(now: int)
    | TickCmd(now: int)
    | PauseCmd
    | ResetCmd
    | SelectModeCmd(m: Mode)
    | SetDurationsCmd(focus: int, brk: int)
    | SetAutoStartCmd(v: bool)

  function Step(s: Runtime, c: Command): Runtime {
    match c
    case StartCmd(now) => Start(s, now)
    case TickCmd(now) => Tick(s, now)
    case PauseCmd => Pause(s)
    case ResetCmd => Reset(s)
    case SelectModeCmd(m) => SelectMode(s, m)
    case SetDurationsCmd(f, b) => SetDurations(s, f, b)
    case SetAutoStartCmd(v) => SetAutoStartPreference(s, v)
  }

  function Run(s: Runtime, cmds: seq<Command>): Runtime
    decreases |cmds|
  {
    if cmds == [] then s else Run(Step(s, cmds[0]), cmds[1..])
  }

  /** From any valid state (the mounted one, `Init`, among them), whatever
      the commands: a deadline is set exactly
      when an interval is armed, exactly when the timer runs, so no second
      interval is ever armed beside the first; and the stored settings
      always restore the current ones. */
  lemma {:induction false} RunKeepsValid(s: Runtime, cmds: seq<Command>)
    requires Valid(s)
    ensures Valid(Run(s, cmds))
    decreases |cmds|
  {
    if cmds != [] {
      RunKeepsValid(Step(s, cmds[0]), cmds[1..]);
    }
  }

  /** Arming twice is a no-op: neither start path touches a running timer. */
  lemma NoDoubleArming(s: Runtime, now: int, duration: int)
    requires Valid(s) && s.armed
    ensures Start(s, now) == s
    ensures StartWithDuration(s, now, duration) == s
  {
  }

  /** With a fixed deadline and a clock that does not go back, the displayed
      second never increases while the countdown runs. */
  lemma TickNeverIncreases(s: Runtime, t1: int, t2: int)
    requires Valid(s) && HasDeadline(s)
    requires t1 <= t2 && t2 < s.deadline.value
    ensures var s1 := Tick(s, t1);
            s1.deadline == s.deadline && s1.timerState == s.timerState &&
            Tick(s1, t2).timeLeft <= s1.timeLeft
  {
    var d := s.deadline.value;
    CeilThousandthMonotone(d - t2, d - t1);
  }

  /** Resuming re-arms from the whole displayed second: the new deadline
      lies at most 999 ms beyond the frozen remaining time, never before
      it, and no chime is played. */
  lemma ResumeUsesWholeSeconds(s: Runtime, now: int)
    requires Valid(s) && s.timerState == Paused
    ensures var r := Start(s, now);
            r.timerState == Running && r.beeps == s.beeps &&
            r.deadline == Some(now + s.timeLeft * 1000) &&
            s.timeLeftMs <= r.deadline.value - now < s.timeLeftMs + 1000
  {
  }

  /** Pause and resume keep the elapsed time: 100 s armed, 40 s pass, a
      pause of 500 s, then resume: 60 s remain. */
  lemma PauseResumeKeepsElapsed(s: Runtime, t0: int)
    requires Valid(s) && s.timerState == Idle && s.timeLeft == 100 && t0 >= 0
    ensures var running := Start(s, t0);
            var sampled := Tick(running, t0 + 40000);
            var paused := Pause(sampled);
            var resumed := Start(paused, t0 + 540000);
            sampled.timeLeft == 60 && paused.timerState == Paused && paused.timeLeft == 60 &&
            resumed.timerState == Running && resumed.deadline == Some(t0 + 540000 + 60000)
  {
    var running := Start(s, t0);
    assert running.deadline == Some(t0 + 100000);
    assert SecondsFor(60000) == 60 by { CeilThousandthWhole(60); }
  }

  /** A sample at or after the deadline ends the cycle, and the log request
      is made once: sampling again before the next deadline requests
      nothing more. */
  lemma CycleEndsOnce(s: Runtime, now: int, later: int)
    requires Valid(s) && HasDeadline(s) && now >= s.deadline.value
    requires now <= later < now + DurationOf(s, Flip(s.mode)) * 1000
    ensures var r := Tick(s, now);
            r.sessionLog == s.sessionLog + [RequestFor(s, s.mode)] &&
            Tick(r, later).sessionLog == r.sessionLog
  {
    var r := Tick(s, now);
    var d := DurationOf(s, Flip(s.mode));
    assert r == HandleCycleEnd(s, now);
    if HasDeadline(r) {
      assert r.deadline.value == now + d * 1000;
      assert Remaining(r.deadline.value, later) > 0;
    }
  }

  /** Focus 1500 s, break 300 s, auto-start on: start, and after 1500 s a
      FOCUS log is requested and a 300 s break runs; 300 s later a BREAK
      log is requested, focus runs again, and one cycle is counted. */
  lemma AutoStartScenario(s: Runtime, t0: int)
    requires Valid(s) && s.timerState == Idle && s.mode == Focus && t0 >= 0
    requires s.focusDuration == 1500 && s.breakDuration == 300 && s.autoStart
    requires s.timeLeft == 1500 && s.cyclesCompleted == 0
    ensures var started := Start(s, t0);
            var first := Tick(started, t0 + 1500000);
            var second := Tick(first, t0 + 1800000);
            first.sessionLog == s.sessionLog + [SessionRequest(FOCUS, 1500)] &&
            first.mode == Break && first.timerState == Running &&
            first.deadline == Some(t0 + 1800000) &&
            second.sessionLog == first.sessionLog + [SessionRequest(BREAK, 300)] &&
            second.mode == Focus && second.timerState == Running &&
            second.cyclesCompleted == 1
  {
    var started := Start(s, t0);
    assert started.deadline == Some(t0 + 1500000);
    var first := Tick(started, t0 + 1500000);
    assert first == HandleCycleEnd(started, t0 + 1500000);
  }

  /** Applying the same durations twice leaves the state of applying them
      once, apart from one more identical record written. */
  lemma SetDurationsIdempotent(s: Runtime, focus: int, brk: int)
    ensures var once := SetDurations(s, focus, brk);
            SetDurations(once, focus, brk) == once.(writes := once.writes + [Encode(ConfigOf(once))])
  {
  }

  /** Without auto-start, the new mode is visible right after the cycle
      ends, idle at its full duration. */
  lemma CycleEndWithoutAutoStart(s: Runtime, now: int)
    requires Valid(s) && HasDeadline(s) && now >= s.deadline.value && !s.autoStart
    ensures var r := Tick(s, now);
            r.mode == Flip(s.mode) && r.timerState == Idle &&
            r.timeLeft == DurationOf(r, r.mode) && r.timeLeftMs == DurationOf(r, r.mode) * 1000 &&
            Tick(r, now) == r
  {
  }
}

/** The session-end persistence as the interval actually runs it. */
module AppTimerStaleClosure {
  import opened Wrappers
  import opened Settings
  import opened AppTimerSpec

  /** `handleCycleEnd` as the interval calls it: the callback belongs to the
      render in which the timer was last started, so `persistSettings` fills
      the auto-start field from that render's flag `captured`, not from the
      current one. Everything else is the cycle end of AppTimerSpec. */
  function HandleCycleEndAsWritten(s: Runtime, now: int, captured: bool): (r: Runtime)
    ensures var intended := HandleCycleEnd(s, now);
            r.(storage := intended.storage, writes := intended.writes) == intended &&
            r.storage == Some(Parsed(Encode(ConfigOf(intended).(autoStart := captured)))) &&
            r.writes == s.writes + [Encode(ConfigOf(intended).(autoStart := captured))]
  {
    var intended := HandleCycleEnd(s, now);
    var record := Encode(ConfigOf(intended).(autoStart := captured));
    intended.(storage := Some(Parsed(record)), writes := s.writes + [record])
  }

  /** Started with auto-start on, switched off while running, the cycle
      ends: the hook goes on with auto-start off, but the settings key now
      holds auto-start on, so the next page load turns it back on. */
  lemma StaleAutoStartIsPersisted(s: Runtime, t0: int)
    requires Valid(s) && s.timerState == Idle && s.autoStart
    requires s.focusDuration > 0 && s.breakDuration > 0
    ensures var started := Start(s, t0);
            var switched := SetAutoStartPreference(started, false);
            var ended := HandleCycleEndAsWritten(switched, started.deadline.value, started.autoStart);
            !ended.autoStart && Restored(ended.storage).autoStart
  {
    var started := Start(s, t0);
    var switched := SetAutoStartPreference(started, false);
    var intended := HandleCycleEnd(switched, started.deadline.value);
    RestoredEncode(ConfigOf(intended).(autoStart := true));
  }

  /** The intended cycle end persists the current settings: reloading from
      the stored entry gives back exactly the state's durations, mode and
      auto-start flag. */
  lemma CycleEndPersistsCurrentSettings(s: Runtime, now: int)
    requires Valid(s) && s.focusDuration > 0 && s.breakDuration > 0
    ensures var r := HandleCycleEnd(s, now); Restored(r.storage) == ConfigOf(r)
  {
  }
}
