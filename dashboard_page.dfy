/** The dashboard's stateful handlers (app/src/pages/Dashboard.tsx): the
    page's own form and pulse state as fields, with the hook's timer object
    beside them. */
module DashboardPage {
  import opened Wrappers
  import opened Numbers
  import opened Settings
  import opened AppTimerSpec
  import opened AppTimer
  import opened DashboardForm

  class Page {
    const timer: Pomodoro
    var settingsOpen: bool
    var focusHours: int
    var focusMinutes: int
    var breakHours: int
    var breakMinutes: int
    var settingsError: Option<string>
    var settingsSaved: bool
    var pulseKey: int
    var showPulse: bool

    ghost predicate Valid()
      reads this, timer
    {
      timer.Valid()
    }

    /** The form as the page submits it. */
    function Form(): (int, int, int, int)
      reads this
    {
      (focusHours, focusMinutes, breakHours, breakMinutes)
    }

    /** Mounting the page mounts the hook; the form starts at 0 h 25 min
        and 0 h 5 min, closed, with no error. */
    constructor (entry: Option<Entry>)
      ensures Valid() && fresh(timer) && timer.Abs() == Init(entry)
      ensures Form() == (0, 25, 0, 5)
      ensures !settingsOpen && settingsError == None && !settingsSaved
      ensures pulseKey == 0 && !showPulse
    {
      timer := new Pomodoro(entry);
      settingsOpen := false;
      focusHours, focusMinutes, breakHours, breakMinutes := 0, 25, 0, 5;
      settingsError := None;
      settingsSaved := false;
      pulseKey := 0;
      showPulse := false;
    }

    /** The main button: pulses, then pauses exactly when the timer runs and
        starts it otherwise. */
    method HandleStartPause(now: int)
      requires Valid()
      modifies this, timer
      ensures Valid()
      ensures pulseKey == old(pulseKey) + 1 && showPulse
      ensures old(timer.timerState) == Running ==> timer.Abs() == AppTimerSpec.Pause(old(timer.Abs()))
      ensures old(timer.timerState) != Running ==> timer.Abs() == AppTimerSpec.Start(old(timer.Abs()), now)
      ensures Form() == old(Form()) && settingsOpen == old(settingsOpen)
      ensures settingsError == old(settingsError) && settingsSaved == old(settingsSaved)
    {
      var isRunning := timer.timerState == Running;
      pulseKey := pulseKey + 1;
      showPulse := true;
      if isRunning {
        timer.Pause();
      } else {
        timer.Start(now);
      }
    }

    /** Saving the form: either the minimum-duration error and nothing else,
        or the hook's durations set to exactly the form's totals, the form
        closed and the saved notice shown. */
    method ApplyDurations()
      requires Valid()
      modifies this, timer
      ensures Valid()
      ensures match ValidateDurations(old(focusHours), old(focusMinutes), old(breakHours), old(breakMinutes))
              case Err(message) =>
                settingsError == Some(message) && timer.Abs() == old(timer.Abs()) &&
                settingsOpen == old(settingsOpen) && settingsSaved == old(settingsSaved)
              case Ok(totals) =>
                settingsError == None && !settingsOpen && settingsSaved &&
                timer.Abs() == AppTimerSpec.SetDurations(old(timer.Abs()), totals.0, totals.1)
      ensures Form() == old(Form()) && pulseKey == old(pulseKey) && showPulse == old(showPulse)
    {
      var focusTotal := Max(1, focusHours * 3600 + focusMinutes * 60);
      var breakTotal := Max(1, breakHours * 3600 + breakMinutes * 60);
      if focusTotal < 60 || breakTotal < 60 {
        settingsError := Some(MINIMUM_ERROR);
        return;
      }
      settingsError := None;
      timer.SetDurations(focusTotal, breakTotal);
      settingsOpen := false;
      settingsSaved := true;
    }

    /** Opening the form fills it with the hook's current durations as hours
        and minutes. */
    method OpenSettings()
      requires Valid()
      modifies this
      ensures Valid() && settingsOpen
      ensures Form() == (HoursOf(timer.focusDuration), MinutesOf(timer.focusDuration),
                         HoursOf(timer.breakDuration), MinutesOf(timer.breakDuration))
      ensures settingsError == old(settingsError) && settingsSaved == old(settingsSaved)
      ensures pulseKey == old(pulseKey) && showPulse == old(showPulse)
    {
      focusHours := timer.focusDuration / 3600;
      focusMinutes := TruncRem(timer.focusDuration, 3600) / 60;
      breakHours := timer.breakDuration / 3600;
      breakMinutes := TruncRem(timer.breakDuration, 3600) / 60;
      settingsOpen := true;
    }

    /** Choosing a preset fills the form with its durations as hours and
        minutes; nothing is saved until the form is applied. */
    method ChoosePreset(i: int)
      requires Valid() && 0 <= i < |PRESETS|
      modifies this
      ensures Valid()
      ensures Form() == (HoursOf(PRESETS[i].focus), MinutesOf(PRESETS[i].focus),
                         HoursOf(PRESETS[i].brk), MinutesOf(PRESETS[i].brk))
      ensures settingsOpen == old(settingsOpen) && settingsError == old(settingsError)
      ensures settingsSaved == old(settingsSaved) && pulseKey == old(pulseKey) && showPulse == old(showPulse)
    {
      var preset := PRESETS[i];
      focusHours := preset.focus / 3600;
      focusMinutes := TruncRem(preset.focus, 3600) / 60;
      breakHours := preset.brk / 3600;
      breakMinutes := TruncRem(preset.brk, 3600) / 60;
    }

    /** A preset chosen and applied sets the hook to exactly its durations. */
    method ApplyPreset(i: int)
      requires Valid() && 0 <= i < |PRESETS|
      modifies this, timer
      ensures Valid() && settingsError == None && settingsSaved && !settingsOpen
      ensures timer.Abs() == AppTimerSpec.SetDurations(old(timer.Abs()), PRESETS[i].focus, PRESETS[i].brk)
    {
      ChoosePreset(i);
      PresetsRoundTrip(i);
      ApplyDurations();
    }
  }
}
