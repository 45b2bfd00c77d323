/** The pure pieces of the dashboard page (app/src/pages/Dashboard.tsx): the
    short duration label, the start/pause button text, the settings form's
    validation and hours/minutes decomposition, and the progress ring. */
module DashboardForm {
  import opened Wrappers
  import opened Numbers
  import opened Decimal
  import opened Settings
  import opened AppTimerSpec

  // ---------------------------------------------------------------------
  // Short duration label ("25min", "1h", "1h 30min")
  // ---------------------------------------------------------------------

  /** Whole minutes shown for a duration: rounded half up, at least one. */
  function TotalMinutes(seconds: int): (m: int)
    ensures m >= 1
    ensures seconds >= 30 ==> m * 60 - 30 <= seconds < m * 60 + 30
    ensures seconds < 90 ==> m == 1
  {
    Max(1, RoundSixtieth(seconds))
  }

  /** The label for a whole number of minutes. */
  function ShortLabel(total: nat): string {
    var hours := total / 60;
    var minutes := total % 60;
    if hours == 0 then NatToString(minutes) + "min"
    else if minutes == 0 then NatToString(hours) + "h"
    else NatToString(hours) + ("h " + NatToString(minutes) + "min")
  }

  function FormatShort(seconds: int): (t: string)
    ensures |t| >= 2 && IsDigit(t[0])
    ensures var m := TotalMinutes(seconds); (m >= 60 && m % 60 == 0) <==> t[|t| - 1] == 'h'
  {
    ShortLabel(TotalMinutes(seconds))
  }

  /** Reads a label back as a number of minutes, hours counting 60. Only the
      three layouts the dashboard prints are accepted: "Mmin" with M in
      [1, 60), "Hh" and "Hh Mmin" with H >= 1 and M in [1, 60), every
      number without leading zeros. */
  function ParseShort(t: string): Option<int> {
    var (p, rest) := SplitDigits(t);
    if !Canonical(p) then None
    else if rest == "min" then
      (if 1 <= ParseNat(p) < 60 then Some(ParseNat(p)) else None)
    else if ParseNat(p) == 0 then None
    else if rest == "h" then Some(ParseNat(p) * 60)
    else if |rest| > 2 && rest[..2] == "h " then
      match ParseMinutesPart(rest[2..])
      case Some(m) => Some(ParseNat(p) * 60 + m)
      case None => None
    else None
  }

  /** Reads "<M>min" with M in [1, 60) as M minutes. */
  function ParseMinutesPart(t: string): Option<int> {
    var (q, tail) := SplitDigits(t);
    if Canonical(q) && tail == "min" && 1 <= ParseNat(q) < 60 then Some(ParseNat(q)) else None
  }

  // Each reading lemma below takes the label as an opaque text `t` and only
  // what splitting it gives, so that the parser is unfolded once.

  lemma ReadMinutesLabel(t: string, p: string, v: int)
    requires SplitDigits(t) == (p, "min") && Canonical(p) && ParseNat(p) == v && 1 <= v < 60
    ensures ParseShort(t) == Some(v)
  {
  }

  lemma ReadHoursLabel(t: string, p: string, v: int)
    requires SplitDigits(t) == (p, "h") && Canonical(p) && ParseNat(p) >= 1 && ParseNat(p) * 60 == v
    ensures ParseShort(t) == Some(v)
  {
  }

  lemma ReadMinutesPart(t: string, q: string, v: int)
    requires SplitDigits(t) == (q, "min") && Canonical(q) && ParseNat(q) == v && 1 <= v < 60
    ensures ParseMinutesPart(t) == Some(v)
  {
  }

  lemma ReadHoursMinutesLabel(t: string, p: string, rest: string, m: int, v: int)
    requires SplitDigits(t) == (p, rest) && Canonical(p) && ParseNat(p) >= 1
    requires |rest| > 3 && rest[..2] == "h "
    requires ParseMinutesPart(rest[2..]) == Some(m) && ParseNat(p) * 60 + m == v
    ensures ParseShort(t) == Some(v)
  {
  }

  lemma MinutesLabelParses(m: nat, ms: string, v: int)
    requires ms == NatToString(m) && v == m && 1 <= m < 60
    ensures ParseShort(ms + "min") == Some(v)
  {
    SplitDigitsAt(ms, "min");
    ParseNatToString(m);
    ReadMinutesLabel(ms + "min", ms, v);
  }

  lemma HoursLabelParses(h: nat, hs: string, v: int)
    requires hs == NatToString(h) && v == h * 60 && h >= 1
    ensures ParseShort(hs + "h") == Some(v)
  {
    SplitDigitsAt(hs, "h");
    ParseNatToString(h);
    ReadHoursLabel(hs + "h", hs, v);
  }

  lemma MinutesPartParses(m: nat, ms: string, rest: string)
    requires ms == NatToString(m) && rest == "h " + ms + "min" && 1 <= m < 60
    ensures |rest| > 3 && rest[..2] == "h " && ParseMinutesPart(rest[2..]) == Some(m)
  {
    assert rest[2..] == ms + "min";
    SplitDigitsAt(ms, "min");
    ParseNatToString(m);
    ReadMinutesPart(ms + "min", ms, m);
  }

  lemma HoursMinutesLabelParses(h: nat, m: nat, hs: string, ms: string, v: int)
    requires hs == NatToString(h) && ms == NatToString(m) && v == h * 60 + m
    requires h >= 1 && 1 <= m < 60
    ensures ParseShort(hs + ("h " + ms + "min")) == Some(v)
  {
    var rest := "h " + ms + "min";
    MinutesPartParses(m, ms, rest);
    SplitDigitsAt(hs, rest);
    ParseNatToString(h);
    ReadHoursMinutesLabel(hs + rest, hs, rest, m, v);
  }

  /** Every positive number of minutes reads back from its label. */
  lemma ShortLabelParsesBack(total: nat)
    requires total >= 1
    ensures ParseShort(ShortLabel(total)) == Some(total)
  {
    var hours := total / 60;
    var minutes := total % 60;
    if hours == 0 {
      MinutesLabelParses(minutes, NatToString(minutes), total);
    } else if minutes == 0 {
      HoursLabelParses(hours, NatToString(hours), total);
    } else {
      HoursMinutesLabelParses(hours, minutes, NatToString(hours), NatToString(minutes), total);
    }
  }

  /** The label names exactly the rounded minutes: hours and minutes read
      back from it give the whole-minute total. */
  lemma FormatShortParsesBack(seconds: int)
    ensures ParseShort(FormatShort(seconds)) == Some(TotalMinutes(seconds))
  {
    ShortLabelParsesBack(TotalMinutes(seconds));
  }

  /** What "<M>min" reading as m says about the text. */
  lemma MinutesPartInverse(t: string, m: int)
    requires ParseMinutesPart(t) == Some(m)
    ensures 1 <= m < 60 && t == NatToString(m) + "min"
  {
    var (q, tail) := SplitDigits(t);
    CanonicalReadsBack(q);
  }

  /** A text the parser accepts as v is the label of v, in each of the
      three layouts. */
  lemma ParseShortInverse(t: string, v: int)
    requires ParseShort(t) == Some(v)
    ensures v >= 1 && t == ShortLabel(v)
  {
    var (p, rest) := SplitDigits(t);
    CanonicalReadsBack(p);
    var n := ParseNat(p);
    if rest == "min" {
      MinutesLabelIs(t, p, n, v);
    } else if rest == "h" {
      HoursLabelIs(t, p, n, v);
    } else {
      var m :| ParseMinutesPart(rest[2..]) == Some(m);
      MinutesPartInverse(rest[2..], m);
      HoursMinutesLabelIs(t, p, rest, n, m, v);
    }
  }

  lemma MinutesLabelIs(t: string, p: string, n: nat, v: int)
    requires t == p + "min" && p == NatToString(n) && v == n && 1 <= n < 60
    ensures t == ShortLabel(v)
  {
    assert v / 60 == 0 && v % 60 == n;
  }

  lemma HoursLabelIs(t: string, p: string, n: nat, v: int)
    requires t == p + "h" && p == NatToString(n) && v == n * 60 && n >= 1
    ensures t == ShortLabel(v)
  {
    assert v / 60 == n && v % 60 == 0;
  }

  lemma HoursMinutesLabelIs(t: string, p: string, rest: string, n: nat, m: nat, v: int)
    requires t == p + rest && p == NatToString(n) && n >= 1
    requires |rest| > 2 && rest[..2] == "h " && rest[2..] == NatToString(m) + "min"
    requires v == n * 60 + m && 1 <= m < 60
    ensures t == ShortLabel(v)
  {
    assert v / 60 == n && v % 60 == m;
    assert rest == "h " + rest[2..];
  }

  /** The label of a duration is the one text that reads back as its
      rounded minutes: "90min", "0h 30min" or "01h" never do. */
  lemma FormatShortIsTheOnlyLabel(seconds: int, t: string)
    ensures ParseShort(t) == Some(TotalMinutes(seconds)) <==> t == FormatShort(seconds)
  {
    if ParseShort(t) == Some(TotalMinutes(seconds)) {
      ParseShortInverse(t, TotalMinutes(seconds));
    }
    if t == FormatShort(seconds) {
      FormatShortParsesBack(seconds);
    }
  }

  // ---------------------------------------------------------------------
  // Start/pause button
  // ---------------------------------------------------------------------

  function GetButtonText(mode: Mode, state: TimerState): (t: string)
    ensures |t| >= 11 && ((state == Running) <==> t[0] == 'P')
  {
    if mode == Focus then
      (if state == Running then "Pausar foco" else "Iniciar foco")
    else
      (if state == Running then "Pausar pausa" else "Iniciar pausa")
  }

  /** The text depends only on the mode and on whether the timer runs, and
      the four combinations give four different texts. */
  lemma ButtonTextOnlyRunningMatters(m1: Mode, s1: TimerState, m2: Mode, s2: TimerState)
    ensures GetButtonText(m1, s1) == GetButtonText(m2, s2) <==> m1 == m2 && (s1 == Running <==> s2 == Running)
  {
    if m1 != m2 {
      assert |GetButtonText(m1, s1)| != |GetButtonText(m2, s2)| || GetButtonText(m1, s1)[0] != GetButtonText(m2, s2)[0];
    }
  }

  // ---------------------------------------------------------------------
  // Settings form
  // ---------------------------------------------------------------------

  const MINIMUM_ERROR := "O mínimo é 1 minuto para foco e pausa."

  /** The totals the form submits: each at least one second, both at least a
      minute, or the form's error message. */
  function ValidateDurations(focusHours: int, focusMinutes: int, breakHours: int, breakMinutes: int): (r: Result<(int, int)>)
    ensures r.Ok? <==> focusHours * 3600 + focusMinutes * 60 >= 60 && breakHours * 3600 + breakMinutes * 60 >= 60
    ensures r.Ok? ==> r.value == (focusHours * 3600 + focusMinutes * 60, breakHours * 3600 + breakMinutes * 60)
    ensures r.Err? ==> r.message == MINIMUM_ERROR
  {
    var focusTotal := Max(1, focusHours * 3600 + focusMinutes * 60);
    var breakTotal := Max(1, breakHours * 3600 + breakMinutes * 60);
    if focusTotal < 60 || breakTotal < 60 then Err(MINIMUM_ERROR)
    else Ok((focusTotal, breakTotal))
  }

  /** Whole hours of a duration in seconds (`Math.floor(d / 3600)`). */
  function HoursOf(d: int): (h: int)
    ensures h * 3600 <= d < h * 3600 + 3600
  {
    d / 3600
  }

  /** Minutes left after the whole hours (`Math.floor((d % 3600) / 60)`:
      the remainder keeps the sign of d, the division rounds down). */
  function MinutesOf(d: int): (m: int)
    ensures m * 60 <= TruncRem(d, 3600) < m * 60 + 60
    ensures -60 <= m < 60 && (d >= 0 ==> m >= 0)
  {
    TruncRem(d, 3600) / 60
  }

  /** The duration the form's fields give (`h * 3600 + m * 60`). */
  function Recombine(hours: int, minutes: int): (d: int)
    ensures d % 60 == 0
    ensures hours >= 0 && minutes >= 0 ==> d >= 0
    ensures 0 <= minutes < 60 ==> d / 3600 == hours
  {
    hours * 3600 + minutes * 60
  }

  /** Decomposing a non-negative duration and recombining it loses only the
      seconds past the last whole minute, so a multiple of 60 comes back
      exactly. */
  lemma {:induction false} DecomposeRecombine(d: int)
    requires d >= 0
    ensures HoursOf(d) >= 0 && 0 <= MinutesOf(d) < 60
    ensures Recombine(HoursOf(d), MinutesOf(d)) <= d < Recombine(HoursOf(d), MinutesOf(d)) + 60
    ensures d % 60 == 0 <==> Recombine(HoursOf(d), MinutesOf(d)) == d
  {
    var q := d / 3600;
    var r := d % 3600;
    assert d == q * 3600 + r;
    var m := r / 60;
    assert r == m * 60 + r % 60;
    assert d == q * 3600 + m * 60 + r % 60;
    assert r % 60 == d % 60 by {
      assert d - r % 60 == (q * 60 + m) * 60;
    }
  }

  /** Hours and minutes with minutes below 60 decompose back to themselves. */
  lemma {:induction false} RecombineDecompose(hours: int, minutes: int)
    requires hours >= 0 && 0 <= minutes < 60
    ensures HoursOf(Recombine(hours, minutes)) == hours && MinutesOf(Recombine(hours, minutes)) == minutes
  {
    var d := Recombine(hours, minutes);
    assert 0 <= minutes * 60 < 3600;
    assert d / 3600 == hours;
    assert d % 3600 == minutes * 60;
  }

  datatype Preset = Preset(title: string, focus: int, brk: int)

  const PRESETS: seq<Preset> := [
    Preset("Foco 25 / Pausa 5", 25 * 60, 5 * 60),
    Preset("Foco 50 / Pausa 10", 50 * 60, 10 * 60),
    Preset("Foco 90 / Pausa 15", 90 * 60, 15 * 60)
  ]

  /** Every preset survives the form: choosing it fills hours and minutes
      that validate back to exactly its two durations. */
  lemma PresetsRoundTrip(i: int)
    requires 0 <= i < |PRESETS|
    ensures var p := PRESETS[i];
            ValidateDurations(HoursOf(p.focus), MinutesOf(p.focus), HoursOf(p.brk), MinutesOf(p.brk)) == Ok((p.focus, p.brk))
  {
    var p := PRESETS[i];
    DecomposeRecombine(p.focus);
    DecomposeRecombine(p.brk);
  }

  /** Opening the form on durations that are whole minutes and then saving it
      unchanged submits the same durations. */
  lemma OpenThenApplyKeepsDurations(s: Runtime)
    requires s.focusDuration >= 60 && s.focusDuration % 60 == 0
    requires s.breakDuration >= 60 && s.breakDuration % 60 == 0
    ensures ValidateDurations(HoursOf(s.focusDuration), MinutesOf(s.focusDuration),
                              HoursOf(s.breakDuration), MinutesOf(s.breakDuration))
            == Ok((s.focusDuration, s.breakDuration))
  {
    DecomposeRecombine(s.focusDuration);
    DecomposeRecombine(s.breakDuration);
  }

  // ---------------------------------------------------------------------
  // Progress ring
  // ---------------------------------------------------------------------

  /** The ring's angle, or the not-a-number value the style gets from 0/0. */
  datatype Angle = Deg(degrees: real) | NotANumber

  function RealMax(a: real, b: real): real { if a >= b then a else b }
  function RealMin(a: real, b: real): real { if a <= b then a else b }

  /** The remaining fraction of the active duration clamped to [0, 1], in
      degrees. A zero duration divides to an infinity (clamped to 0 or 360)
      or, with nothing left, to not-a-number. */
  function ProgressAngle(timeLeftMs: int, duration: int): (a: Angle)
    ensures a.Deg? ==> 0.0 <= a.degrees <= 360.0
    ensures a.NotANumber? <==> duration == 0 && timeLeftMs == 0
  {
    if duration == 0 then
      (if timeLeftMs > 0 then Deg(360.0) else if timeLeftMs < 0 then Deg(0.0) else NotANumber)
    else
      var fraction := (timeLeftMs as real) / ((duration * 1000) as real);
      Deg(RealMax(0.0, RealMin(1.0, fraction)) * 360.0)
  }

  /** Within the duration the angle is exactly the remaining share of 360. */
  lemma ProgressAngleExact(timeLeftMs: int, duration: int)
    requires duration > 0 && 0 <= timeLeftMs <= duration * 1000
    ensures ProgressAngle(timeLeftMs, duration) == Deg((timeLeftMs as real) * 360.0 / ((duration * 1000) as real))
  {
    var den := (duration * 1000) as real;
    var fraction := (timeLeftMs as real) / den;
    assert 0.0 <= fraction <= 1.0;
  }

  /** With a positive duration, less time left never draws a larger ring. */
  lemma ProgressAngleMonotone(ms1: int, ms2: int, duration: int)
    requires duration > 0 && ms1 <= ms2
    ensures ProgressAngle(ms1, duration).degrees <= ProgressAngle(ms2, duration).degrees
  {
    var den := (duration * 1000) as real;
    assert (ms1 as real) / den <= (ms2 as real) / den;
  }
}
