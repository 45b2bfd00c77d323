/** The `mm:ss` countdown text (public/src/utils/time.ts). */
module TimeFormat {
  import opened Wrappers
  import opened Numbers
  import opened Decimal

  /** `s.padStart(width, fill)`: pads on the left, never truncates. */
  function PadStart(s: string, width: nat, fill: char): (r: string)
    ensures |r| == Max(width, |s|)
    ensures r[|r| - |s|..] == s
    ensures forall i :: 0 <= i < |r| - |s| ==> r[i] == fill
  {
    if |s| >= width then s else seq(width - |s|, _ => fill) + s
  }

  /** The minutes and seconds `formatTime` prints: `Math.floor(s / 60)` and
      JavaScript's `s % 60`. */
  function ClockParts(seconds: int): (p: (int, int))
    ensures seconds >= 0 ==> 0 <= p.0 && 0 <= p.1 < 60 && p.0 * 60 + p.1 == seconds
    ensures seconds >= 0 ==> p.0 == seconds / 60 && p.1 == seconds % 60
  {
    (seconds / 60, TruncRem(seconds, 60))
  }

  /** `formatTime(seconds)`: both parts left-padded with '0' to two
      characters, joined by ':'. */
  function FormatTime(seconds: int): (t: string)
    ensures seconds >= 0 ==>
              |t| >= 5 && t[|t| - 3] == ':' &&
              AllDigits(t[..|t| - 3]) && AllDigits(t[|t| - 2..])
    ensures seconds >= 0 ==>
              ParseNat(t[..|t| - 3]) == seconds / 60 && ParseNat(t[|t| - 2..]) == seconds % 60
  {
    var parts := ClockParts(seconds);
    var pm, ps := PadStart(IntToString(parts.0), 2, '0'), PadStart(IntToString(parts.1), 2, '0');
    if seconds >= 0 then
      IntToStringOfNat(parts.0);
      IntToStringOfNat(parts.1);
      PaddedNumber(parts.0, NatToString(parts.0));
      PaddedNumber(parts.1, NatToString(parts.1));
      ClockFieldsOf(pm, ps);
      pm + ":" + ps
    else
      pm + ":" + ps
  }

  /** The fields of `mm:ss` sit before the third-last character and after it. */
  lemma ClockFieldsOf(pm: string, ps: string)
    requires |pm| >= 2 && |ps| == 2
    ensures var t := pm + ":" + ps;
            |t| >= 5 && t[|t| - 3] == ':' && t[..|t| - 3] == pm && t[|t| - 2..] == ps
  {
  }

  /** Splits `mm:ss` into its two digit strings: digits, ':', digits. */
  function SplitClock(t: string): (r: Option<(string, string)>)
    ensures r.Some? ==> AllDigits(r.value.0) && AllDigits(r.value.1)
    ensures r.Some? ==> r.value.0 != [] && r.value.1 != [] && t == r.value.0 + ":" + r.value.1
  {
    var (mm, rest) := SplitDigits(t);
    if mm == [] || rest == [] || rest[0] != ':' then None
    else
      var (ss, tail) := SplitDigits(rest[1..]);
      if ss == [] || tail != [] then None
      else
        assert rest == ":" + ss;
        Some((mm, ss))
  }

  /** The digit strings `String(n).padStart(2, '0')` prints: at least two
      digits, and a leading zero only when there are exactly two. */
  predicate PaddedCanonical(d: string) {
    AllDigits(d) && |d| >= 2 && (|d| > 2 ==> d[0] != '0')
  }

  /** Reads `mm:ss` back as a number of seconds. Only the texts
      `formatTime` prints are accepted: zero-padded minutes, and exactly two
      digits of seconds below 60. */
  function ParseClock(t: string): Option<int>
  {
    match SplitClock(t)
    case None => None
    case Some((mm, ss)) =>
      if PaddedCanonical(mm) && |ss| == 2 && ParseNat(ss) < 60
      then Some(ParseNat(mm) * 60 + ParseNat(ss)) else None
  }

  /** Padding a digit string with zeros to two characters, as `formatTime`
      does, keeps it a digit string of the same value. */
  lemma PaddedDigits(d: string)
    requires d != [] && AllDigits(d)
    ensures AllDigits(PadStart(d, 2, '0'))
    ensures ParseNat(PadStart(d, 2, '0')) == ParseNat(d)
  {
    if |d| < 2 {
      var p := PadStart(d, 2, '0');
      assert p[0] == '0' && p[1..] == d;
      assert p == "0" + d;
      ParseNatLeadingZero(d);
    }
  }

  /** Two non-empty digit strings joined by ':' split back apart. */
  lemma {:induction false} SplitClockOf(mm: string, ss: string)
    requires AllDigits(mm) && AllDigits(ss) && mm != [] && ss != []
    ensures SplitClock(mm + ":" + ss) == Some((mm, ss))
  {
    assert mm + ":" + ss == mm + (":" + ss);
    SplitDigitsAt(mm, ":" + ss);
    assert (":" + ss)[1..] == ss + [];
    SplitDigitsAt(ss, []);
  }

  /** A zero-padded `String(x)` is a non-empty digit string of value x. */
  lemma PaddedNumber(x: nat, t: string)
    requires t == NatToString(x)
    ensures var p := PadStart(t, 2, '0'); p != [] && AllDigits(p) && ParseNat(p) == x
    ensures PaddedCanonical(PadStart(t, 2, '0'))
  {
    PaddedDigits(t);
    ParseNatToString(x);
  }

  /** A padded canonical digit string is what `formatTime` prints for its
      value. */
  lemma PaddedCanonicalReadsBack(d: string)
    requires PaddedCanonical(d)
    ensures d == PadStart(NatToString(ParseNat(d)), 2, '0')
  {
    if d[0] != '0' {
      CanonicalReadsBack(d);
    } else {
      var low := d[1..];
      assert d == "0" + low && |low| == 1;
      CanonicalReadsBack(low);
      ParseNatLeadingZero(low);
      var p := PadStart(low, 2, '0');
      assert p[0] == '0' && p[1..] == low;
    }
  }

  /** Every non-negative count of seconds reads back from its text. */
  lemma {:induction false} FormatTimeParsesBack(seconds: int)
    requires seconds >= 0
    ensures ParseClock(FormatTime(seconds)) == Some(seconds)
  {
    var parts := ClockParts(seconds);
    var pm, ps := PadStart(NatToString(parts.0), 2, '0'), PadStart(NatToString(parts.1), 2, '0');
    IntToStringOfNat(parts.0);
    IntToStringOfNat(parts.1);
    PaddedNumber(parts.0, NatToString(parts.0));
    PaddedNumber(parts.1, NatToString(parts.1));
    SplitClockOf(pm, ps);
    ReadClock(pm + ":" + ps, pm, ps, seconds);
  }

  /** A text that splits into padded digit strings mm and ss, with ss two
      digits below 60, reads as mm * 60 + ss. */
  lemma ReadClock(t: string, mm: string, ss: string, seconds: int)
    requires SplitClock(t) == Some((mm, ss))
    requires PaddedCanonical(mm) && |ss| == 2 && ParseNat(ss) < 60
    requires ParseNat(mm) * 60 + ParseNat(ss) == seconds
    ensures ParseClock(t) == Some(seconds)
  {
  }

  /** A text the clock parser accepts as v is `formatTime(v)`. */
  lemma ParseClockInverse(t: string, v: int)
    requires ParseClock(t) == Some(v)
    ensures v >= 0 && t == FormatTime(v)
  {
    var mm, ss := ClockFields(t, v);
    PaddedFieldsText(t, mm, ss, v);
  }

  /** Padded fields mm and ss, ss below 60, joined by ':' are the text of
      mm * 60 + ss. */
  lemma PaddedFieldsText(t: string, mm: string, ss: string, v: int)
    requires t == mm + ":" + ss && PaddedCanonical(mm) && PaddedCanonical(ss)
    requires ParseNat(ss) < 60 && v == ParseNat(mm) * 60 + ParseNat(ss)
    ensures v >= 0 && t == FormatTime(v)
  {
    FieldValues(mm, ss, v);
    PaddedCanonicalReadsBack(mm);
    PaddedCanonicalReadsBack(ss);
    ClockTextIs(t, mm, ss, v);
  }

  lemma FieldValues(mm: string, ss: string, v: int)
    requires AllDigits(mm) && AllDigits(ss)
    requires ParseNat(ss) < 60 && v == ParseNat(mm) * 60 + ParseNat(ss)
    ensures v >= 0 && v / 60 == ParseNat(mm) && v % 60 == ParseNat(ss)
  {
    MinutesAndSeconds(ParseNat(mm), ParseNat(ss));
  }

  /** The two fields of a text the clock parser accepts. */
  lemma ClockFields(t: string, v: int) returns (mm: string, ss: string)
    requires ParseClock(t) == Some(v)
    ensures t == mm + ":" + ss && PaddedCanonical(mm) && PaddedCanonical(ss) && |ss| == 2
    ensures ParseNat(ss) < 60 && v == ParseNat(mm) * 60 + ParseNat(ss)
  {
    mm, ss := SplitClock(t).value.0, SplitClock(t).value.1;
  }

  lemma ClockTextIs(t: string, mm: string, ss: string, v: nat)
    requires t == mm + ":" + ss
    requires mm == PadStart(NatToString(v / 60), 2, '0') && ss == PadStart(NatToString(v % 60), 2, '0')
    ensures t == FormatTime(v)
  {
    FormatTimeOfNat(v);
  }

  lemma MinutesAndSeconds(m: nat, sec: nat)
    requires sec < 60
    ensures (m * 60 + sec) / 60 == m && (m * 60 + sec) % 60 == sec
  {
  }

  /** For a non-negative count, the text is padded `String` of its minutes
      and of its seconds. */
  lemma FormatTimeOfNat(v: nat)
    ensures FormatTime(v) == PadStart(NatToString(v / 60), 2, '0') + ":" + PadStart(NatToString(v % 60), 2, '0')
  {
    var parts := ClockParts(v);
    assert parts == (v / 60, v % 60);
    IntToStringOfNat(v / 60);
    IntToStringOfNat(v % 60);
  }

  /** The text of a count of seconds is the one text that reads back as it:
      "00:61" or "1:01" never do. */
  lemma FormatTimeIsTheOnlyText(seconds: int, t: string)
    requires seconds >= 0
    ensures ParseClock(t) == Some(seconds) <==> t == FormatTime(seconds)
  {
    if ParseClock(t) == Some(seconds) {
      ParseClockInverse(t, seconds);
    }
    if t == FormatTime(seconds) {
      FormatTimeParsesBack(seconds);
    }
  }

  /** Below 100 minutes the text is exactly `mm:ss`. */
  lemma FormatTimeShape(seconds: int)
    requires 0 <= seconds < 6000
    ensures |FormatTime(seconds)| == 5 && FormatTime(seconds)[2] == ':'
  {
    var parts := ClockParts(seconds);
    assert parts.0 < 100;
  }
}
