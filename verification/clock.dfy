/**
 * `format_time` (app.py:20-26): a caption clock `HH:MM:SS,mmm`.
 *
 * The source takes a float number of seconds; this model takes the time as a whole
 * number of milliseconds `t`, the value `int(seconds * 1000)` for an exact input. The
 * source's `int(seconds)` is then `t / 1000` and its millisecond field
 * `int((seconds - int(seconds)) * 1000)` is `t % 1000`.
 */
module Clock {
  import opened Text
  import opened Wrappers

  const MillisPerSecond: nat := 1000
  const MillisPerMinute: nat := 60_000
  const MillisPerHour: nat := 3_600_000

  /** The four fields of a caption clock. */
  datatype Fields = Fields(hours: nat, minutes: nat, seconds: nat, millis: nat)

  /** The fields `format_time` computes from `t` milliseconds. */
  function FieldsOf(t: nat): Fields {
    var whole := t / 1000;
    Fields(whole / 3600, whole / 60 % 60, whole % 60, t % 1000)
  }

  /**
   * Hours are not capped at 24, the other fields are in range, and together they
   * add back up to the input.
   */
  lemma FieldsOfSpec(t: nat)
    ensures var f := FieldsOf(t);
      f.minutes < 60 && f.seconds < 60 && f.millis < 1000
      && f.hours == t / MillisPerHour
      && f.hours * MillisPerHour + f.minutes * MillisPerMinute
         + f.seconds * MillisPerSecond + f.millis == t
  {
    var whole := t / 1000;
    assert whole / 3600 == t / 3_600_000;
    assert whole == (whole / 3600) * 3600 + (whole / 60 % 60) * 60 + whole % 60;
  }

  /**
   * The shape `\d{2,}:\d{2}:\d{2},\d{3}`: at least two hour digits, then two minute
   * digits, two second digits and three millisecond digits with their separators.
   */
  predicate IsClockShape(s: string) {
    |s| >= 12
    && AllDigits(s[..|s| - 10]) && s[|s| - 10] == ':'
    && AllDigits(s[|s| - 9..|s| - 7]) && s[|s| - 7] == ':'
    && AllDigits(s[|s| - 6..|s| - 4]) && s[|s| - 4] == ','
    && AllDigits(s[|s| - 3..])
  }

  /** `f"{h:02}:{m:02}:{s:02},{ms:03}"`. */
  function Render(f: Fields): string {
    Padded(f.hours, 2) + ":" + Padded(f.minutes, 2) + ":" + Padded(f.seconds, 2)
    + "," + Padded(f.millis, 3)
  }

  /** Where the pieces of `hh:mm:ss,mmm` sit, counted from the end. */
  lemma ClockLayout(hh: string, mm: string, ss: string, mmm: string)
    requires |mm| == 2 && |ss| == 2 && |mmm| == 3
    ensures var r := hh + ":" + mm + ":" + ss + "," + mmm;
      |r| == |hh| + 10
      && r[..|r| - 10] == hh && r[|r| - 10] == ':' && r[|r| - 9..|r| - 7] == mm
      && r[|r| - 7] == ':' && r[|r| - 6..|r| - 4] == ss && r[|r| - 4] == ','
      && r[|r| - 3..] == mmm
  {
  }

  /** For fields in range, the four zero-padded fields sit at fixed distances from the end. */
  lemma RenderSlices(f: Fields)
    requires f.minutes < 60 && f.seconds < 60 && f.millis < 1000
    ensures var r := Render(f);
      IsClockShape(r)
      && |r| == |Padded(f.hours, 2)| + 10
      && r[..|r| - 10] == Padded(f.hours, 2) && r[|r| - 9..|r| - 7] == Padded(f.minutes, 2)
      && r[|r| - 6..|r| - 4] == Padded(f.seconds, 2) && r[|r| - 3..] == Padded(f.millis, 3)
  {
    DecimalLength(f.minutes);
    DecimalLength(f.seconds);
    DecimalLength(f.millis);
    PaddedDigits(f.hours, 2);
    PaddedDigits(f.minutes, 2);
    PaddedDigits(f.seconds, 2);
    PaddedDigits(f.millis, 3);
    ClockLayout(Padded(f.hours, 2), Padded(f.minutes, 2), Padded(f.seconds, 2), Padded(f.millis, 3));
  }

  /** `format_time`: the clock of the fields of `t`. */
  function FormatTime(t: nat): string {
    Render(FieldsOf(t))
  }

  /**
   * A formatted time has the clock shape, with as many hour digits as `{h:02}` gives
   * for `h = t / 3600000`.
   */
  lemma FormatTimeShape(t: nat)
    ensures IsClockShape(FormatTime(t))
    ensures |FormatTime(t)| == |Padded(t / MillisPerHour, 2)| + 10
  {
    FieldsOfSpec(t);
    RenderSlices(FieldsOf(t));
  }

  /**
   * Reads a caption clock back into milliseconds; `None` unless the string has the
   * clock shape with minutes and seconds below 60.
   */
  function ParseClock(s: string): (r: Option<nat>)
    ensures r.Some? ==> IsClockShape(s)
  {
    if !IsClockShape(s) then None
    else
      var h := ValueOf(s[..|s| - 10]);
      var m := ValueOf(s[|s| - 9..|s| - 7]);
      var sec := ValueOf(s[|s| - 6..|s| - 4]);
      var ms := ValueOf(s[|s| - 3..]);
      if m < 60 && sec < 60 then
        Some(h * MillisPerHour + m * MillisPerMinute + sec * MillisPerSecond + ms)
      else None
  }

  /** Fields in range that add up to `t` are read back from their clock as `t`. */
  lemma RenderReadsBack(f: Fields, t: nat)
    requires f.minutes < 60 && f.seconds < 60 && f.millis < 1000
    requires f.hours * MillisPerHour + f.minutes * MillisPerMinute
             + f.seconds * MillisPerSecond + f.millis == t
    ensures ParseClock(Render(f)) == Some(t)
  {
    RenderSlices(f);
    PaddedValue(f.hours, 2);
    PaddedValue(f.minutes, 2);
    PaddedValue(f.seconds, 2);
    PaddedValue(f.millis, 3);
  }

  /** Reading a formatted clock gives back the time it was formatted from. */
  lemma ClockRoundTrip(t: nat)
    ensures ParseClock(FormatTime(t)) == Some(t)
  {
    FieldsOfSpec(t);
    RenderReadsBack(FieldsOf(t), t);
  }

  /** Distinct times never format to the same clock. */
  lemma FormatTimeInjective(t1: nat, t2: nat)
    requires FormatTime(t1) == FormatTime(t2)
    ensures t1 == t2
  {
    ClockRoundTrip(t1);
    ClockRoundTrip(t2);
  }

  /** The clock is exactly 12 characters long precisely when the hours fit in two digits. */
  lemma FormatTimeLength(t: nat)
    ensures |FormatTime(t)| == 12 <==> t / MillisPerHour < 100
  {
    FormatTimeShape(t);
    DecimalLength(t / MillisPerHour);
  }

  /** A clock holds no space and no line break, so it fits on one line of a caption file. */
  lemma ClockHasNoBreaks(s: string)
    requires IsClockShape(s)
    ensures ' ' !in s && '\n' !in s
  {
    forall i | 0 <= i < |s| ensures s[i] != ' ' && s[i] != '\n' {
      if i < |s| - 10 {
        assert s[i] == s[..|s| - 10][i];
      } else if |s| - 9 <= i < |s| - 7 {
        assert s[i] == s[|s| - 9..|s| - 7][i - (|s| - 9)];
      } else if |s| - 6 <= i < |s| - 4 {
        assert s[i] == s[|s| - 6..|s| - 4][i - (|s| - 6)];
      } else if |s| - 3 <= i {
        assert s[i] == s[|s| - 3..][i - (|s| - 3)];
      }
    }
  }
}
