/**
 * SubRip cue times `HH:MM:SS,mmm` (`format_timestamp`).
 *
 * A time first becomes a `timedelta`, which holds it rounded to the nearest
 * microsecond (ties to even); its `total_seconds()` is then divided into
 * hours, minutes, seconds and the truncated milliseconds. Times are exact
 * reals, so binary floating-point error in those steps is not modelled.
 */
module Timestamp {
  import opened Wrappers
  import opened Decimal

  /** The four printed fields of a cue time. */
  datatype Clock = Clock(hours: int, minutes: int, seconds: int, millis: int)

  /** Total milliseconds a clock denotes. */
  function ClockMillis(c: Clock): int {
    c.hours * 3600000 + c.minutes * 60000 + c.seconds * 1000 + c.millis
  }

  /** Minutes and seconds below 60, milliseconds below 1000; the hours are unbounded. */
  predicate InRange(c: Clock) {
    0 <= c.minutes < 60 && 0 <= c.seconds < 60 && 0 <= c.millis < 1000
  }

  /** The clock fields of a whole number of milliseconds. */
  function ClockOfMillis(total: int): (c: Clock)
    ensures InRange(c)
  {
    var wholeSeconds, millis := total / 1000, total % 1000;
    var wholeMinutes, seconds := wholeSeconds / 60, wholeSeconds % 60;
    Clock(wholeMinutes / 60, wholeMinutes % 60, seconds, millis)
  }

  /** The fields add back up to the total, and only a negative total has negative hours. */
  lemma ClockOfMillisTotal(total: int)
    ensures ClockMillis(ClockOfMillis(total)) == total
    ensures total >= 0 <==> ClockOfMillis(total).hours >= 0
  {
  }

  /** An in-range clock is the decomposition of its own total. */
  lemma ClockOfMillisInverse(c: Clock)
    requires InRange(c)
    ensures ClockOfMillis(ClockMillis(c)) == c
  {
    var total := ClockMillis(c);
    var wholeMinutes := c.hours * 60 + c.minutes;
    var wholeSeconds := wholeMinutes * 60 + c.seconds;
    assert total == wholeSeconds * 1000 + c.millis;
    assert total / 1000 == wholeSeconds && total % 1000 == c.millis;
    assert wholeSeconds / 60 == wholeMinutes && wholeSeconds % 60 == c.seconds;
    assert wholeMinutes / 60 == c.hours && wholeMinutes % 60 == c.minutes;
  }

  /**
   * The fields computed as the source does: `divmod(t, 3600)`, then
   * `divmod(remainder, 60)`, then the fraction of the seconds times 1000,
   * each truncated to an integer. Minutes, seconds and milliseconds stay in
   * range, the hours never wrap, and together they are the truncated number
   * of milliseconds in `t`.
   */
  function Divide(t: real): (c: Clock)
    ensures InRange(c)
    ensures ClockMillis(c) == (t * 1000.0).Floor
  {
    var hours := (t / 3600.0).Floor;
    var remainder := t - 3600.0 * hours as real;
    var minutes := (remainder / 60.0).Floor;
    var secs := remainder - 60.0 * minutes as real;
    var whole := secs.Floor;
    var millis := ((secs - whole as real) * 1000.0).Floor;
    assert 0.0 <= remainder < 3600.0;
    assert 0.0 <= secs < 60.0;
    FloorShift(t * 1000.0, hours * 3600000 + minutes * 60000 + whole * 1000, millis);
    Clock(hours, minutes, whole, millis)
  }

  lemma FloorShift(x: real, k: int, m: int)
    requires m as real <= x - k as real < m as real + 1.0
    ensures x.Floor == k + m
  {
  }

  /** The source's real-valued division gives the fields of the truncated milliseconds. */
  lemma {:induction false} DivideIsClockOfMillis(t: real)
    ensures Divide(t) == ClockOfMillis((t * 1000.0).Floor)
  {
    ClockOfMillisInverse(Divide(t));
  }

  /** The nearest integer to `x`, the even one of two equally near. */
  function RoundHalfEven(x: real): (n: int)
    ensures n as real - 0.5 <= x <= n as real + 0.5
    ensures x - n as real == 0.5 || n as real - x == 0.5 ==> n % 2 == 0
  {
    var f := x.Floor;
    var d := x - f as real;
    if d < 0.5 then f else if d > 0.5 then f + 1 else if f % 2 == 0 then f else f + 1
  }

  /** Only one integer is nearest to `x` with ties going to the even one. */
  lemma RoundHalfEvenUnique(x: real, n: int)
    requires n as real - 0.5 <= x <= n as real + 0.5
    requires x - n as real == 0.5 || n as real - x == 0.5 ==> n % 2 == 0
    ensures n == RoundHalfEven(x)
  {
  }

  /** `timedelta(seconds=t)`: the time as a whole number of microseconds. */
  function Micros(t: real): (n: int)
    ensures n as real - 0.5 <= t * 1000000.0 <= n as real + 0.5
    ensures t * 1000000.0 - n as real == 0.5 || n as real - t * 1000000.0 == 0.5 ==> n % 2 == 0
  {
    RoundHalfEven(t * 1000000.0)
  }

  /** `timedelta(seconds=t).total_seconds()`. */
  function TotalSeconds(t: real): real {
    Micros(t) as real / 1000000.0
  }

  /**
   * The whole milliseconds a time prints as: its microseconds divided by
   * 1000, rounded down. They are the truncated milliseconds of the time
   * itself, up to half a microsecond either side.
   */
  function Millis(t: real): (m: int)
    ensures m as real - 0.0005 <= t * 1000.0 <= m as real + 0.9995
  {
    var n := Micros(t);
    assert 1000 * (n / 1000) <= n <= 1000 * (n / 1000) + 999;
    assert t * 1000000.0 == 1000.0 * (t * 1000.0);
    n / 1000
  }

  /** Truncating the rounded seconds to milliseconds is dividing the microseconds by 1000. */
  lemma TotalSecondsMillis(t: real)
    ensures (TotalSeconds(t) * 1000.0).Floor == Millis(t)
  {
    hide Micros;
    var m := Micros(t);
    var q, r := m / 1000, m % 1000;
    assert m == 1000 * q + r;
    assert TotalSeconds(t) * 1000.0 == m as real / 1000.0;
    assert m as real / 1000.0 == q as real + r as real / 1000.0;
    FloorShift(m as real / 1000.0, q, 0);
  }

  /** A time strictly within half a microsecond of `n` microseconds is held as `n`. */
  lemma MicrosOf(t: real, n: int)
    requires n as real - 0.5 < t * 1000000.0 < n as real + 0.5
    ensures Micros(t) == n
  {
    RoundHalfEvenUnique(t * 1000000.0, n);
  }

  /**
   * The microsecond rounding only matters within half a microsecond below a
   * millisecond boundary: everywhere else the printed milliseconds are the
   * truncated milliseconds of the time itself.
   */
  lemma MillisIsFloor(t: real)
    requires t * 1000.0 < (t * 1000.0).Floor as real + 0.9995
    ensures Millis(t) == (t * 1000.0).Floor
  {
    hide RoundHalfEven;
    var f := (t * 1000.0).Floor;
    var n := Micros(t);
    assert 1000 * f <= n <= 1000 * f + 999 by {
      assert t * 1000000.0 == 1000.0 * (t * 1000.0);
    }
  }

  /** A non-negative time has non-negative milliseconds. */
  lemma MillisNonNegative(t: real)
    requires t >= 0.0
    ensures Millis(t) >= 0
  {
  }

  /** The printed fields of a time: those of its whole milliseconds. */
  function Fields(t: real): (c: Clock)
    ensures c == Divide(TotalSeconds(t))
  {
    DivideIsClockOfMillis(TotalSeconds(t));
    TotalSecondsMillis(t);
    ClockOfMillis(Millis(t))
  }

  /** Prints the fields as `HH:MM:SS,mmm`, each zero-padded, the hours to at least two digits. */
  function Render(c: Clock): string {
    PadInt(c.hours, 2) + ":" + PadInt(c.minutes, 2) + ":" + PadInt(c.seconds, 2) + "," + PadInt(c.millis, 3)
  }

  /** `format_timestamp(t)`: the rendering of the time's whole milliseconds, split into hours, minutes, seconds and milliseconds. */
  function Format(t: real): (text: string)
    ensures text == Render(ClockOfMillis(Millis(t)))
  {
    DivideIsClockOfMillis(TotalSeconds(t));
    TotalSecondsMillis(t);
    Render(Divide(TotalSeconds(t)))
  }

  /** The fields of a time are the in-range clock that adds up to its whole milliseconds. */
  lemma FieldsOf(t: real, total: int, c: Clock)
    requires Millis(t) == total
    requires InRange(c) && ClockMillis(c) == total
    ensures Divide(TotalSeconds(t)) == c
  {
    hide Millis, TotalSeconds;
    ClockOfMillisInverse(c);
    DivideIsClockOfMillis(TotalSeconds(t));
    TotalSecondsMillis(t);
  }

  /** Reads a cue time back into total milliseconds. */
  function Parse(s: string): Option<int> {
    if |s| < 11 then None
    else
      var k := |s| - 10;
      var tail := s[k..];
      if tail[0] == ':' && tail[3] == ':' && tail[6] == ','
         && AllDigits(tail[1..3]) && AllDigits(tail[4..6]) && AllDigits(tail[7..])
      then
        match ParseInt(s[..k])
        case None => None
        case Some(h) =>
          Some(h * 3600000 + DigitsValue(tail[1..3]) * 60000 + DigitsValue(tail[4..6]) * 1000 + DigitsValue(tail[7..]))
      else None
  }

  /** The shape `HH:MM:SS,mmm` with at least two hour digits. */
  predicate WellFormed(s: string) {
    && 12 <= |s|
    && AllDigits(s[..|s| - 10])
    && s[|s| - 10] == ':' && AllDigits(s[|s| - 9..|s| - 7])
    && s[|s| - 7] == ':' && AllDigits(s[|s| - 6..|s| - 4])
    && s[|s| - 4] == ',' && AllDigits(s[|s| - 3..])
  }

  lemma {:induction false} FixedWidth(n: int, width: nat)
    requires 1 <= width && 0 <= n < Pow10(width)
    ensures |PadInt(n, width)| == width
  {
    DigitsLength(n, width);
  }

  /** Where each field sits in `h:mm:ss,mmm` when the last three fields have fixed widths. */
  lemma Layout(h: string, m: string, s: string, ms: string)
    requires |m| == 2 && |s| == 2 && |ms| == 3
    ensures var f := h + ":" + m + ":" + s + "," + ms;
      && |f| == |h| + 10
      && f[..|h|] == h
      && f[|h|..] == [':', m[0], m[1], ':', s[0], s[1], ',', ms[0], ms[1], ms[2]]
  {
    var tail := [':', m[0], m[1], ':', s[0], s[1], ',', ms[0], ms[1], ms[2]];
    assert ":" + m + ":" + s + "," + ms == tail;
    assert h + ":" + m + ":" + s + "," + ms == h + tail;
  }

  /** `Format(t)` split into the hour text and the ten fixed characters after it. */
  lemma {:induction false} FormatLayout(t: real)
    ensures var c := Fields(t);
      var f := Format(t);
      var h := PadInt(c.hours, 2);
      var m, s, ms := PadInt(c.minutes, 2), PadInt(c.seconds, 2), PadInt(c.millis, 3);
      && |m| == 2 && |s| == 2 && |ms| == 3
      && |f| == |h| + 10
      && f[..|h|] == h
      && f[|h|..] == [':', m[0], m[1], ':', s[0], s[1], ',', ms[0], ms[1], ms[2]]
  {
    hide Divide;
    var c := Fields(t);
    FixedWidth(c.minutes, 2);
    FixedWidth(c.seconds, 2);
    FixedWidth(c.millis, 3);
    Layout(PadInt(c.hours, 2), PadInt(c.minutes, 2), PadInt(c.seconds, 2), PadInt(c.millis, 3));
  }

  /** Digit fields laid out as `h:mm:ss,mmm`, with at least two hour digits, have the shape. */
  lemma {:induction false} LayoutWellFormed(f: string, h: string, m: string, s: string, ms: string)
    requires 2 <= |h| && AllDigits(h) && AllDigits(m) && AllDigits(s) && AllDigits(ms)
    requires |m| == 2 && |s| == 2 && |ms| == 3
    requires |f| == |h| + 10 && f[..|h|] == h
    requires f[|h|..] == [':', m[0], m[1], ':', s[0], s[1], ',', ms[0], ms[1], ms[2]]
    ensures WellFormed(f)
  {
    var tail := f[|h|..];
    assert f[..|f| - 10] == h;
    assert f[|f| - 9..|f| - 7] == tail[1..3] == m;
    assert f[|f| - 6..|f| - 4] == tail[4..6] == s;
    assert f[|f| - 3..] == tail[7..] == ms;
  }

  /** A non-negative time formats as `HH:MM:SS,mmm`, with exactly ten characters after the hours. */
  lemma {:induction false} FormatShape(t: real)
    requires t >= 0.0
    ensures WellFormed(Format(t))
  {
    hide Divide, Render, Format, ClockOfMillis, Millis;
    var c := Fields(t);
    MillisNonNegative(t);
    ClockOfMillisTotal(Millis(t));
    FormatLayout(t);
    LayoutWellFormed(Format(t), PadInt(c.hours, 2), PadInt(c.minutes, 2), PadInt(c.seconds, 2), PadInt(c.millis, 3));
  }

  /** Parsing text laid out as `h:mm:ss,mmm` reads each field in place. */
  lemma {:induction false} ParseLayout(f: string, h: string, m: string, s: string, ms: string, hours: int)
    requires |m| == 2 && |s| == 2 && |ms| == 3
    requires AllDigits(m) && AllDigits(s) && AllDigits(ms) && ParseInt(h) == Some(hours)
    requires |f| == |h| + 10 && f[..|h|] == h
    requires f[|h|..] == [':', m[0], m[1], ':', s[0], s[1], ',', ms[0], ms[1], ms[2]]
    ensures Parse(f) == Some(hours * 3600000 + DigitsValue(m) * 60000 + DigitsValue(s) * 1000 + DigitsValue(ms))
  {
    var tail := f[|f| - 10..];
    assert tail[1..3] == m;
    assert tail[4..6] == s;
    assert tail[7..] == ms;
  }

  /** Formatting keeps exactly the whole milliseconds: parsing the text gives them back. */
  lemma {:induction false} FormatRoundTrip(t: real)
    ensures Parse(Format(t)) == Some(Millis(t))
  {
    hide Divide, Render, Format, ClockOfMillis, Parse, Millis;
    var c := Fields(t);
    ClockOfMillisTotal(Millis(t));
    FormatLayout(t);
    PadIntRoundTrip(c.hours, 2);
    ParseLayout(Format(t), PadInt(c.hours, 2), PadInt(c.minutes, 2), PadInt(c.seconds, 2), PadInt(c.millis, 3), c.hours);
  }

  /** Two times print the same exactly when they agree on their whole milliseconds. */
  lemma {:induction false} FormatEqualIff(t1: real, t2: real)
    ensures Format(t1) == Format(t2) <==> Millis(t1) == Millis(t2)
  {
    hide Divide, Render, ClockOfMillis, Parse, Millis, TotalSeconds;
    FormatRoundTrip(t1);
    FormatRoundTrip(t2);
    var c1, c2 := Fields(t1), Fields(t2);
    assert Format(t1) == Render(c1) && Format(t2) == Render(c2);
  }

  /** The characters a printed time is made of: digits, the separators and a minus sign. */
  predicate StampChars(s: string) {
    forall i :: 0 <= i < |s| ==> IsDigit(s[i]) || s[i] == ':' || s[i] == ',' || s[i] == '-'
  }

  lemma StampCharsAppend(a: string, b: string)
    requires StampChars(a) && StampChars(b)
    ensures StampChars(a + b)
  {
    forall i | 0 <= i < |a + b|
      ensures var c := (a + b)[i]; IsDigit(c) || c == ':' || c == ',' || c == '-'
    {
      if i >= |a| {
        assert (a + b)[i] == b[i - |a|];
      }
    }
  }

  lemma PadIntChars(n: int, width: nat)
    ensures StampChars(PadInt(n, width))
  {
    var r := PadInt(n, width);
    if n < 0 {
      assert forall i :: 1 <= i < |r| ==> r[i] == r[1..][i - 1];
    }
  }

  /** A printed time holds nothing but digits, `:`, `,` and `-`: no white space and no line break. */
  lemma FormatChars(t: real)
    ensures StampChars(Format(t))
  {
    hide Divide, TotalSeconds;
    var c := Divide(TotalSeconds(t));
    var h, m, s, ms := PadInt(c.hours, 2), PadInt(c.minutes, 2), PadInt(c.seconds, 2), PadInt(c.millis, 3);
    PadIntChars(c.hours, 2);
    PadIntChars(c.minutes, 2);
    PadIntChars(c.seconds, 2);
    PadIntChars(c.millis, 3);
    assert StampChars(":") && StampChars(",");
    StampCharsAppend(h, ":");
    StampCharsAppend(h + ":", m);
    StampCharsAppend(h + ":" + m, ":");
    StampCharsAppend(h + ":" + m + ":", s);
    StampCharsAppend(h + ":" + m + ":" + s, ",");
    StampCharsAppend(h + ":" + m + ":" + s + ",", ms);
  }

  /** A time whose whole milliseconds make up clock `c` prints as `c` is rendered. */
  lemma FormatIs(t: real, total: int, c: Clock, text: string)
    requires Millis(t) == total
    requires InRange(c) && ClockMillis(c) == total
    requires Render(c) == text
    ensures Format(t) == text
  {
    hide Render;
    FieldsOf(t, total, c);
  }

  lemma RenderZero()
    ensures Render(Clock(0, 0, 0, 0)) == "00:00:00,000"
  {
    hide PadInt;
    PadTwo(0);
    PadThree(0);
  }

  lemma RenderHourMinuteSecond()
    ensures Render(Clock(1, 1, 1, 500)) == "01:01:01,500"
  {
    hide PadInt;
    PadTwo(1);
    PadThree(500);
  }

  lemma RenderTruncated()
    ensures Render(Clock(0, 0, 59, 999)) == "00:00:59,999"
  {
    hide PadInt;
    PadTwo(0);
    PadTwo(59);
    PadThree(999);
  }

  lemma RenderHundredHours()
    ensures Render(Clock(100, 0, 0, 0)) == "100:00:00,000"
  {
    hide PadInt;
    PadTwo(0);
    PadThree(0);
    PadHundred();
  }

  lemma PadHundred()
    ensures PadInt(100, 2) == "100"
  {
    assert NatToDigits(10) == "10";
  }

  /** The zero time prints as all zeros. */
  lemma FormatZero()
    ensures Format(0.0) == "00:00:00,000"
  {
    hide Divide, Render, Format, Fields, ClockOfMillis, Micros;
    RenderZero();
    MicrosOf(0.0, 0);
    FormatIs(0.0, 0, Clock(0, 0, 0, 0), "00:00:00,000");
  }

  /** One hour, one minute and one and a half seconds. */
  lemma FormatHourMinuteSecond()
    ensures Format(3661.5) == "01:01:01,500"
  {
    hide Divide, Render, Format, Fields, ClockOfMillis, Micros;
    RenderHourMinuteSecond();
    MicrosOf(3661.5, 3661500000);
    FormatIs(3661.5, 3661500, Clock(1, 1, 1, 500), "01:01:01,500");
  }

  /** Milliseconds are truncated: a time just short of a minute does not round up to it. */
  lemma FormatTruncates()
    ensures Format(59.9999) == "00:00:59,999"
  {
    hide Divide, Render, Format, Fields, ClockOfMillis, Micros;
    RenderTruncated();
    MicrosOf(59.9999, 59999900);
    FormatIs(59.9999, 59999, Clock(0, 0, 59, 999), "00:00:59,999");
  }

  /** Hours are not wrapped at 24 or 100: 100 hours print as three digits. */
  lemma FormatHundredHours()
    ensures Format(360000.0) == "100:00:00,000"
  {
    hide Divide, Render, Format, Fields, ClockOfMillis, Micros;
    RenderHundredHours();
    MicrosOf(360000.0, 360000000000);
    FormatIs(360000.0, 360000000, Clock(100, 0, 0, 0), "100:00:00,000");
  }

  lemma RenderOneMinute()
    ensures Render(Clock(0, 1, 0, 0)) == "00:01:00,000"
  {
    hide PadInt;
    PadTwo(0);
    PadTwo(1);
    PadThree(0);
  }

  /**
   * The microsecond rounding of `timedelta` comes before the truncation to
   * milliseconds: less than half a microsecond short of a minute prints as
   * the minute.
   */
  lemma FormatRoundsToMicroseconds()
    ensures Format(59.9999996) == "00:01:00,000"
  {
    hide Divide, Render, Format, Fields, ClockOfMillis, Micros;
    RenderOneMinute();
    MicrosOf(59.9999996, 60000000);
    FormatIs(59.9999996, 60000, Clock(0, 1, 0, 0), "00:01:00,000");
  }
}
