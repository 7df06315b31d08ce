/** The stopwatch window of the system clock: a millisecond counter advanced by a 10 ms
    timer, the Start / Stop / Reset buttons, and the "HH:MM:SS.mmm" label it shows. */
module Stopwatch {
  import opened JavaLang

  /** The timer period, and what each firing adds to the elapsed time, in milliseconds. */
  const TICK_MS: int := 10
  const MS_PER_SECOND: int := 1000
  const MS_PER_MINUTE: int := 60000
  const MS_PER_HOUR: int := 3600000

  /** The label as the window first shows it. */
  const INITIAL_LABEL: string := "00:00:00.000"

  // ---------------------------------------------------------------- the fields shown

  /** The four numbers the label shows. */
  datatype Clock = Clock(hours: int, minutes: int, seconds: int, millis: int)

  /** The fields as updateStopwatchDisplay computes them with Java's truncating int `/`
      and `%`: the hours are not taken modulo anything. */
  function Fields(t: int): Clock
  {
    Clock(Div(t, MS_PER_HOUR), Rem(Div(t, MS_PER_MINUTE), 60), Rem(Div(t, MS_PER_SECOND), 60), Rem(t, MS_PER_SECOND))
  }

  /** The time a clock reading stands for. */
  function Compose(c: Clock): int
  {
    c.hours * MS_PER_HOUR + c.minutes * MS_PER_MINUTE + c.seconds * MS_PER_SECOND + c.millis
  }

  /** For a time that has not wrapped round, the fields are in their ranges and add up to
      the time again: the reading loses nothing. */
  lemma FieldsCompose(t: int)
    requires t >= 0
    ensures var c := Fields(t);
      0 <= c.millis < 1000 && 0 <= c.seconds < 60 && 0 <= c.minutes < 60 && 0 <= c.hours
      && c.hours == t / MS_PER_HOUR && Compose(c) == t
  {
    var c := Fields(t);
    var secs, mins := t / MS_PER_SECOND, t / MS_PER_MINUTE;
    assert t == secs * 1000 + c.millis;
    assert mins == secs / 60;
    assert secs == mins * 60 + c.seconds;
    assert c.hours == mins / 60;
    assert mins == c.hours * 60 + c.minutes;
  }

  /** Once the int has wrapped round to a negative time, every field is the negation of
      the field the positive time would show (Java's remainder keeps the dividend's sign). */
  lemma FieldsNegative(t: int)
    requires t < 0
    ensures var c, p := Fields(t), Fields(-t);
      c == Clock(-p.hours, -p.minutes, -p.seconds, -p.millis)
  {
  }

  // ---------------------------------------------------------------- String.format

  function Zeros(k: int): (s: string)
    ensures |s| == if k > 0 then k else 0
    ensures forall i :: 0 <= i < |s| ==> s[i] == '0'
  {
    if k <= 0 then "" else "0" + Zeros(k - 1)
  }

  /** String.format's "%0wd": the decimal digits of n, padded with zeros on the left to w
      characters; a negative n keeps its minus sign in front of the zeros. */
  function Pad(n: int, w: int): string
  {
    var digits := NatToString(if n < 0 then -n else n);
    if n < 0 then "-" + Zeros(w - 1 - |digits|) + digits else Zeros(w - |digits|) + digits
  }

  /** Leading zeros do not change the value of a digit string. */
  lemma {:induction false} ZerosValue(k: int, s: string)
    requires AllDigits(s)
    ensures AllDigits(Zeros(k) + s) && DigitsValue(Zeros(k) + s) == DigitsValue(s)
  {
    var z := Zeros(k) + s;
    if s == [] {
      assert z == Zeros(k);
      if k > 0 {
        assert z[..|z| - 1] == Zeros(k - 1) + s;
        ZerosValue(k - 1, s);
      }
    } else {
      assert z[..|z| - 1] == Zeros(k) + s[..|s| - 1];
      ZerosValue(k, s[..|s| - 1]);
    }
  }

  lemma {:induction false} DigitsLength(n: nat, w: nat)
    requires (w == 1 && n < 10) || (w == 2 && n < 100) || (w == 3 && n < 1000)
    ensures |NatToString(n)| <= w
  {
    if n >= 10 {
      DigitsLength(n / 10, w - 1);
    }
  }

  /** A field that fits the width pads to exactly w digits denoting it. */
  lemma PadDigits(n: int, w: nat)
    requires 0 <= n && ((w == 2 && n < 100) || (w == 3 && n < 1000))
    ensures |Pad(n, w)| == w && AllDigits(Pad(n, w)) && DigitsValue(Pad(n, w)) == n
  {
    DigitsLength(n, w);
    NatToStringValue(n);
    ZerosValue(w - |NatToString(n)|, NatToString(n));
  }

  /** updateStopwatchDisplay's text: "%02d:%02d:%02d.%03d" of hours, minutes, seconds and
      milliseconds. */
  function Display(t: int): string
  {
    var c := Fields(t);
    Pad(c.hours, 2) + ":" + Pad(c.minutes, 2) + ":" + Pad(c.seconds, 2) + "." + Pad(c.millis, 3)
  }

  /** Reads an "HH:MM:SS.mmm" label back into a time: the inverse of Display below 100 hours. */
  function ParseDisplay(s: string): Option<int>
  {
    if |s| == 12 && s[2] == ':' && s[5] == ':' && s[8] == '.'
       && AllDigits(s[0..2]) && AllDigits(s[3..5]) && AllDigits(s[6..8]) && AllDigits(s[9..12])
       && DigitsValue(s[3..5]) < 60 && DigitsValue(s[6..8]) < 60
    then Some(Compose(Clock(DigitsValue(s[0..2]), DigitsValue(s[3..5]), DigitsValue(s[6..8]), DigitsValue(s[9..12]))))
    else None
  }

  /** A reading whose fields fit their widths formats to twelve characters and parses back. */
  lemma ParseFormatted(c: Clock)
    requires 0 <= c.hours < 100 && 0 <= c.minutes < 60 && 0 <= c.seconds < 60 && 0 <= c.millis < 1000
    ensures var s := Pad(c.hours, 2) + ":" + Pad(c.minutes, 2) + ":" + Pad(c.seconds, 2) + "." + Pad(c.millis, 3);
      |s| == 12 && ParseDisplay(s) == Some(Compose(c))
  {
    PadDigits(c.hours, 2);
    PadDigits(c.minutes, 2);
    PadDigits(c.seconds, 2);
    PadDigits(c.millis, 3);
    LabelParts(Pad(c.hours, 2), Pad(c.minutes, 2), Pad(c.seconds, 2), Pad(c.millis, 3));
  }

  /** Where the four fields of an "HH:MM:SS.mmm" label sit. */
  lemma LabelParts(h: string, m: string, sec: string, ms: string)
    requires |h| == 2 && |m| == 2 && |sec| == 2 && |ms| == 3
    ensures var s := h + ":" + m + ":" + sec + "." + ms;
      |s| == 12 && s[2] == ':' && s[5] == ':' && s[8] == '.'
      && s[0..2] == h && s[3..5] == m && s[6..8] == sec && s[9..12] == ms
  {
    var s := h + ":" + m + ":" + sec + "." + ms;
    assert s[0..2] == h;
    assert s[3..5] == m;
    assert s[6..8] == sec;
    assert s[9..12] == ms;
  }

  /** Below 100 hours the label is twelve characters and reads back as the time it shows. */
  lemma DisplayRoundTrip(t: int)
    requires 0 <= t < 100 * MS_PER_HOUR
    ensures |Display(t)| == 12 && ParseDisplay(Display(t)) == Some(t)
  {
    FieldsCompose(t);
    ParseFormatted(Fields(t));
  }

  /** Two times below 100 hours never show the same label. */
  lemma DisplayInjective(t: int, u: int)
    requires 0 <= t < 100 * MS_PER_HOUR && 0 <= u < 100 * MS_PER_HOUR
    ensures Display(t) == Display(u) <==> t == u
  {
    DisplayRoundTrip(t);
    DisplayRoundTrip(u);
  }

  /** The label the window starts with is the display of zero elapsed time. */
  lemma InitialLabel()
    ensures Display(0) == INITIAL_LABEL
  {
    PadDigits(0, 2);
    PadDigits(0, 3);
    assert NatToString(0) == "0";
  }

  // ---------------------------------------------------------------- the window

  class StopwatchWindow {
    /** Milliseconds counted so far, a Java int. */
    var elapsedTime: int
    /** The text of the label. */
    var stopwatchLabel: string
    var startEnabled: bool
    var stopEnabled: bool
    /** Whether the 10 ms timer is firing. */
    var timerRunning: bool

    /** The label shows the counter; exactly one of Start and Stop is enabled, Stop exactly
        while the timer runs. */
    ghost predicate Valid()
      reads this
    {
      IsInt(elapsedTime) && stopwatchLabel == Display(elapsedTime)
      && startEnabled == !stopEnabled && timerRunning == stopEnabled
    }

    constructor ()
      ensures Valid() && elapsedTime == 0 && stopwatchLabel == INITIAL_LABEL
      ensures startEnabled && !stopEnabled && !timerRunning
    {
      elapsedTime := 0;
      stopwatchLabel := INITIAL_LABEL;
      startEnabled, stopEnabled := true, false;
      timerRunning := false;
      new;
      InitialLabel();
    }

    /** startStopwatch: swaps the enabled buttons and starts a new 10 ms timer. The Start
        button is disabled while the timer runs, so it is only pressed when enabled. */
    method Start()
      requires Valid() && startEnabled
      modifies this`startEnabled, this`stopEnabled, this`timerRunning
      ensures Valid() && !startEnabled && stopEnabled && timerRunning
    {
      startEnabled := false;
      stopEnabled := true;
      timerRunning := true;
    }

    /** stopStopwatch: swaps the enabled buttons back and stops the timer, if one exists;
        the elapsed time and the label stay. */
    method Stop()
      requires Valid()
      modifies this`startEnabled, this`stopEnabled, this`timerRunning
      ensures Valid() && startEnabled && !stopEnabled && !timerRunning
    {
      startEnabled := true;
      stopEnabled := false;
      timerRunning := false;
    }

    /** resetStopwatch: zeroes the time and redraws; a running timer keeps running. */
    method Reset()
      requires Valid()
      modifies this`elapsedTime, this`stopwatchLabel
      ensures Valid() && elapsedTime == 0 && stopwatchLabel == INITIAL_LABEL
    {
      elapsedTime := 0;
      UpdateDisplay();
      InitialLabel();
    }

    /** One firing of the timer: 10 ms more, in int arithmetic, then a redraw. */
    method Tick()
      requires Valid() && timerRunning
      modifies this`elapsedTime, this`stopwatchLabel
      ensures Valid() && elapsedTime == Wrap(old(elapsedTime) + TICK_MS)
    {
      elapsedTime := Wrap(elapsedTime + TICK_MS);
      UpdateDisplay();
    }

    /** updateStopwatchDisplay: computes the four fields and formats them into the label. */
    method UpdateDisplay()
      modifies this`stopwatchLabel
      ensures stopwatchLabel == Display(elapsedTime)
    {
      var millis := Rem(elapsedTime, MS_PER_SECOND);
      var seconds := Rem(Div(elapsedTime, MS_PER_SECOND), 60);
      var minutes := Rem(Div(elapsedTime, MS_PER_MINUTE), 60);
      var hours := Div(elapsedTime, MS_PER_HOUR);
      stopwatchLabel := Pad(hours, 2) + ":" + Pad(minutes, 2) + ":" + Pad(seconds, 2) + "." + Pad(millis, 3);
    }
  }

  /** Between two resets the counter goes up by 10 ms per firing, for as long as it stays
      below the int range (about 24.8 days): n firings from zero show 10 * n ms. */
  function Elapsed(n: nat): (t: int)
    ensures TICK_MS * n <= INT_MAX ==> t == TICK_MS * n
  {
    if n == 0 then 0 else Wrap(Elapsed(n - 1) + TICK_MS)
  }
}
