/**
 * The countdown display of frontend/src/components/Timer.jsx: the `m:ss`
 * text, the colour band and the time-up condition, as functions of the
 * slice's `timeRemaining`.
 */
module TimerView {
  import opened Wrappers
  import opened Text
  import opened PollSlice

  /** JavaScript's `%`: the remainder takes the sign of the dividend. */
  function JsRem(a: int, b: int): (r: int)
    requires b > 0
    ensures a >= 0 ==> r == a % b
    ensures a < 0 ==> -b < r <= 0
  {
    if a >= 0 then a % b else -((-a) % b)
  }

  /**
   * `formatTime`: `Math.floor(seconds / 60)`, a colon, then `seconds % 60`
   * padded to two characters with a leading "0".
   */
  function FormatTime(seconds: int): string {
    Clock(seconds / 60, JsRem(seconds, 60))
  }

  /** The text of `mins` and `secs`: `${mins}:${secs.toString().padStart(2, "0")}`. */
  function Clock(mins: int, secs: int): string {
    IntToString(mins) + ":" + PadStart2(IntToString(secs))
  }

  /** A number below 100, padded, is two digits that read back as it. */
  lemma {:induction false} TwoDigits(s: nat)
    requires s < 100
    ensures var secs := PadStart2(NatToString(s));
      |secs| == 2 && AllDigits(secs) && ParseDigits(secs) == s
  {
    var secs := PadStart2(NatToString(s));
    if s < 10 {
      assert secs == ['0', DigitChar(s)];
      assert secs[..1] == ['0'] && ['0'][..0] == [];
    } else {
      assert NatToString(s / 10) == [DigitChar(s / 10)];
      assert secs == NatToString(s);
      ParseNatToString(s);
    }
  }

  /** Reads an `m:ss` text back as a number of seconds. */
  function ParseClock(t: string): Option<int> {
    if |t| >= 4 && t[|t| - 3] == ':' && AllDigits(t[..|t| - 3]) && AllDigits(t[|t| - 2..]) then
      Some(ParseDigits(t[..|t| - 3]) * 60 + ParseDigits(t[|t| - 2..]))
    else
      None
  }

  /** Digits, a colon and two digits read back as minutes and seconds. */
  lemma {:induction false} ParseClockParts(t: string, mins: string, secs: string, m: int, s: int)
    requires t == mins + ":" + secs
    requires mins != [] && AllDigits(mins) && |secs| == 2 && AllDigits(secs)
    requires ParseDigits(mins) == m && ParseDigits(secs) == s
    ensures ParseClock(t) == Some(m * 60 + s)
  {
    assert t[..|t| - 3] == mins;
    assert t[|t| - 2..] == secs;
  }

  /** The decimal form of `m`, a colon and two digits read back as `m` minutes and those seconds. */
  lemma {:induction false} MinutesClock(t: string, m: nat, secs: string, s: int)
    requires t == NatToString(m) + ":" + secs
    requires |secs| == 2 && AllDigits(secs) && ParseDigits(secs) == s
    ensures ParseClock(t) == Some(m * 60 + s)
  {
    ParseNatToString(m);
    ParseClockParts(t, NatToString(m), secs, m, s);
  }

  /** For non-negative parts the display is the plain decimal forms. */
  lemma ClockDigits(m: nat, s: nat)
    ensures Clock(m, s) == NatToString(m) + ":" + PadStart2(NatToString(s))
  {
  }

  /** The display of `m` minutes and `s < 60` seconds reads back as `m * 60 + s`. */
  lemma {:induction false} ClockRoundTrip(m: nat, s: nat)
    requires s < 60
    ensures ParseClock(Clock(m, s)) == Some(m * 60 + s)
  {
    ClockDigits(m, s);
    TwoDigits(s);
    MinutesClock(Clock(m, s), m, PadStart2(NatToString(s)), s);
  }

  /** Reading the display back gives the count it shows. */
  lemma {:induction false} FormatRoundTrip(seconds: int)
    requires seconds >= 0
    ensures ParseClock(FormatTime(seconds)) == Some(seconds)
  {
    var m, s := seconds / 60, seconds % 60;
    assert m * 60 + s == seconds;
    assert FormatTime(seconds) == Clock(m, s);
    ClockRoundTrip(m, s);
  }

  /** So two different non-negative counts are never shown alike. */
  lemma FormatInjective(a: int, b: int)
    requires a >= 0 && b >= 0 && FormatTime(a) == FormatTime(b)
    ensures a == b
  {
    FormatRoundTrip(a);
    FormatRoundTrip(b);
  }

  /** The arithmetic behind `NegativeFormat`: floored minutes `m`, truncated seconds `r`. */
  lemma NegativeParts(seconds: int, m: int, r: int)
    requires seconds < 0 && m == seconds / 60 && r == JsRem(seconds, 60)
    ensures m < 0 && -60 < r <= 0
    ensures r == 0 <==> seconds % 60 == 0
    ensures m * 60 + r == if r == 0 then seconds else seconds - 60
  {
    var e := seconds % 60;
    assert seconds == m * 60 + e && 0 <= e < 60;
    var q := -seconds;
    assert r == -(q % 60);
    if e == 0 {
      assert q == (-m) * 60;
    } else {
      assert q == (-m - 1) * 60 + (60 - e);
    }
  }

  /**
   * A negative count, shown as minutes `m` and seconds `r`: the minutes are
   * floored, so they carry a minus sign; the seconds keep the sign of the
   * count, so they show a minus sign too unless the count is a whole number
   * of minutes, when they show "00". The two halves then no longer add up
   * to the count: they fall a minute short.
   */
  lemma NegativeFormat(seconds: int, m: int, r: int)
    requires seconds < 0 && m == seconds / 60 && r == JsRem(seconds, 60)
    ensures m < 0
    ensures r == 0 <==> seconds % 60 == 0
    ensures FormatTime(seconds) == "-" + NatToString(-m) + ":" + (if r == 0 then "00" else "-" + NatToString(-r))
    ensures m * 60 + r == if r == 0 then seconds else seconds - 60
  {
    NegativeParts(seconds, m, r);
    assert FormatTime(seconds) == Clock(m, r);
    NegativeClock(m, r);
  }

  /** The text of negative minutes and non-positive seconds. */
  lemma NegativeClock(m: int, r: int)
    requires m < 0 && r <= 0
    ensures Clock(m, r) == "-" + NatToString(-m) + ":" + (if r == 0 then "00" else "-" + NatToString(-r))
  {
    assert IntToString(m) == "-" + NatToString(-m);
    if r == 0 {
      assert PadStart2(IntToString(r)) == "00";
    } else {
      assert PadStart2(IntToString(r)) == "-" + NatToString(-r);
    }
  }

  /** For instance -5 shows as "-1:-5" and -60 as "-1:00". */
  lemma NegativeFormatExamples()
    ensures FormatTime(-5) == "-1:-5"
    ensures FormatTime(-60) == "-1:00"
  {
    assert -5 / 60 == -1 && JsRem(-5, 60) == -5;
    NegativeFormat(-5, -1, -5);
    assert -60 / 60 == -1 && JsRem(-60, 60) == 0;
    NegativeFormat(-60, -1, 0);
    assert NatToString(1) == "1" && NatToString(5) == "5";
  }

  const Red := "#f44336"
  const Orange := "#ff9800"
  const Primary := "var(--primary-vibrant)"

  /** `getTimerColor`: red up to 10 seconds, orange up to 30, the theme colour beyond. */
  function TimerColor(timeRemaining: int): (c: string)
    ensures c == Red <==> timeRemaining <= 10
    ensures c == Orange <==> 10 < timeRemaining <= 30
    ensures c == Primary <==> timeRemaining > 30
  {
    if timeRemaining <= 10 then Red
    else if timeRemaining <= 30 then Orange
    else Primary
  }

  /** How urgent a colour is: 2 for red, 1 for orange, 0 otherwise. */
  function Urgency(c: string): nat {
    if c == Red then 2 else if c == Orange then 1 else 0
  }

  /** As the clock runs down the colour never becomes less urgent. */
  lemma ColorMonotone(later: int, earlier: int)
    requires later <= earlier
    ensures Urgency(TimerColor(later)) >= Urgency(TimerColor(earlier))
  {
  }

  /** The time-up effect calls `onTimeUp` when it is given one and the count is not positive. */
  predicate TimeUp(timeRemaining: int, hasCallback: bool) {
    timeRemaining <= 0 && hasCallback
  }

  /**
   * Started at `t >= 0` seconds, the countdown of the slice reaches time-up
   * exactly after `t` decrements or more.
   */
  lemma TimeUpAfterCountdown(t: int, n: nat)
    requires t >= 0
    ensures TimeUp(Countdown(t, n), true) <==> n >= t
  {
    CountdownFloor(t, n);
  }
}
