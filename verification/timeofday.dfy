/** Conversion between "HH:MM" strings and minutes since midnight, as the
    timeline computes it. */
module TimeOfDay {
  import opened JsNumber

  /** Two digits, a colon, two digits: the shape `<input type="time">`
      produces. Hours up to 99 and minutes up to 99 still have this shape. */
  predicate WellFormed(t: string) {
    |t| == 5 && IsDigit(t[0]) && IsDigit(t[1]) && t[2] == ':' && IsDigit(t[3]) && IsDigit(t[4])
  }

  /** `Number` of the part before the colon. */
  function HourOf(t: string): (h: nat)
    requires WellFormed(t)
    ensures h == DigitValue(t[0]) * 10 + DigitValue(t[1]) && h < 100
  {
    DigitsValueTwo(t[..2]);
    DigitsValue(t[..2])
  }

  /** `Number` of the part after the colon. */
  function MinuteOf(t: string): (m: nat)
    requires WellFormed(t)
    ensures m == DigitValue(t[3]) * 10 + DigitValue(t[4]) && m < 100
  {
    DigitsValueTwo(t[3..]);
    DigitsValue(t[3..])
  }

  /** A time of day on a 24-hour clock: 00:00 to 23:59. */
  predicate IsClockTime(t: string) {
    WellFormed(t) && HourOf(t) < 24 && MinuteOf(t) < 60
  }

  /** `timeToMinutes`: split at the colon, read both parts as numbers,
      hours times sixty plus minutes. With a minute part below 60 the hour
      and minute are recovered by division; a clock time lands in a day. */
  function TimeToMinutes(t: string): (m: nat)
    requires WellFormed(t)
    ensures MinuteOf(t) < 60 ==> m / 60 == HourOf(t) && m % 60 == MinuteOf(t)
    ensures IsClockTime(t) ==> m < 1440
    ensures m <= 99 * 60 + 99
  {
    HourOf(t) * 60 + MinuteOf(t)
  }

  /** `minutesToTime`: floor-divided hours and the remainder, each turned to
      text and padded to two digits, joined by a colon. Below 100 hours the
      result is well formed and reads back as the same number of minutes. */
  function MinutesToTime(m: nat): (t: string)
    ensures m < 6000 ==> WellFormed(t) && MinuteOf(t) < 60 && TimeToMinutes(t) == m
    ensures m < 1440 ==> IsClockTime(t)
  {
    var text := TwoDigits(m / 60) + ":" + TwoDigits(m % 60);
    if m < 6000 then
      TwoDigitsBelow100(m / 60);
      TwoDigitsBelow100(m % 60);
      text
    else
      text
  }

  lemma TwoDigitsOfDigits(n: nat, c0: char, c1: char)
    requires IsDigit(c0) && IsDigit(c1)
    requires n == DigitValue(c0) * 10 + DigitValue(c1)
    ensures TwoDigits(n) == [c0, c1]
  {
    TwoDigitsBelow100(n);
    assert n / 10 == DigitValue(c0) && n % 10 == DigitValue(c1);
    assert DigitChar(DigitValue(c0)) == c0 && DigitChar(DigitValue(c1)) == c1;
  }

  lemma MinutesToTimeParts(h: nat, m: nat)
    requires m < 60
    ensures MinutesToTime(h * 60 + m) == TwoDigits(h) + ":" + TwoDigits(m)
  {
    var x := h * 60 + m;
    assert x / 60 == h && x % 60 == m;
  }

  /** Padding the hour and the minute read from a well-formed time gives
      back its text. */
  lemma PaddedParts(t: string)
    requires WellFormed(t)
    ensures TwoDigits(HourOf(t)) + ":" + TwoDigits(MinuteOf(t)) == t
  {
    var h, m := HourOf(t), MinuteOf(t);
    TwoDigitsOfDigits(h, t[0], t[1]);
    TwoDigitsOfDigits(m, t[3], t[4]);
    assert [t[0], t[1]] + [':'] + [t[3], t[4]] == t;
  }

  /** Reading a well-formed time and writing it back gives the same text,
      provided its minute part is below 60. */
  lemma TimeRoundTrip(t: string)
    requires WellFormed(t) && MinuteOf(t) < 60
    ensures MinutesToTime(TimeToMinutes(t)) == t
  {
    MinutesToTimeParts(HourOf(t), MinuteOf(t));
    PaddedParts(t);
  }

  /** Writing a number of minutes as text and reading it back gives the same
      number, for anything below 100 hours. This is part of MinutesToTime's
      postcondition, named here as the round trip that pairs with
      TimeRoundTrip. */
  lemma MinutesRoundTrip(m: nat)
    requires m < 6000
    ensures WellFormed(MinutesToTime(m)) && TimeToMinutes(MinutesToTime(m)) == m
  {
  }

  /** The text of hour h and minute m is a clock time worth h * 60 + m. */
  lemma ClockTimeValue(t: string, h: nat, m: nat)
    requires h < 24 && m < 60
    requires t == TwoDigits(h) + ":" + TwoDigits(m)
    ensures IsClockTime(t) && TimeToMinutes(t) == h * 60 + m
  {
    MinutesToTimeParts(h, m);
    MinutesRoundTrip(h * 60 + m);
  }

  /** ClockTimeValue for the text spelled out digit by digit. Stating the
      text as a literal sequence of digits lets the worked examples match
      "08:00" directly, which keeps their proofs small. */
  lemma ClockTimes(h: nat, m: nat)
    requires h < 24 && m < 60
    ensures var t := [DigitChar(h / 10), DigitChar(h % 10), ':', DigitChar(m / 10), DigitChar(m % 10)];
      IsClockTime(t) && TimeToMinutes(t) == h * 60 + m
  {
    TwoDigitsBelow100(h);
    TwoDigitsBelow100(m);
    ClockTimeValue(TwoDigits(h) + ":" + TwoDigits(m), h, m);
  }
}
