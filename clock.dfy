/** The remaining-time formatter of the timer tree view: a non-negative
    millisecond count rendered as a zero-padded `HH:MM:SS` clock whose hour
    field wraps modulo 24 (there is no day field). */
module Clock {

  const MillisPerSecond := 1000
  const MillisPerMinute := 60 * 1000
  const MillisPerHour := 60 * 60 * 1000
  const SecondsPerDay := 24 * 60 * 60

  function DigitChar(d: nat): (c: char)
    requires d < 10
    ensures '0' <= c <= '9' && (c as int) - ('0' as int) == d
  {
    "0123456789"[d]
  }

  /** Value of a decimal digit character. */
  function DigitValue(c: char): int
  {
    (c as int) - ('0' as int)
  }

  /** The decimal rendering of a natural number, as a number is converted
      when it is placed in a template string (no leading zeros). */
  function DecimalString(n: nat): (r: string)
    ensures 1 <= |r|
    decreases n
  {
    if n < 10 then [DigitChar(n)] else DecimalString(n / 10) + [DigitChar(n % 10)]
  }

  /** A field of the clock: `n < 10 ? "0" + n : n`. */
  function ZeroPad(n: nat): string
  {
    if n < 10 then "0" + DecimalString(n) else DecimalString(n)
  }

  /** The number written by the two characters `s[i]`, `s[i + 1]`. */
  function TwoDigitsAt(s: string, i: nat): int
    requires i + 1 < |s|
  {
    DigitValue(s[i]) * 10 + DigitValue(s[i + 1])
  }

  predicate IsDigit(c: char)
  {
    '0' <= c <= '9'
  }

  /** millisToMinutesAndSeconds: seconds, minutes and hours of `millis`,
      each taken modulo the size of the next unit (hours modulo 24), each
      padded to two digits and joined by colons. Its only caller passes a
      remaining time that it has just checked is not negative. */
  function MillisToMinutesAndSeconds(millis: int): (r: string)
    requires millis >= 0
    ensures |r| == 8 && r[2] == ':' && r[5] == ':'
    ensures forall i | 0 <= i < 8 && i != 2 && i != 5 :: IsDigit(r[i])
  {
    var seconds := (millis / MillisPerSecond) % 60;
    var minutes := (millis / MillisPerMinute) % 60;
    var hours := (millis / MillisPerHour) % 24;
    ZeroPadTwoDigits(hours);
    ZeroPadTwoDigits(minutes);
    ZeroPadTwoDigits(seconds);
    ZeroPad(hours) + ":" + ZeroPad(minutes) + ":" + ZeroPad(seconds)
  }

  /** Below 100 the padded field is exactly the tens digit then the units digit. */
  lemma ZeroPadTwoDigits(n: nat)
    requires n < 100
    ensures ZeroPad(n) == [DigitChar(n / 10), DigitChar(n % 10)]
  {
    if n >= 10 {
      assert DecimalString(n / 10) == [DigitChar(n / 10)];
    }
  }

  /** The clock string, character by character. */
  lemma FormatDigits(millis: int)
    requires millis >= 0
    ensures var seconds := (millis / MillisPerSecond) % 60;
      var minutes := (millis / MillisPerMinute) % 60;
      var hours := (millis / MillisPerHour) % 24;
      MillisToMinutesAndSeconds(millis)
        == [DigitChar(hours / 10), DigitChar(hours % 10), ':',
            DigitChar(minutes / 10), DigitChar(minutes % 10), ':',
            DigitChar(seconds / 10), DigitChar(seconds % 10)]
  {
    ZeroPadTwoDigits((millis / MillisPerHour) % 24);
    ZeroPadTwoDigits((millis / MillisPerMinute) % 60);
    ZeroPadTwoDigits((millis / MillisPerSecond) % 60);
  }

  /** Reading the three fields back from the clock string gives the hours of
      the day, the minutes of the hour and the seconds of the minute. */
  lemma FormatRoundTrip(millis: int)
    requires millis >= 0
    ensures var r := MillisToMinutesAndSeconds(millis);
      && TwoDigitsAt(r, 0) == (millis / MillisPerHour) % 24
      && TwoDigitsAt(r, 3) == (millis / MillisPerMinute) % 60
      && TwoDigitsAt(r, 6) == (millis / MillisPerSecond) % 60
  {
    FormatDigits(millis);
  }

  /** Minutes and hours of a millisecond count are those of its whole seconds. */
  lemma DivisionChain(millis: int)
    requires millis >= 0
    ensures millis / MillisPerMinute == (millis / MillisPerSecond) / 60
    ensures millis / MillisPerHour == (millis / MillisPerSecond) / 3600
  {
    var x := millis / MillisPerSecond;
    assert millis == 1000 * x + millis % 1000;
    var m := x / 60;
    assert x == 60 * m + x % 60;
    assert millis == 60000 * m + (1000 * (x % 60) + millis % 1000);
    var h := x / 3600;
    assert x == 3600 * h + x % 3600;
    assert millis == 3600000 * h + (1000 * (x % 3600) + millis % 1000);
  }

  /** A whole-second count and its remainder modulo one day have the same
      seconds, minutes and hour-of-day fields. */
  lemma DayOffsetFields(x: int, k: int, y: int)
    requires x >= 0 && k >= 0 && 0 <= y < SecondsPerDay && x == SecondsPerDay * k + y
    ensures x % 60 == y % 60
    ensures (x / 60) % 60 == (y / 60) % 60
    ensures (x / 3600) % 24 == y / 3600
  {
    assert x == 60 * (1440 * k + y / 60) + y % 60;
    assert x / 60 == 1440 * k + y / 60;
    assert x == 3600 * (24 * k + y / 3600) + y % 3600;
    assert x / 3600 == 24 * k + y / 3600;
  }

  /** A second of the day is its hour times 3600, plus its minute times 60,
      plus its second. */
  lemma DaySecondSplit(y: int)
    requires 0 <= y < SecondsPerDay
    ensures y == (y / 3600) * 3600 + ((y / 60) % 60) * 60 + y % 60
  {
    var h := y / 3600;
    var r := y % 3600;
    assert y == 3600 * h + r && 0 <= r < 3600;
    assert y / 60 == 60 * h + r / 60;
    assert (y / 60) % 60 == r / 60;
    assert r == 60 * (r / 60) + y % 60;
  }

  /** The whole seconds of `millis` split into hours of the day, minutes and
      seconds: a second of the day is determined by its three fields. */
  lemma SecondOfDayFields(millis: int)
    requires millis >= 0
    ensures var x := millis / MillisPerSecond;
      && (millis / MillisPerMinute) % 60 == (x % SecondsPerDay) / 60 % 60
      && (millis / MillisPerHour) % 24 == (x % SecondsPerDay) / 3600
      && (millis / MillisPerSecond) % 60 == (x % SecondsPerDay) % 60
      && x % SecondsPerDay == ((millis / MillisPerHour) % 24) * 3600
                              + ((millis / MillisPerMinute) % 60) * 60
                              + (millis / MillisPerSecond) % 60
  {
    var x := millis / MillisPerSecond;
    DivisionChain(millis);
    DayOffsetFields(x, x / SecondsPerDay, x % SecondsPerDay);
    DaySecondSplit(x % SecondsPerDay);
  }

  /** Two non-negative durations are displayed alike exactly when they fall
      in the same second of the day: the clock loses the days and the
      milliseconds and nothing else. */
  lemma SameDisplayIffSameSecondOfDay(a: int, b: int)
    requires a >= 0 && b >= 0
    ensures MillisToMinutesAndSeconds(a) == MillisToMinutesAndSeconds(b)
        <==> (a / MillisPerSecond) % SecondsPerDay == (b / MillisPerSecond) % SecondsPerDay
  {
    FormatRoundTrip(a);
    FormatRoundTrip(b);
    SecondOfDayFields(a);
    SecondOfDayFields(b);
  }
}
