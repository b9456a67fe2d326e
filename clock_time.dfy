/**
 * Wall-clock times written `HH:MM`, as the reservation forms send them, and their value in
 * minutes from midnight.
 */
module ClockTime {
  import opened PhpString

  /** Two digits, a colon, two digits. */
  predicate HasTimeShape(s: string)
  {
    |s| == 5 && IsDigit(s[0]) && IsDigit(s[1]) && s[2] == ':' && IsDigit(s[3]) && IsDigit(s[4])
  }

  function HourField(s: string): nat
    requires HasTimeShape(s)
  {
    DigitVal(s[0]) * 10 + DigitVal(s[1])
  }

  function MinuteField(s: string): nat
    requires HasTimeShape(s)
  {
    DigitVal(s[3]) * 10 + DigitVal(s[4])
  }

  /**
   * A real time of day: what Laravel's `date_format:H:i` rule accepts, since that rule
   * requires the value to print back identically in the format `H:i`.
   */
  predicate IsClockTime(s: string)
  {
    HasTimeShape(s) && HourField(s) < 24 && MinuteField(s) < 60
  }

  /**
   * Minutes after midnight of the reference date that PHP's `DateTime::createFromFormat('H:i', s)`
   * lands on. Out-of-range fields overflow instead of failing (`25:99` is 1599), so only a real
   * time of day stays within one day.
   */
  function ClockMinutes(s: string): (m: nat)
    requires HasTimeShape(s)
    ensures m <= 99 * 60 + 99
    ensures IsClockTime(s) ==> m < 1440
  {
    HourField(s) * 60 + MinuteField(s)
  }

  function TwoDigits(n: nat): (s: string)
    requires n < 100
    ensures |s| == 2 && IsDigit(s[0]) && IsDigit(s[1])
    ensures DigitVal(s[0]) * 10 + DigitVal(s[1]) == n
  {
    [DigitChar(n / 10), DigitChar(n % 10)]
  }

  /** The `HH:MM` notation of a minute of the day. */
  function FormatClock(m: nat): (s: string)
    requires m < 1440
    ensures IsClockTime(s) && ClockMinutes(s) == m
  {
    TwoDigits(m / 60) + ":" + TwoDigits(m % 60)
  }

  /** Every real time of day is the notation of its own minute value. */
  lemma ClockRoundTrip(s: string)
    requires IsClockTime(s)
    ensures FormatClock(ClockMinutes(s)) == s
  {
    var m := ClockMinutes(s);
    assert m / 60 == HourField(s) && m % 60 == MinuteField(s);
    var f := FormatClock(m);
    DigitOrder(f[0], s[0]);
    DigitOrder(f[1], s[1]);
    DigitOrder(f[3], s[3]);
    DigitOrder(f[4], s[4]);
  }

  /**
   * On real times of day, the byte-wise string comparison PHP applies to `HH:MM` strings
   * agrees with the order of their minute values.
   */
  lemma StringOrderIsClockOrder(a: string, b: string)
    requires IsClockTime(a) && IsClockTime(b)
    ensures StrLess(a, b) <==> ClockMinutes(a) < ClockMinutes(b)
  {
    DigitOrder(a[0], b[0]);
    DigitOrder(a[1], b[1]);
    DigitOrder(a[3], b[3]);
    DigitOrder(a[4], b[4]);
    if a[0] == b[0] {
      assert StrLess(a, b) == StrLess(a[1..], b[1..]);
      if a[1] == b[1] {
        assert StrLess(a[1..], b[1..]) == StrLess(a[2..], b[2..]);
        assert StrLess(a[2..], b[2..]) == StrLess(a[3..], b[3..]);
        if a[3] == b[3] {
          assert StrLess(a[3..], b[3..]) == StrLess(a[4..], b[4..]);
          if a[4] == b[4] {
            assert StrLess(a[4..], b[4..]) == StrLess(a[5..], b[5..]);
            assert a[5..] == [] && b[5..] == [];
          }
        }
      }
    }
  }

  /** The agreement needs real minutes: with a minute field of 99 the two orders disagree. */
  lemma ShapeOrderCanDisagree()
    ensures HasTimeShape("00:99") && HasTimeShape("01:00")
    ensures StrLess("00:99", "01:00") && ClockMinutes("00:99") > ClockMinutes("01:00")
  {
    assert StrLess("00:99", "01:00") == StrLess("0:99", "1:00");
  }

  /** How a `time` column hands a stored minute back: `HH:MM:SS`, seconds zero. */
  function TimeColumnValue(m: nat): (s: string)
    requires m < 1440
    ensures |s| == 8 && s[..5] == FormatClock(m)
  {
    FormatClock(m) + ":00"
  }
}
