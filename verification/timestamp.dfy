/**
 * The SubRip timestamp formatter: a duration is truncated to whole
 * milliseconds, split into hours, minutes, seconds and milliseconds by
 * integer division and remainder, and rendered as `HH:MM:SS,mmm` with each
 * field zero-padded to a minimum width. `ParseTimestamp` reads such a
 * string back and is the partner of the round-trip lemma.
 */
module Timestamp {
  import opened Wrappers
  import opened Decimal

  /** A duration, as its total count of nanoseconds. */
  type Duration = nat

  const NanosPerMilli: nat := 1_000_000
  const MillisPerSecond: nat := 1000
  const MillisPerMinute: nat := 60 * 1000
  const MillisPerHour: nat := 60 * 60 * 1000

  /** Whole milliseconds in d; the sub-millisecond part is dropped. */
  function AsMillis(d: Duration): (m: nat)
    ensures m * NanosPerMilli <= d < (m + 1) * NanosPerMilli
  {
    d / NanosPerMilli
  }

  /** The four fields of a timestamp. */
  datatype Clock = Clock(hours: nat, minutes: nat, seconds: nat, millis: nat)

  /** Minutes and seconds below 60, milliseconds below 1000; hours unbounded. */
  predicate InRange(c: Clock) {
    c.minutes < 60 && c.seconds < 60 && c.millis < 1000
  }

  /** The millisecond count a clock reading stands for. */
  function TotalMillis(c: Clock): nat {
    c.hours * MillisPerHour + c.minutes * MillisPerMinute + c.seconds * MillisPerSecond + c.millis
  }

  /** The fields format_time computes from a total millisecond count. */
  function Split(total: nat): (c: Clock)
    ensures InRange(c)
    ensures TotalMillis(c) == total
  {
    var c := Clock(total / MillisPerHour, (total / MillisPerMinute) % 60,
                   (total / MillisPerSecond) % 60, total % MillisPerSecond);
    assert total == (total / 1000) * 1000 + total % 1000;
    assert total / 1000 == (total / 60000) * 60 + (total / 1000) % 60;
    assert total / 60000 == (total / 3600000) * 60 + (total / 60000) % 60;
    c
  }

  /** The fields are the only in-range reading of their total. */
  lemma SplitUnique(c: Clock)
    requires InRange(c)
    ensures Split(TotalMillis(c)) == c
  {
    var t := TotalMillis(c);
    assert t / 1000 == c.hours * 3600 + c.minutes * 60 + c.seconds;
    assert t / 60000 == c.hours * 60 + c.minutes;
    assert t / 3600000 == c.hours;
  }

  /** The hour field is below k exactly when the total is below k hours. */
  lemma HoursBelow(total: nat, k: nat)
    ensures total / MillisPerHour < k <==> total < k * MillisPerHour
  {
    var h := total / MillisPerHour;
    assert total == h * MillisPerHour + total % MillisPerHour;
    if h < k {
      assert (h + 1) * MillisPerHour <= k * MillisPerHour;
    } else {
      assert h * MillisPerHour >= k * MillisPerHour;
    }
  }

  /** format_time: `HH:MM:SS,mmm`, each field zero-padded to width 2, 2, 2, 3. */
  function FormatTime(d: Duration): string {
    var c := Split(AsMillis(d));
    PadLeft(c.hours, 2) + ":" + PadLeft(c.minutes, 2) + ":" + PadLeft(c.seconds, 2)
      + "," + PadLeft(c.millis, 3)
  }

  /** Four digit fields joined by `:`, `:` and `,`. */
  lemma TimestampLayout(h: string, m: string, sec: string, ms: string)
    requires AllDigits(h) && AllDigits(m) && AllDigits(sec) && AllDigits(ms)
    requires |m| == 2 && |sec| == 2 && |ms| == 3
    ensures var s := h + ":" + m + ":" + sec + "," + ms;
      && |s| == |h| + 10
      && s[|s| - 10] == ':' && s[|s| - 7] == ':' && s[|s| - 4] == ','
      && forall i :: 0 <= i < |s| && i != |s| - 10 && i != |s| - 7 && i != |s| - 4 ==> IsDigit(s[i])
  {
    var s := h + ":" + m + ":" + sec + "," + ms;
    var n := |h|;
    assert forall i :: 0 <= i < n ==> s[i] == h[i];
    assert forall i :: 0 <= i < 2 ==> s[n + 1 + i] == m[i] && s[n + 4 + i] == sec[i];
    assert forall i :: 0 <= i < 3 ==> s[n + 7 + i] == ms[i];
  }

  /**
   * The shape of a timestamp: separators `:`, `:` and `,` before the last
   * 9, 6 and 3 characters, digits everywhere else, and exactly 12
   * characters when the hour field is below 100, more from 100 hours on.
   */
  lemma FormatTimeShape(d: Duration)
    ensures var s := FormatTime(d);
      && |s| == Max(2, |Digits(Split(AsMillis(d)).hours)|) + 10
      && (|s| == 12 <==> AsMillis(d) < 100 * MillisPerHour)
      && s[|s| - 10] == ':' && s[|s| - 7] == ':' && s[|s| - 4] == ','
      && forall i :: 0 <= i < |s| && i != |s| - 10 && i != |s| - 7 && i != |s| - 4 ==> IsDigit(s[i])
  {
    var c := Split(AsMillis(d));
    PadLeftSpec(c.hours, 2);
    PadLeftSpec(c.minutes, 2);
    PadLeftSpec(c.seconds, 2);
    PadLeftSpec(c.millis, 3);
    PadLeftWidth(c.hours, 2);
    PadLeftWidth(c.minutes, 2);
    PadLeftWidth(c.seconds, 2);
    PadLeftWidth(c.millis, 3);
    HoursBelow(AsMillis(d), 100);
    TimestampLayout(PadLeft(c.hours, 2), PadLeft(c.minutes, 2), PadLeft(c.seconds, 2), PadLeft(c.millis, 3));
  }

  /**
   * Reads `H:MM:SS,mmm` (an hour field of two or more digits) back into a
   * millisecond count; None for anything else, including a minute or second
   * field of 60 or more.
   */
  function ParseTimestamp(s: string): (r: Option<nat>)
  {
    if |s| < 12 || s[|s| - 10] != ':' || s[|s| - 7] != ':' || s[|s| - 4] != ',' then None
    else
      var h, m, sec, ms := s[..|s| - 10], s[|s| - 9..|s| - 7], s[|s| - 6..|s| - 4], s[|s| - 3..];
      if !(AllDigits(h) && AllDigits(m) && AllDigits(sec) && AllDigits(ms)) then None
      else if Value(m) >= 60 || Value(sec) >= 60 then None
      else Some(TotalMillis(Clock(Value(h), Value(m), Value(sec), Value(ms))))
  }

  /** A timestamp read from its four digit fields. */
  lemma ParseTimestampParts(h: string, m: string, sec: string, ms: string)
    requires AllDigits(h) && AllDigits(m) && AllDigits(sec) && AllDigits(ms)
    requires |h| >= 2 && |m| == 2 && |sec| == 2 && |ms| == 3
    requires Value(m) < 60 && Value(sec) < 60
    ensures ParseTimestamp(h + ":" + m + ":" + sec + "," + ms)
      == Some(TotalMillis(Clock(Value(h), Value(m), Value(sec), Value(ms))))
  {
    var s := h + ":" + m + ":" + sec + "," + ms;
    assert |s| == |h| + 10;
    assert s[|s| - 10] == ':' && s[|s| - 7] == ':' && s[|s| - 4] == ',';
    assert s[..|s| - 10] == h;
    assert s[|s| - 9..|s| - 7] == m by {
      assert forall k :: 0 <= k < 2 ==> s[|h| + 1 + k] == m[k];
    }
    assert s[|s| - 6..|s| - 4] == sec by {
      assert forall k :: 0 <= k < 2 ==> s[|h| + 4 + k] == sec[k];
    }
    assert s[|s| - 3..] == ms;
    var c := Clock(Value(h), Value(m), Value(sec), Value(ms));
    assert ParseTimestamp(s) == Some(TotalMillis(c));
  }

  /** Reading a formatted timestamp gives back its whole-millisecond count. */
  lemma TimestampRoundTrip(d: Duration)
    ensures ParseTimestamp(FormatTime(d)) == Some(AsMillis(d))
  {
    var c := Split(AsMillis(d));
    PadLeftSpec(c.hours, 2);
    PadLeftSpec(c.minutes, 2);
    PadLeftSpec(c.seconds, 2);
    PadLeftSpec(c.millis, 3);
    PadLeftWidth(c.minutes, 2);
    PadLeftWidth(c.seconds, 2);
    PadLeftWidth(c.millis, 3);
    ParseTimestampParts(PadLeft(c.hours, 2), PadLeft(c.minutes, 2), PadLeft(c.seconds, 2), PadLeft(c.millis, 3));
  }

  /** Two durations print alike exactly when they have the same whole milliseconds. */
  lemma FormatTimeInjective(d1: Duration, d2: Duration)
    ensures FormatTime(d1) == FormatTime(d2) <==> AsMillis(d1) == AsMillis(d2)
  {
    TimestampRoundTrip(d1);
    TimestampRoundTrip(d2);
  }

  /** A field below 10 is its one digit after width - 1 zeros. */
  lemma PadSingleDigit(n: nat, width: nat)
    requires n < 10 && width >= 1
    ensures PadLeft(n, width) == Zeros(width - 1) + [DigitChar(n)]
  {
  }

  /** Zero prints as all zero fields. */
  lemma FormatTimeZero()
    ensures FormatTime(0) == "00:00:00,000"
  {
    assert Split(0) == Clock(0, 0, 0, 0);
    PadSingleDigit(0, 2);
    PadSingleDigit(0, 3);
    assert Zeros(1) + [DigitChar(0)] == "00";
    assert Zeros(2) + [DigitChar(0)] == "000";
    assert "00" + ":" + "00" + ":" + "00" + "," + "000" == "00:00:00,000";
  }

  /** 1 h 2 min 5 s 1 ms, with any sub-millisecond remainder dropped. */
  lemma FormatTimeExample(d: Duration)
    requires 3_725_001 * NanosPerMilli <= d < 3_725_002 * NanosPerMilli
    ensures FormatTime(d) == "01:02:05,001"
  {
    assert AsMillis(d) == 3_725_001;
    assert Split(3_725_001) == Clock(1, 2, 5, 1);
    PadSingleDigit(1, 2);
    PadSingleDigit(2, 2);
    PadSingleDigit(5, 2);
    PadSingleDigit(1, 3);
    assert Zeros(1) + [DigitChar(1)] == "01";
    assert Zeros(1) + [DigitChar(2)] == "02";
    assert Zeros(1) + [DigitChar(5)] == "05";
    assert Zeros(2) + [DigitChar(1)] == "001";
    assert "01" + ":" + "02" + ":" + "05" + "," + "001" == "01:02:05,001";
  }

  /** Under one second only the millisecond field is non-zero. */
  lemma FormatTimeUnderOneSecond(d: Duration)
    requires AsMillis(d) < MillisPerSecond
    ensures FormatTime(d) == "00:00:00," + PadLeft(AsMillis(d), 3)
  {
    var ms := AsMillis(d);
    assert Split(ms) == Clock(0, 0, 0, ms);
    PadSingleDigit(0, 2);
    assert Zeros(1) + [DigitChar(0)] == "00";
    assert "00" + ":" + "00" + ":" + "00" + "," == "00:00:00,";
  }

  /** A whole number of milliseconds converts back exactly. */
  lemma WholeMillis(ms: nat)
    ensures AsMillis(ms * NanosPerMilli) == ms
  {
    var m := AsMillis(ms * NanosPerMilli);
    assert m * NanosPerMilli <= ms * NanosPerMilli < (m + 1) * NanosPerMilli;
  }

  /** A three-digit millisecond count under one second, printed digit by digit. */
  lemma FormatTimeMillis(a: nat, b: nat, c: nat, text: string)
    requires 1 <= a < 10 && b < 10 && c < 10
    requires text == "00:00:00," + [DigitChar(a), DigitChar(b), DigitChar(c)]
    ensures FormatTime((100 * a + 10 * b + c) * NanosPerMilli) == text
  {
    var ms := 100 * a + 10 * b + c;
    WholeMillis(ms);
    FormatTimeUnderOneSecond(ms * NanosPerMilli);
    PadThreeDigits(a, b, c);
  }

  /** A number of exactly three digits fills a width-3 field without padding. */
  lemma PadThreeDigits(a: nat, b: nat, c: nat)
    requires 1 <= a < 10 && b < 10 && c < 10
    ensures PadLeft(100 * a + 10 * b + c, 3) == [DigitChar(a), DigitChar(b), DigitChar(c)]
  {
    var ms := 100 * a + 10 * b + c;
    assert ms / 10 == 10 * a + b && ms % 10 == c;
    assert (10 * a + b) / 10 == a && (10 * a + b) % 10 == b;
    assert Digits(10 * a + b) == [DigitChar(a), DigitChar(b)];
    assert Digits(ms) == [DigitChar(a), DigitChar(b), DigitChar(c)];
  }

  /** 540 ms prints with zero hour, minute and second fields. */
  lemma FormatTimeExample540()
    ensures FormatTime(540 * NanosPerMilli) == "00:00:00,540"
  {
    assert AsMillis(540 * NanosPerMilli) == 540;
    FormatTimeUnderOneSecond(540 * NanosPerMilli);
    assert Digits(540) == "540" by {
      assert Digits(54) == "54";
    }
    assert PadLeft(540, 3) == "540";
  }

  /** The hour field is not capped at two digits: 100 hours print as 100. */
  lemma FormatTimeHundredHours()
    ensures FormatTime(100 * MillisPerHour * NanosPerMilli) == "100:00:00,000"
  {
    assert AsMillis(100 * MillisPerHour * NanosPerMilli) == 100 * MillisPerHour;
    assert Split(100 * MillisPerHour) == Clock(100, 0, 0, 0);
    assert Digits(100) == "100" by {
      assert Digits(10) == "10";
    }
    assert PadLeft(100, 2) == "100";
    PadSingleDigit(0, 2);
    PadSingleDigit(0, 3);
    assert Zeros(1) + [DigitChar(0)] == "00";
    assert Zeros(2) + [DigitChar(0)] == "000";
    assert "100" + ":" + "00" + ":" + "00" + "," + "000" == "100:00:00,000";
  }
}
