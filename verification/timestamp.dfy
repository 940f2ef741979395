/** The SubRip timestamp `HH:MM:SS,mmm` that `format_time` renders from a
    time in seconds. Time is an exact real number; Python's float operators
    `//`, `%` and `int()` are written out with their Python meaning. */
module Timestamp {
  import opened Wrappers
  import opened Decimal

  /** Python's `x // d` for a positive divisor: the floor of the quotient. */
  function FloorDiv(x: real, d: real): int
    requires d > 0.0
  {
    (x / d).Floor
  }

  /** Python's `x % d` for a positive divisor: what is left after taking
      away the floor quotient's worth of divisors. */
  function FloorMod(x: real, d: real): real
    requires d > 0.0
  {
    x - d * FloorDiv(x, d) as real
  }

  /** Python's `int(x)` on a float: truncation toward zero. */
  function Trunc(x: real): int {
    if x >= 0.0 then x.Floor else -((-x).Floor)
  }

  /** The remainder takes the sign of the divisor, so it lies in [0, d)
      whatever the sign of `x`, and quotient and remainder rebuild `x`. */
  lemma FloorModRange(x: real, d: real)
    requires d > 0.0
    ensures 0.0 <= FloorMod(x, d) < d
    ensures x == d * FloorDiv(x, d) as real + FloorMod(x, d)
  {
    var q := FloorDiv(x, d);
    var r := FloorMod(x, d);
    assert r == x - d * q as real;
    assert d * (x / d) == x;
    MulMonoIff(q as real, x / d, d);
    MulMonoIff(x / d, q as real + 1.0, d);
    assert d * q as real <= x < d * (q as real + 1.0);
  }

  /** Truncation drops the fraction toward zero: below the input by less
      than one for a non-negative input, above it by less than one for a
      negative input. */
  lemma TruncBounds(x: real)
    ensures x >= 0.0 ==> Trunc(x) as real <= x < Trunc(x) as real + 1.0
    ensures x < 0.0 ==> Trunc(x) as real - 1.0 < x <= Trunc(x) as real && Trunc(x) <= 0
  {
  }

  /** The four fields `format_time` prints. */
  datatype Clock = Clock(hours: int, minutes: int, seconds: int, millis: int)

  /** The fields `format_time` computes from `seconds`, operator by operator. */
  function ClockOf(x: real): Clock {
    Clock(Trunc(FloorDiv(x, 3600.0) as real),
          Trunc(FloorDiv(FloorMod(x, 3600.0), 60.0) as real),
          Trunc(FloorMod(x, 60.0)),
          Trunc((x - Trunc(x) as real) * 1000.0))
  }

  /** `format_time(seconds)`: each field zero-padded, hours and minutes and
      seconds to two places and milliseconds to three; a minimum width, so
      the hours widen from 100 upward. */
  function FormatTime(x: real): string {
    var c := ClockOf(x);
    JoinFields(FormatInt(c.hours, 2), FormatInt(c.minutes, 2), FormatInt(c.seconds, 2),
               FormatInt(c.millis, 3))
  }

  /** Reads a `HH:MM:SS,mmm` timestamp whose hour field has two or more
      digits; the other fields are fixed-width. */
  function ParseTimestamp(t: string): Option<Clock> {
    if |t| < 12 then None
    else
      var k := |t| - 10;
      var hh := t[..k];
      var mm := t[k + 1..k + 3];
      var ss := t[k + 4..k + 6];
      var mmm := t[k + 7..];
      if t[k] == ':' && t[k + 3] == ':' && t[k + 6] == ','
         && AllDigits(hh) && AllDigits(mm) && AllDigits(ss) && AllDigits(mmm)
      then Some(Clock(ParseDigits(hh), ParseDigits(mm), ParseDigits(ss), ParseDigits(mmm)))
      else None
  }

  /** Reference definition on whole milliseconds, the integer-only way of
      cutting a duration into clock fields. */
  function ClockOfMillis(t: nat): Clock {
    Clock(t / 3_600_000, (t / 60_000) % 60, (t / 1000) % 60, t % 1000)
  }

  /** The duration a clock reading denotes, in milliseconds. */
  function MillisOf(c: Clock): int {
    ((c.hours * 60 + c.minutes) * 60 + c.seconds) * 1000 + c.millis
  }

  // ---------------------------------------------------------------------
  // Arithmetic helpers

  lemma MulBelow(k: int, d: int)
    requires d > 0 && k * d < d
    ensures k < 1
  {
  }

  lemma MulAbove(k: int, d: int)
    requires d > 0 && -d < k * d
    ensures k > -1
  {
  }

  /** Euclidean division is determined by any quotient/remainder pair. */
  lemma DivModUnique(n: int, d: int, q: int, r: int)
    requires d > 0 && 0 <= r < d && n == q * d + r
    ensures n / d == q && n % d == r
  {
    var q' := n / d;
    var r' := n % d;
    assert (q - q') * d == r' - r;
    MulBelow(q - q', d);
    MulAbove(q - q', d);
  }

  /** Scaling by a positive real preserves order. */
  lemma MulMonoIff(a: real, b: real, d: real)
    requires d > 0.0
    ensures d * a <= d * b <==> a <= b
    ensures d * a < d * b <==> a < b
  {
  }

  /** The floor of a quotient is pinned down by bracketing the dividend. */
  lemma FloorOfQuotient(x: real, d: real, q: int)
    requires d > 0.0
    requires q as real * d <= x < (q as real + 1.0) * d
    ensures (x / d).Floor == q
  {
    var y := x / d;
    assert x == d * y;
    MulMonoIff(q as real, y, d);
    MulMonoIff(y, q as real + 1.0, d);
  }

  /** Python's floor division of a real by a whole divisor agrees with
      integer division of its floor. */
  lemma FloorDivOfFloor(x: real, d: nat)
    requires d > 0
    ensures FloorDiv(x, d as real) == x.Floor / d
  {
    var n := x.Floor;
    var q := n / d;
    assert q * d <= n < q * d + d;
    assert (q * d) as real == q as real * d as real;
    assert ((q + 1) * d) as real == (q as real + 1.0) * d as real;
    FloorOfQuotient(x, d as real, q);
  }

  /** Flooring commutes with subtracting a whole number. */
  lemma FloorMinusInt(x: real, k: int)
    ensures (x - k as real).Floor == x.Floor - k
  {
  }

  /** The fields `format_time` computes, seen on the whole seconds. */
  lemma ClockOfFloor(x: real)
    ensures ClockOf(x).hours == x.Floor / 3600
    ensures ClockOf(x).minutes == (x.Floor % 3600) / 60
    ensures ClockOf(x).seconds == x.Floor % 60
  {
    var n := x.Floor;
    FloorDivOfFloor(x, 3600);
    FloorDivOfFloor(x, 60);
    var r := FloorMod(x, 3600.0);
    assert r == x - (3600 * (n / 3600)) as real;
    FloorMinusInt(x, 3600 * (n / 3600));
    assert r.Floor == n % 3600;
    FloorDivOfFloor(r, 60);
    var r60 := FloorMod(x, 60.0);
    assert r60 == x - (60 * (n / 60)) as real;
    FloorMinusInt(x, 60 * (n / 60));
  }

  // ---------------------------------------------------------------------
  // Properties of the fields

  /** Minutes and seconds always lie in 0..59. For a non-negative time the
      hours are non-negative and the milliseconds lie in 0..999, so the
      field never reads 1000. For a negative time the hours are the floor
      quotient of a negative number, so negative, and the milliseconds come
      from a fraction that `int()` truncates toward zero, so they lie in
      -999..0. */
  lemma ClockRanges(x: real)
    ensures 0 <= ClockOf(x).minutes < 60
    ensures 0 <= ClockOf(x).seconds < 60
    ensures x >= 0.0 ==> ClockOf(x).hours >= 0 && 0 <= ClockOf(x).millis < 1000
    ensures x < 0.0 ==> ClockOf(x).hours < 0 && -1000 < ClockOf(x).millis <= 0
  {
    ClockOfFloor(x);
    var t := Trunc(x);
    var f := x - t as real;
    if x >= 0.0 {
      assert 0.0 <= f * 1000.0 < 1000.0;
    } else {
      assert x.Floor < 0;
      assert -1000.0 < f * 1000.0 <= 0.0;
    }
  }

  /** Hours, minutes and seconds put back together give the whole seconds
      of the input, for every input. */
  lemma ClockReconstructsSeconds(x: real)
    ensures ClockOf(x).hours * 3600 + ClockOf(x).minutes * 60 + ClockOf(x).seconds == x.Floor
  {
    ClockOfFloor(x);
    var n := x.Floor;
    var q := n / 3600;
    var r := n % 3600;
    var m := r / 60;
    var s := r % 60;
    assert n == (q * 60 + m) * 60 + s;
    DivModUnique(n, 60, q * 60 + m, s);
  }

  /** For a non-negative time the clock reading is the time rounded down to
      the millisecond: it never overshoots and misses by less than 1 ms. */
  lemma ClockTruncatesToMillis(x: real)
    requires x >= 0.0
    ensures MillisOf(ClockOf(x)) as real <= x * 1000.0 < MillisOf(ClockOf(x)) as real + 1.0
  {
    ClockReconstructsSeconds(x);
    var c := ClockOf(x);
    var n := x.Floor;
    assert Trunc(x) == n;
    assert c.millis as real <= (x - n as real) * 1000.0 < c.millis as real + 1.0;
    assert MillisOf(c) == n * 1000 + c.millis;
  }

  /** The operator-by-operator fields agree with the integer reference on
      the time truncated to whole milliseconds. */
  lemma ClockMatchesMillisReference(x: real)
    requires x >= 0.0
    ensures (x * 1000.0).Floor >= 0
    ensures ClockOf(x) == ClockOfMillis((x * 1000.0).Floor)
  {
    ClockRanges(x);
    ClockTruncatesToMillis(x);
    var c := ClockOf(x);
    var t := MillisOf(c);
    assert (x * 1000.0).Floor == t;
    ClockOfMillisInverse(t, c);
  }

  /** A clock reading with in-range fields is recovered from its duration:
      ClockOfMillis inverts MillisOf. */
  lemma ClockOfMillisInverse(t: nat, c: Clock)
    requires 0 <= c.minutes < 60 && 0 <= c.seconds < 60 && 0 <= c.millis < 1000
    requires t == MillisOf(c)
    ensures ClockOfMillis(t) == c
  {
    var h := c.hours;
    var m := c.minutes;
    var s := c.seconds;
    var ms := c.millis;
    DivModUnique(t, 1000, (h * 60 + m) * 60 + s, ms);
    DivModUnique((h * 60 + m) * 60 + s, 60, h * 60 + m, s);
    DivModUnique(t, 60_000, h * 60 + m, s * 1000 + ms);
    DivModUnique(h * 60 + m, 60, h, m);
    DivModUnique(t, 3_600_000, h, (m * 60 + s) * 1000 + ms);
  }

  // ---------------------------------------------------------------------
  // Properties of the rendering

  /** A non-negative field below 10^width renders as exactly `width` digits
      that read back as the field. */
  lemma PaddedField(v: int, width: nat)
    requires width >= 1 && 0 <= v < Pow10(width)
    ensures |FormatInt(v, width)| == width
    ensures AllDigits(FormatInt(v, width))
    ensures ParseDigits(FormatInt(v, width)) == v
  {
    NatToStringLength(v, width);
    ParsePadded(v, width);
    assert FormatInt(v, width) == PadLeft(NatToString(v), width);
  }

  /** A non-negative hour count renders as at least two digits reading back
      as the count. */
  lemma HourField(v: int)
    requires 0 <= v
    ensures |FormatInt(v, 2)| >= 2
    ensures AllDigits(FormatInt(v, 2))
    ensures ParseDigits(FormatInt(v, 2)) == v
  {
    ParsePadded(v, 2);
    assert FormatInt(v, 2) == PadLeft(NatToString(v), 2);
  }

  /** The text `hh:mm:ss,mmm`. */
  function JoinFields(hh: string, mm: string, ss: string, mmm: string): string {
    hh + ":" + mm + ":" + ss + "," + mmm
  }

  /** Where each field and separator of a joined timestamp sits. */
  lemma JoinedFieldsAt(hh: string, mm: string, ss: string, mmm: string)
    requires |mm| == 2 && |ss| == 2 && |mmm| == 3
    ensures var t := JoinFields(hh, mm, ss, mmm);
            var k := |hh|;
            && |t| == k + 10
            && t[..k] == hh && t[k] == ':' && t[k + 1..k + 3] == mm && t[k + 3] == ':'
            && t[k + 4..k + 6] == ss && t[k + 6] == ',' && t[k + 7..] == mmm
  {
    var t := JoinFields(hh, mm, ss, mmm);
    var tail := ":" + mm + ":" + ss + "," + mmm;
    var k := |hh|;
    assert t == hh + tail;
    assert tail[1..3] == mm && tail[4..6] == ss && tail[7..] == mmm;
    assert t[k..] == tail;
    assert t[k + 1..k + 3] == tail[1..3];
    assert t[k + 4..k + 6] == tail[4..6];
    assert t[k + 7..] == tail[7..];
  }

  /** ParseTimestamp splits the four fields off at their separators. */
  lemma ParseJoinedFields(hh: string, mm: string, ss: string, mmm: string)
    requires |hh| >= 2 && |mm| == 2 && |ss| == 2 && |mmm| == 3
    requires AllDigits(hh) && AllDigits(mm) && AllDigits(ss) && AllDigits(mmm)
    ensures ParseTimestamp(JoinFields(hh, mm, ss, mmm))
         == Some(Clock(ParseDigits(hh), ParseDigits(mm), ParseDigits(ss), ParseDigits(mmm)))
  {
    JoinedFieldsAt(hh, mm, ss, mmm);
  }

  /** A rendering of a non-negative time reads back as its fields. */
  lemma FormatTimeRoundTrip(x: real)
    requires x >= 0.0
    ensures ParseTimestamp(FormatTime(x)) == Some(ClockOf(x))
  {
    var c := ClockOf(x);
    ClockRanges(x);
    HourField(c.hours);
    PaddedField(c.minutes, 2);
    PaddedField(c.seconds, 2);
    PaddedField(c.millis, 3);
    ParseJoinedFields(FormatInt(c.hours, 2), FormatInt(c.minutes, 2),
                      FormatInt(c.seconds, 2), FormatInt(c.millis, 3));
  }

  /** The rendering of a non-negative time is 12 characters long exactly when
      the hours are below 100; from 100 hours upward only the hour field
      widens, to the full numeral of the hours. */
  lemma FormatTimeLength(x: real)
    requires x >= 0.0
    ensures |FormatTime(x)| == 12 <==> ClockOf(x).hours < 100
    ensures ClockOf(x).hours >= 100 ==> |FormatTime(x)| == |NatToString(ClockOf(x).hours)| + 10
  {
    var c := ClockOf(x);
    ClockRanges(x);
    PaddedField(c.minutes, 2);
    PaddedField(c.seconds, 2);
    PaddedField(c.millis, 3);
    NatToStringLength(c.hours, 2);
    assert FormatInt(c.hours, 2) == PadLeft(NatToString(c.hours), 2);
  }

  lemma JoinStartsWithHours(hh: string, mm: string, ss: string, mmm: string)
    requires |hh| > 0
    ensures JoinFields(hh, mm, ss, mmm)[0] == hh[0]
  {
  }

  /** No SubRip timestamp starts with a minus sign. */
  lemma ParseRejectsSign(t: string)
    requires |t| > 0 && t[0] == '-'
    ensures ParseTimestamp(t) == None
  {
    if |t| >= 12 {
      assert t[..|t| - 10][0] == '-';
    }
  }

  /** A negative time renders with a leading minus sign and so is not a
      SubRip timestamp at all. */
  lemma NegativeTimeMalformed(x: real)
    requires x < 0.0
    ensures FormatTime(x)[0] == '-'
    ensures ParseTimestamp(FormatTime(x)) == None
  {
    ClockRanges(x);
    var c := ClockOf(x);
    var hh := FormatInt(c.hours, 2);
    JoinStartsWithHours(hh, FormatInt(c.minutes, 2), FormatInt(c.seconds, 2), FormatInt(c.millis, 3));
    ParseRejectsSign(FormatTime(x));
  }

  // ---------------------------------------------------------------------
  // Worked examples

  /** FormatTime renders whatever fields ClockOf computes. */
  lemma FormatTimeOfClock(x: real, c: Clock, t: string)
    requires ClockOf(x) == c
    requires JoinFields(FormatInt(c.hours, 2), FormatInt(c.minutes, 2),
                        FormatInt(c.seconds, 2), FormatInt(c.millis, 3)) == t
    ensures FormatTime(x) == t
  {
  }

  /** The renderings of small fields. */
  lemma SmallFields()
    ensures FormatInt(0, 2) == "00" && FormatInt(0, 3) == "000"
    ensures FormatInt(1, 2) == "01" && FormatInt(5, 2) == "05" && FormatInt(7, 3) == "007"
  {
    assert NatToString(0) == "0" && NatToString(1) == "1";
    assert NatToString(5) == "5" && NatToString(7) == "7";
    assert FormatInt(0, 2) == PadLeft("0", 2);
    assert FormatInt(0, 3) == PadLeft("0", 3);
    assert FormatInt(1, 2) == PadLeft("1", 2);
    assert FormatInt(5, 2) == PadLeft("5", 2);
    assert FormatInt(7, 3) == PadLeft("7", 3);
  }

  /** The renderings of the largest in-range minutes, seconds and milliseconds. */
  lemma TopFields()
    ensures FormatInt(59, 2) == "59" && FormatInt(999, 3) == "999"
  {
    assert NatToString(5) == "5" && NatToString(9) == "9";
    assert NatToString(59) == "59";
    assert NatToString(99) == "99";
    assert NatToString(999) == "999";
  }

  lemma MinuteAndSecondFields()
    ensures FormatInt(6, 2) == "06" && FormatInt(40, 2) == "40"
  {
    assert NatToString(6) == "6" && NatToString(4) == "4" && NatToString(40) == "40";
    assert FormatInt(6, 2) == PadLeft("6", 2);
  }

  /** The renderings of a few more fields the examples below use. */
  lemma ScenarioFields()
    ensures FormatInt(3, 2) == "03" && FormatInt(500, 3) == "500"
  {
    assert NatToString(3) == "3";
    assert FormatInt(3, 2) == PadLeft("3", 2);
    assert NatToString(5) == "5";
    assert NatToString(50) == "50";
    assert NatToString(500) == "500";
  }

  /** Each negative field carries its own minus sign, which counts towards
      the field's width. */
  lemma NegativeFields()
    ensures FormatInt(-1, 2) == "-1"
    ensures FormatInt(-500, 3) == "-500"
    ensures FormatInt(58, 2) == "58"
  {
    assert NatToString(8) == "8" && NatToString(58) == "58";
    assert NatToString(1) == "1";
    assert FormatInt(-1, 2) == "-" + PadLeft("1", 1);
    assert NatToString(5) == "5";
    assert NatToString(50) == "50";
    assert NatToString(500) == "500";
    assert FormatInt(-500, 3) == "-" + PadLeft("500", 2);
  }

  /** The timestamp `format_time` gives for 4000 seconds: one hour, six
      minutes and forty seconds. */
  lemma FourThousandSecondsClock()
    ensures ClockOf(4000.0) == Clock(1, 6, 40, 0)
  {
    ClockMatchesMillisReference(4000.0);
    assert (4000.0 * 1000.0).Floor == 4_000_000;
    assert ClockOfMillis(4_000_000) == Clock(1, 6, 40, 0);
  }

  lemma FourThousandSeconds()
    ensures FormatTime(4000.0) == "01:06:40,000"
  {
    assert JoinFields("01", "06", "40", "000") == "01:06:40,000";
    FourThousandSecondsClock();
    SmallFields();
    MinuteAndSecondFields();
    FormatTimeOfClock(4000.0, Clock(1, 6, 40, 0), "01:06:40,000");
  }

  /** From 100 hours upward the hour field widens past two digits. */
  lemma HundredHours()
    ensures FormatTime(360000.0) == "100:00:00,000"
  {
    assert JoinFields("100", "00", "00", "000") == "100:00:00,000";
    ClockOfFloor(360000.0);
    assert ClockOf(360000.0) == Clock(100, 0, 0, 0) by {
      assert (360000.0 - Trunc(360000.0) as real) * 1000.0 == 0.0;
    }
    assert NatToString(1) == "1" && NatToString(10) == "10" && NatToString(100) == "100";
    assert FormatInt(100, 2) == "100";
    SmallFields();
    FormatTimeOfClock(360000.0, Clock(100, 0, 0, 0), "100:00:00,000");
  }

  /** Half a millisecond short of a minute: the seconds stop at 59 and the
      milliseconds at 999, and nothing rolls over into the next minute. */
  lemma JustBelowAMinuteClock()
    ensures ClockOf(59.9995) == Clock(0, 0, 59, 999)
  {
    ClockMatchesMillisReference(59.9995);
    assert (59.9995 * 1000.0).Floor == 59999;
    assert ClockOfMillis(59999) == Clock(0, 0, 59, 999);
  }

  lemma JustBelowAMinute()
    ensures FormatTime(59.9995) == "00:00:59,999"
  {
    assert JoinFields("00", "00", "59", "999") == "00:00:59,999";
    JustBelowAMinuteClock();
    SmallFields();
    TopFields();
    FormatTimeOfClock(59.9995, Clock(0, 0, 59, 999), "00:00:59,999");
  }

  /** A millisecond short of an hour stays in hour 0. */
  lemma JustBelowAnHourClock()
    ensures ClockOf(3599.999) == Clock(0, 59, 59, 999)
  {
    ClockMatchesMillisReference(3599.999);
    assert (3599.999 * 1000.0).Floor == 3599999;
    assert ClockOfMillis(3599999) == Clock(0, 59, 59, 999);
  }

  lemma JustBelowAnHour()
    ensures FormatTime(3599.999) == "00:59:59,999"
  {
    assert JoinFields("00", "59", "59", "999") == "00:59:59,999";
    JustBelowAnHourClock();
    SmallFields();
    TopFields();
    FormatTimeOfClock(3599.999, Clock(0, 59, 59, 999), "00:59:59,999");
  }

  /** Single-digit fields are padded with zeros; on exact time the
      milliseconds of 5.007 are 7. */
  lemma FiveSecondsSevenMillis()
    ensures FormatTime(5.007) == "00:00:05,007"
  {
    assert JoinFields("00", "00", "05", "007") == "00:00:05,007";
    ClockMatchesMillisReference(5.007);
    assert (5.007 * 1000.0).Floor == 5007;
    assert ClockOfMillis(5007) == Clock(0, 0, 5, 7);
    SmallFields();
    FormatTimeOfClock(5.007, Clock(0, 0, 5, 7), "00:00:05,007");
  }

  /** A negative time: the hours are the floor quotient and the minutes and
      seconds the floor remainder, while only the milliseconds truncate
      toward zero. The fields then no longer add up to the time: they denote
      -2.5 s, not -1.5 s. */
  lemma MinusOneAndAHalfClock()
    ensures ClockOf(-1.5) == Clock(-1, 59, 58, -500)
    ensures MillisOf(ClockOf(-1.5)) == -2500
  {
    ClockOfFloor(-1.5);
    assert (-1.5).Floor == -2;
    assert Trunc(-1.5) == -1;
    assert Trunc((-1.5 - Trunc(-1.5) as real) * 1000.0) == -500;
  }

  /** The rendering of that negative time. */
  lemma MinusOneAndAHalfSeconds()
    ensures FormatTime(-1.5) == "-1:59:58,-500"
  {
    assert JoinFields("-1", "59", "58", "-500") == "-1:59:58,-500";
    MinusOneAndAHalfClock();
    NegativeFields();
    TopFields();
    FormatTimeOfClock(-1.5, Clock(-1, 59, 58, -500), "-1:59:58,-500");
  }

  /** The times of a short two-segment transcript. */
  lemma ZeroSeconds()
    ensures FormatTime(0.0) == "00:00:00,000"
  {
    assert JoinFields("00", "00", "00", "000") == "00:00:00,000";
    assert ClockOf(0.0) == Clock(0, 0, 0, 0) by {
      ClockMatchesMillisReference(0.0);
      assert ClockOfMillis(0) == Clock(0, 0, 0, 0);
    }
    SmallFields();
    FormatTimeOfClock(0.0, Clock(0, 0, 0, 0), "00:00:00,000");
  }

  lemma OneAndAHalfSeconds()
    ensures FormatTime(1.5) == "00:00:01,500"
  {
    assert JoinFields("00", "00", "01", "500") == "00:00:01,500";
    ClockMatchesMillisReference(1.5);
    assert (1.5 * 1000.0).Floor == 1500;
    assert ClockOfMillis(1500) == Clock(0, 0, 1, 500);
    SmallFields();
    ScenarioFields();
    FormatTimeOfClock(1.5, Clock(0, 0, 1, 500), "00:00:01,500");
  }

  lemma ThreeSeconds()
    ensures FormatTime(3.0) == "00:00:03,000"
  {
    assert JoinFields("00", "00", "03", "000") == "00:00:03,000";
    ClockMatchesMillisReference(3.0);
    assert (3.0 * 1000.0).Floor == 3000;
    assert ClockOfMillis(3000) == Clock(0, 0, 3, 0);
    SmallFields();
    ScenarioFields();
    FormatTimeOfClock(3.0, Clock(0, 0, 3, 0), "00:00:03,000");
  }
}
