/** The `HH:MM:SS` formatter of utils.js (getTime), also copied verbatim
    into contentScript.js. It builds `new Date(0)`, calls `setSeconds(t)`
    and cuts characters 11..18 out of `toISOString()`. `setSeconds` sets
    the seconds field of the local time, so the result depends on the
    local offset from UTC: for an offset that is a whole number of minutes
    and does not change between the epoch and the result, it is the UTC
    time of day of trunc(t) seconds after the epoch (GetTime); LocalGetTime
    covers any constant offset. */
module TimeFormat {

  const SecondsPerDay: int := 86400

  /** Seconds from the epoch to 0000-01-01T00:00:00Z and to
      10000-01-01T00:00:00Z: inside this range toISOString uses a four-digit
      year, so its characters 11..18 are the time of day. */
  const MinIsoSeconds: int := -62167219200
  const MaxIsoSeconds: int := 253402300800

  /** ToIntegerOrInfinity on a finite number: truncation toward zero. */
  function Trunc(t: real): (n: int)
    ensures 0.0 <= t ==> n as real <= t < n as real + 1.0
    ensures t < 0.0 ==> n as real - 1.0 < t <= n as real
  {
    if 0.0 <= t then t.Floor else -((-t).Floor)
  }

  predicate InIsoRange(t: real)
  {
    MinIsoSeconds <= Trunc(t) < MaxIsoSeconds
  }

  predicate IsDigit(c: char)
  {
    '0' <= c <= '9'
  }

  function DigitChar(d: nat): (c: char)
    requires d < 10
    ensures IsDigit(c) && DigitValue(c) == d
  {
    ('0' as int + d) as char
  }

  function DigitValue(c: char): int
  {
    c as int - '0' as int
  }

  /** The decimal value of a two-character field. */
  function FieldValue(f: string): int
    requires |f| == 2
  {
    10 * DigitValue(f[0]) + DigitValue(f[1])
  }

  /** A number below 100, zero-padded to two digits. */
  function Pad2(n: nat): (r: string)
    requires n < 100
    ensures |r| == 2 && IsDigit(r[0]) && IsDigit(r[1])
    ensures FieldValue(r) == n
  {
    [DigitChar(n / 10), DigitChar(n % 10)]
  }

  /** Splitting a whole number of seconds into the fields of its time of day. */
  lemma DayFields(s: int)
    ensures 0 <= (s % SecondsPerDay) / 3600 < 24
    ensures (s % SecondsPerDay) / 3600 == (s / 3600) % 24
    ensures ((s % SecondsPerDay) / 60) % 60 == (s / 60) % 60
    ensures (s % SecondsPerDay) % 60 == s % 60
  {
    var q, d := s / SecondsPerDay, s % SecondsPerDay;
    assert s == 86400 * q + d && 0 <= d < 86400;
    var h, rh := d / 3600, d % 3600;
    assert d == 3600 * h + rh && 0 <= rh < 3600 && 0 <= h < 24;
    assert s == 3600 * (24 * q + h) + rh;
    DivModUnique(s, 3600, 24 * q + h, rh);
    DivModUnique(24 * q + h, 24, q, h);
    var m, rm := d / 60, d % 60;
    assert d == 60 * m + rm && 0 <= rm < 60;
    assert s == 60 * (1440 * q + m) + rm;
    DivModUnique(s, 60, 1440 * q + m, rm);
    var mh, mm := m / 60, m % 60;
    assert m == 60 * mh + mm && 0 <= mm < 60;
    assert 1440 * q + m == 60 * (24 * q + mh) + mm;
    DivModUnique(1440 * q + m, 60, 24 * q + mh, mm);
  }

  /** Euclidean division is determined by its quotient and remainder. */
  lemma DivModUnique(a: int, b: int, q: int, r: int)
    requires 0 < b && a == b * q + r && 0 <= r < b
    ensures a / b == q && a % b == r
  {
    var q', r' := a / b, a % b;
    assert a == b * q' + r' && 0 <= r' < b;
    if q' < q {
      assert b * q - b * q' == b * (q - q');
      MulAtLeast(b, q - q');
    } else if q < q' {
      assert b * q' - b * q == b * (q' - q);
      MulAtLeast(b, q' - q);
    }
  }

  lemma MulAtLeast(b: int, k: int)
    requires 0 < b && 1 <= k
    ensures b <= b * k
  {
  }

  /** The time of day of `s` seconds after midnight, as `HH:MM:SS`. */
  function ClockString(s: int): (r: string)
    ensures |r| == 8 && r[2] == ':' && r[5] == ':'
    ensures forall i :: 0 <= i < 8 && i != 2 && i != 5 ==> IsDigit(r[i])
    ensures FieldValue(r[0..2]) == (s / 3600) % 24
    ensures FieldValue(r[3..5]) == (s / 60) % 60
    ensures FieldValue(r[6..8]) == s % 60
  {
    DayFields(s);
    var d := s % SecondsPerDay;
    var hh, mm, ss := Pad2(d / 3600), Pad2((d / 60) % 60), Pad2(d % 60);
    assert (hh + ":" + mm + ":" + ss)[0..2] == hh;
    assert (hh + ":" + mm + ":" + ss)[3..5] == mm;
    assert (hh + ":" + mm + ":" + ss)[6..8] == ss;
    hh + ":" + mm + ":" + ss
  }

  /** getTime(t): the `HH:MM:SS` UTC time of day of trunc(t) seconds. */
  function GetTime(t: real): (r: string)
    requires InIsoRange(t)
  {
    ClockString(Trunc(t))
  }

  /** A string shaped like the output: two digits, ':', two digits, ':',
      two digits, with hours below 24 and minutes and seconds below 60. */
  predicate WellFormedClock(c: string)
  {
    |c| == 8 && c[2] == ':' && c[5] == ':' &&
    (forall i :: 0 <= i < 8 && i != 2 && i != 5 ==> IsDigit(c[i])) &&
    FieldValue(c[0..2]) < 24 && FieldValue(c[3..5]) < 60 && FieldValue(c[6..8]) < 60
  }

  /** The number of seconds after midnight a clock string denotes. */
  function ClockValue(c: string): int
    requires |c| == 8
  {
    3600 * FieldValue(c[0..2]) + 60 * FieldValue(c[3..5]) + FieldValue(c[6..8])
  }

  /** A second of the day is its hours, minutes and seconds fields. */
  lemma DaySplit(d: int)
    requires 0 <= d < SecondsPerDay
    ensures d == 3600 * (d / 3600) + 60 * ((d / 60) % 60) + d % 60
  {
    var q, r := d / 60, d % 60;
    assert d == 60 * q + r;
    assert q == 60 * (q / 60) + q % 60;
    assert d == 3600 * (q / 60) + (60 * (q % 60) + r);
    DivModUnique(d, 3600, q / 60, 60 * (q % 60) + r);
  }

  /** Every whole second formats to a well-formed clock string denoting
      its time of day. */
  lemma ClockStringDenotes(s: int)
    ensures WellFormedClock(ClockString(s))
    ensures ClockValue(ClockString(s)) == s % SecondsPerDay
  {
    var c := ClockString(s);
    DayFields(s);
    var d := s % SecondsPerDay;
    assert FieldValue(c[0..2]) == d / 3600;
    assert FieldValue(c[3..5]) == (d / 60) % 60;
    assert FieldValue(c[6..8]) == d % 60;
    DaySplit(d);
  }

  /** The output is always a well-formed clock string denoting the time of
      day of trunc(t), so the formatter wraps every 86400 seconds. */
  lemma GetTimeDenotesTimeOfDay(t: real)
    requires InIsoRange(t)
    ensures WellFormedClock(GetTime(t))
    ensures ClockValue(GetTime(t)) == Trunc(t) % SecondsPerDay
  {
    ClockStringDenotes(Trunc(t));
  }

  lemma Pad2OfField(f: string)
    requires |f| == 2 && IsDigit(f[0]) && IsDigit(f[1])
    ensures 0 <= FieldValue(f) < 100 && Pad2(FieldValue(f)) == f
  {
    var n := FieldValue(f);
    assert n / 10 == DigitValue(f[0]) && n % 10 == DigitValue(f[1]);
  }

  /** The second with fields `h`, `m` and `sec` is written as the three
      fields, zero-padded and separated by colons. */
  lemma ClockStringOfFields(h: nat, m: nat, sec: nat)
    requires h < 24 && m < 60 && sec < 60
    ensures ClockString(3600 * h + 60 * m + sec) == Pad2(h) + ":" + Pad2(m) + ":" + Pad2(sec)
  {
    var v := 3600 * h + 60 * m + sec;
    assert v == 60 * (60 * h + m) + sec;
    DivModUnique(v, SecondsPerDay, 0, v);
    DivModUnique(v, 60, 60 * h + m, sec);
    DivModUnique(60 * h + m, 60, h, m);
    DivModUnique(v, 3600, h, 60 * m + sec);
  }

  /** Every well-formed clock string is the output for the second it
      denotes: the formatter is onto the `HH:MM:SS` strings of one day. */
  lemma ClockStringOfValue(c: string)
    requires WellFormedClock(c)
    ensures ClockString(ClockValue(c)) == c
  {
    var h, m, s := c[0..2], c[3..5], c[6..8];
    assert IsDigit(c[0]) && IsDigit(c[1]) && IsDigit(c[3]) && IsDigit(c[4]) && IsDigit(c[6]) && IsDigit(c[7]);
    Pad2OfField(h);
    Pad2OfField(m);
    Pad2OfField(s);
    ClockStringOfFields(FieldValue(h), FieldValue(m), FieldValue(s));
    assert c == h + ":" + m + ":" + s;
  }

  /** Whole seconds a day apart format alike. */
  lemma ClockWrapsDaily(s: int)
    ensures ClockString(s + SecondsPerDay) == ClockString(s)
  {
    DivModUnique(s + SecondsPerDay, SecondsPerDay, s / SecondsPerDay + 1, s % SecondsPerDay);
    assert (s + SecondsPerDay) % SecondsPerDay == s % SecondsPerDay;
  }

  /** A playback position and the position a day later show the same
      clock string. */
  lemma GetTimeWrapsDaily(t: real)
    requires 0.0 <= t && InIsoRange(t + 86400.0)
    ensures InIsoRange(t) && GetTime(t + 86400.0) == GetTime(t)
  {
    assert Trunc(t + 86400.0) == Trunc(t) + SecondsPerDay;
    ClockWrapsDaily(Trunc(t));
  }

  /** Fractional seconds are discarded before formatting. */
  lemma FractionDiscarded(t: real)
    requires InIsoRange(t)
    ensures InIsoRange(Trunc(t) as real)
    ensures GetTime(t) == GetTime(Trunc(t) as real)
  {
  }

  lemma GetTimeOneHourOneMinuteOneSecond()
    ensures GetTime(3661.0) == "01:01:01"
    ensures GetTime(3661.7) == "01:01:01"
  {
    assert Trunc(3661.0) == 3661 && Trunc(3661.7) == 3661;
    ClockStringOfFields(1, 1, 1);
    assert Pad2(1) == "01";
  }

  lemma GetTimeEpoch()
    ensures GetTime(0.0) == "00:00:00"
  {
    assert Trunc(0.0) == 0;
    ClockStringOfFields(0, 0, 0);
    assert Pad2(0) == "00";
  }

  lemma GetTimeTwentySeconds()
    ensures GetTime(20.0) == "00:00:20"
  {
    assert Trunc(20.0) == 20;
    ClockStringOfFields(0, 0, 20);
    assert Pad2(0) == "00" && Pad2(20) == "20";
  }

  /** A negative time is the time of day before the epoch's midnight. */
  lemma GetTimeBeforeEpoch()
    ensures GetTime(-1.0) == "23:59:59"
  {
    assert Trunc(-1.0) == -1;
    ClockWrapsDaily(-1);
    ClockStringOfFields(23, 59, 59);
    assert Pad2(23) == "23" && Pad2(59) == "59";
  }

  /** getTime in a time zone whose offset from UTC is a constant `offset`
      seconds. `new Date(0)` shows the local time `offset` seconds past
      midnight UTC; `setSeconds` replaces that local time's seconds field
      (`offset % 60`) by trunc(t), so the instant is trunc(t) - offset % 60
      seconds after the epoch, and toISOString prints it in UTC. */
  function LocalGetTime(t: real, offset: int): string
    requires MinIsoSeconds <= Trunc(t) - offset % 60 < MaxIsoSeconds
  {
    ClockString(Trunc(t) - offset % 60)
  }

  /** With a whole-minute offset the result is the UTC one. */
  lemma WholeMinuteOffsetIsUtc(t: real, offset: int)
    requires InIsoRange(t) && offset % 60 == 0
    ensures LocalGetTime(t, offset) == GetTime(t)
  {
  }

  /** Otherwise the result is shifted back by the offset's seconds, and
      stays a well-formed clock string. */
  lemma LocalGetTimeShift(t: real, offset: int)
    requires MinIsoSeconds <= Trunc(t) - offset % 60 < MaxIsoSeconds
    ensures WellFormedClock(LocalGetTime(t, offset))
    ensures ClockValue(LocalGetTime(t, offset)) == (Trunc(t) - offset % 60) % SecondsPerDay
  {
    ClockStringDenotes(Trunc(t) - offset % 60);
  }

  /** Local mean time of Monrovia in 1970, 44 minutes 30 seconds behind
      UTC: getTime(0) is half a minute before midnight. */
  lemma MonroviaOffsetExample()
    ensures LocalGetTime(0.0, -2670) == "23:59:30"
  {
    assert -2670 % 60 == 30 && Trunc(0.0) == 0;
    ClockWrapsDaily(-30);
    ClockStringOfFields(23, 59, 30);
    assert Pad2(23) == "23" && Pad2(59) == "59" && Pad2(30) == "30";
  }
}
