/** Python `datetime` values as the agent uses them: the clock reading `datetime.now()` is passed in,
    and timestamps are written with `isoformat()` or `strftime('%Y%m%d_%H%M%S')`. */
module Clock {
  import opened Wrappers
  import opened Text

  datatype DateTime = DateTime(year: int, month: int, day: int,
                               hour: int, minute: int, second: int, microsecond: int)

  predicate IsLeap(year: int) {
    year % 4 == 0 && (year % 100 != 0 || year % 400 == 0)
  }

  function DaysInMonth(year: int, month: int): int
    requires 1 <= month <= 12
  {
    if month == 2 then (if IsLeap(year) then 29 else 28)
    else if month == 4 || month == 6 || month == 9 || month == 11 then 30
    else 31
  }

  /** The values Python's `datetime(...)` constructor accepts without raising `ValueError`. */
  predicate Valid(t: DateTime) {
    && 1 <= t.year <= 9999
    && 1 <= t.month <= 12
    && 1 <= t.day <= DaysInMonth(t.year, t.month)
    && 0 <= t.hour < 24 && 0 <= t.minute < 60 && 0 <= t.second < 60
    && 0 <= t.microsecond < 1000000
  }

  function Pow10(n: nat): nat {
    if n == 0 then 1 else 10 * Pow10(n - 1)
  }

  lemma {:induction false} DigitsFit(n: nat, width: nat)
    requires 0 < width && n < Pow10(width)
    ensures |Digits(n)| <= width
  {
    if n >= 10 {
      assert width > 1;
      DigitsFit(n / 10, width - 1);
    }
  }

  /** A number below 10^width is written with exactly `width` digits. */
  lemma ZeroPadWidth(n: nat, width: nat)
    requires 0 < width && n < Pow10(width)
    ensures |ZeroPad(n, width)| == width
  {
    DigitsFit(n, width);
  }

  /** `t.isoformat()`: `YYYY-MM-DDTHH:MM:SS`, followed by `.ffffff` when there are microseconds. */
  function IsoFormat(t: DateTime): (r: string)
    requires Valid(t)
    ensures |r| == if t.microsecond == 0 then 19 else 26
    ensures r[4] == '-' && r[7] == '-' && r[10] == 'T' && r[13] == ':' && r[16] == ':'
  {
    ZeroPadWidth(t.year, 4);
    ZeroPadWidth(t.month, 2);
    ZeroPadWidth(t.day, 2);
    ZeroPadWidth(t.hour, 2);
    ZeroPadWidth(t.minute, 2);
    ZeroPadWidth(t.second, 2);
    ZeroPadWidth(t.microsecond, 6);
    ZeroPad(t.year, 4) + "-" + ZeroPad(t.month, 2) + "-" + ZeroPad(t.day, 2)
    + "T" + ZeroPad(t.hour, 2) + ":" + ZeroPad(t.minute, 2) + ":" + ZeroPad(t.second, 2)
    + (if t.microsecond == 0 then "" else "." + ZeroPad(t.microsecond, 6))
  }

  /** `t.strftime('%Y%m%d_%H%M%S')`. */
  function Stamp(t: DateTime): (r: string)
    requires Valid(t)
    ensures |r| == 15 && r[8] == '_'
  {
    ZeroPadWidth(t.year, 4);
    ZeroPadWidth(t.month, 2);
    ZeroPadWidth(t.day, 2);
    ZeroPadWidth(t.hour, 2);
    ZeroPadWidth(t.minute, 2);
    ZeroPadWidth(t.second, 2);
    ZeroPad(t.year, 4) + ZeroPad(t.month, 2) + ZeroPad(t.day, 2)
    + "_" + ZeroPad(t.hour, 2) + ZeroPad(t.minute, 2) + ZeroPad(t.second, 2)
  }

  /** Each field of the stamp reads back, through `int()`, as the field of the time it was written from. */
  lemma StampReadsBack(t: DateTime)
    requires Valid(t)
    ensures var r := Stamp(t);
      && PyInt(r[0..4]) == Some(t.year) && PyInt(r[4..6]) == Some(t.month) && PyInt(r[6..8]) == Some(t.day)
      && PyInt(r[9..11]) == Some(t.hour) && PyInt(r[11..13]) == Some(t.minute)
      && PyInt(r[13..15]) == Some(t.second)
  {
    var r := Stamp(t);
    ZeroPadWidth(t.year, 4);
    ZeroPadWidth(t.month, 2);
    ZeroPadWidth(t.day, 2);
    ZeroPadWidth(t.hour, 2);
    ZeroPadWidth(t.minute, 2);
    ZeroPadWidth(t.second, 2);
    assert r[0..4] == ZeroPad(t.year, 4) && r[4..6] == ZeroPad(t.month, 2) && r[6..8] == ZeroPad(t.day, 2);
    assert r[9..11] == ZeroPad(t.hour, 2) && r[11..13] == ZeroPad(t.minute, 2);
    assert r[13..15] == ZeroPad(t.second, 2);
    PyIntZeroPad(t.year, 4);
    PyIntZeroPad(t.month, 2);
    PyIntZeroPad(t.day, 2);
    PyIntZeroPad(t.hour, 2);
    PyIntZeroPad(t.minute, 2);
    PyIntZeroPad(t.second, 2);
  }
}
