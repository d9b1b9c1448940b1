/** The C library's broken-down time (`struct tm`) and the two conversions the sleep routine
    needs, `mktime` and `localtime_r`, for a zone without offset or daylight saving time: the
    proleptic Gregorian calendar counted in seconds from 1970-01-01 00:00:00. */
module Calendar {

  /** `struct tm`: `year` counts from 1900 and `mon` from 0; `wday` is 0 on Sunday and `yday`
      counts from 0 on January 1st. */
  datatype Tm = Tm(sec: int, min: int, hour: int, mday: int, mon: int, year: int,
                   wday: int, yday: int, isdst: int)

  predicate IsLeap(y: int)
  {
    y % 4 == 0 && (y % 100 != 0 || y % 400 == 0)
  }

  function YearLength(y: int): (n: nat)
    ensures n == 365 || n == 366
  {
    if IsLeap(y) then 366 else 365
  }

  /** The length of month `m` (0 for January) of year `y`. */
  function MonthLength(y: int, m: int): (n: nat)
    requires 0 <= m < 12
    ensures 28 <= n <= 31
    ensures m == 1 ==> (n == 29 <==> IsLeap(y))
  {
    if m == 1 then (if IsLeap(y) then 29 else 28)
    else if m == 3 || m == 5 || m == 8 || m == 10 then 30
    else 31
  }

  /** The days of year `y` before the first of month `m`. */
  function DaysBeforeMonth(y: int, m: int): (n: nat)
    requires 0 <= m <= 12
    decreases m
  {
    if m == 0 then 0 else DaysBeforeMonth(y, m - 1) + MonthLength(y, m - 1)
  }

  /** The twelve months make up the year. */
  lemma MonthsMakeYear(y: int)
    ensures DaysBeforeMonth(y, 12) == YearLength(y)
  {
  }

  /** The days from 1970-01-01 to January 1st of year `y`: negative before 1970. */
  function DaysBeforeYear(y: int): int
    decreases if y < 1970 then 1970 - y else y - 1970
  {
    if y == 1970 then 0
    else if y > 1970 then DaysBeforeYear(y - 1) + YearLength(y - 1)
    else DaysBeforeYear(y + 1) - YearLength(y)
  }

  lemma DaysBeforeNextYear(y: int)
    ensures DaysBeforeYear(y + 1) == DaysBeforeYear(y) + YearLength(y)
  {
  }

  /** Later years start later: each year starts after the whole of an earlier one. */
  lemma {:induction false} YearsInOrder(y1: int, y2: int)
    requires y1 < y2
    ensures DaysBeforeYear(y1) + YearLength(y1) <= DaysBeforeYear(y2)
    decreases y2 - y1
  {
    DaysBeforeNextYear(y1);
    if y1 + 1 < y2 {
      YearsInOrder(y1 + 1, y2);
      DaysBeforeNextYear(y1 + 1);
    }
  }

  /** Later months start later in the same way. */
  lemma {:induction false} MonthsInOrder(y: int, m1: int, m2: int)
    requires 0 <= m1 < m2 < 12
    ensures DaysBeforeMonth(y, m1) + MonthLength(y, m1) <= DaysBeforeMonth(y, m2)
    decreases m2 - m1
  {
    if m1 + 1 < m2 {
      MonthsInOrder(y, m1 + 1, m2);
    }
  }

  /** The day number from 1970-01-01 of day `d` (0 for the first) of month `m` of year `y`. */
  function DayNumber(y: int, m: int, d: int): int
    requires 0 <= m < 12
  {
    DaysBeforeYear(y) + DaysBeforeMonth(y, m) + d
  }

  /** `mktime` in this zone: the month is first brought into 0..11 by moving whole years,
      then days, hours, minutes and seconds out of their ranges simply carry over; `wday`,
      `yday` and `isdst` are not read. */
  function Mktime(t: Tm): int
  {
    var y := t.year + 1900 + t.mon / 12;
    var m := t.mon % 12;
    DayNumber(y, m, t.mday - 1) * 86400 + t.hour * 3600 + t.min * 60 + t.sec
  }

  /** The year holding day `d` counted from January 1st of year `y` (negative counts before),
      with the day's position in that year. */
  function YearOf(y: int, d: int): (r: (int, int))
    ensures 0 <= r.1 < YearLength(r.0)
    ensures DaysBeforeYear(r.0) + r.1 == DaysBeforeYear(y) + d
    decreases if d < 0 then 1 else 0, if d < 0 then -d else d
  {
    if d < 0 then
      DaysBeforeNextYear(y - 1);
      YearOf(y - 1, d + YearLength(y - 1))
    else if d >= YearLength(y) then
      DaysBeforeNextYear(y);
      YearOf(y + 1, d - YearLength(y))
    else
      (y, d)
  }

  /** The month holding day `d` of year `y` counted from the first of month `m`, with the
      day's position in that month. */
  function MonthOf(y: int, m: int, d: int): (r: (int, int))
    requires 0 <= m < 12 && 0 <= d && DaysBeforeMonth(y, m) + d < YearLength(y)
    ensures 0 <= r.0 < 12 && 0 <= r.1 < MonthLength(y, r.0)
    ensures DaysBeforeMonth(y, r.0) + r.1 == DaysBeforeMonth(y, m) + d
    decreases 12 - m
  {
    if d < MonthLength(y, m) then (m, d)
    else
      MonthsMakeYear(y);
      MonthOf(y, m + 1, d - MonthLength(y, m))
  }

  /** The weekday of day number `days`: 1970-01-01 was a Thursday. */
  function Weekday(days: int): (w: int)
    ensures 0 <= w < 7
  {
    (days + 4) % 7
  }

  /** `localtime_r` in this zone: the broken-down time of second `t`, with `isdst` 0. */
  function Localtime(t: int): (r: Tm)
    ensures 0 <= r.sec < 60 && 0 <= r.min < 60 && 0 <= r.hour < 24 && 0 <= r.mon < 12
    ensures 1 <= r.mday <= MonthLength(r.year + 1900, r.mon) && 0 <= r.yday < YearLength(r.year + 1900)
    ensures 0 <= r.wday < 7 && r.isdst == 0
  {
    var days, secs := t / 86400, t % 86400;
    var (y, yd) := YearOf(1970, days);
    var (m, md) := MonthOf(y, 0, yd);
    Tm(secs % 60, secs / 60 % 60, secs / 3600, md + 1, m, y - 1900, Weekday(days), yd, 0)
  }

  /** A broken-down time whose fields are all in range (a leap second is not one). */
  predicate Valid(t: Tm)
  {
    0 <= t.sec < 60 && 0 <= t.min < 60 && 0 <= t.hour < 24 && 0 <= t.mon < 12
    && 1 <= t.mday <= MonthLength(t.year + 1900, t.mon)
  }

  /** Two broken-down times name the same moment (the derived fields may differ). */
  predicate SameMoment(a: Tm, b: Tm)
  {
    a.sec == b.sec && a.min == b.min && a.hour == b.hour && a.mday == b.mday
    && a.mon == b.mon && a.year == b.year
  }

  /** `localtime_r` yields a valid time with consistent derived fields, and `mktime` takes it
      back to the same second. */
  lemma LocaltimeMktime(t: int)
    ensures Valid(Localtime(t))
    ensures Mktime(Localtime(t)) == t
    ensures var lt := Localtime(t);
            lt.yday == DaysBeforeMonth(lt.year + 1900, lt.mon) + lt.mday - 1
            && lt.wday == Weekday(DayNumber(lt.year + 1900, lt.mon, lt.mday - 1))
  {
    var days, secs := t / 86400, t % 86400;
    var (y, yd) := YearOf(1970, days);
    var (m, md) := MonthOf(y, 0, yd);
    var lt := Localtime(t);
    assert lt == Tm(secs % 60, secs / 60 % 60, secs / 3600, md + 1, m, y - 1900, Weekday(days), yd, 0);
    SecondsSplit(secs);
    MktimeDays(lt);
    assert DayNumber(y, m, md) == days;
  }

  /** Hours, minutes and seconds of a second of the day add back up to it. */
  lemma SecondsSplit(secs: int)
    requires 0 <= secs < 86400
    ensures secs == secs / 3600 * 3600 + secs / 60 % 60 * 60 + secs % 60
  {
  }

  /** A day of a year is found again by the year and month walks, whatever year they start
      from. */
  lemma YearOfUnique(y0: int, d0: int, y: int, d: int)
    requires 0 <= d < YearLength(y) && DaysBeforeYear(y) + d == DaysBeforeYear(y0) + d0
    ensures YearOf(y0, d0) == (y, d)
  {
    var r := YearOf(y0, d0);
    if r.0 < y {
      YearsInOrder(r.0, y);
    } else if y < r.0 {
      YearsInOrder(y, r.0);
    }
  }

  lemma MonthOfUnique(y: int, d: int, m: int, md: int)
    requires 0 <= m < 12 && 0 <= md < MonthLength(y, m)
    requires 0 <= d < YearLength(y) && DaysBeforeMonth(y, m) + md == d
    ensures MonthOf(y, 0, d) == (m, md)
  {
    var r := MonthOf(y, 0, d);
    if r.0 < m {
      MonthsInOrder(y, r.0, m);
    } else if m < r.0 {
      MonthsInOrder(y, m, r.0);
    }
  }

  /** `mktime` of a valid time and `localtime_r` of the result give the same moment back, with
      the weekday and day of the year filled in. */
  lemma MktimeLocaltime(t: Tm)
    requires Valid(t)
    ensures SameMoment(Localtime(Mktime(t)), t)
    ensures Localtime(Mktime(t)).yday == DaysBeforeMonth(t.year + 1900, t.mon) + t.mday - 1
  {
    LocaltimeOfValid(t);
    ClockSplit(t.hour, t.min, t.sec);
  }

  /** `localtime_r` of `mktime` of a valid time, with the time of day still in seconds. */
  lemma LocaltimeOfValid(t: Tm)
    requires Valid(t)
    ensures var secs := t.hour * 3600 + t.min * 60 + t.sec;
            var d := DaysBeforeMonth(t.year + 1900, t.mon) + t.mday - 1;
            Localtime(Mktime(t)) == Tm(secs % 60, secs / 60 % 60, secs / 3600, t.mday, t.mon, t.year,
                                       Weekday(DaysBeforeYear(t.year + 1900) + d), d, 0)
  {
    var y := t.year + 1900;
    var d := DaysBeforeMonth(y, t.mon) + t.mday - 1;
    assert d < YearLength(y) by {
      MonthsMakeYear(y);
      if t.mon < 11 {
        MonthsInOrder(y, t.mon, 11);
      }
    }
    var secs := t.hour * 3600 + t.min * 60 + t.sec;
    var days := DaysBeforeYear(y) + d;
    assert Mktime(t) == days * 86400 + secs by {
      MktimeDays(t);
    }
    YearOfUnique(1970, days, y, d);
    MonthOfUnique(y, d, t.mon, t.mday - 1);
    LocaltimeAt(Mktime(t), days, secs, y, d, t.mon, t.mday - 1);
  }

  /** For a month in range, `mktime` counts whole days from the start of the year plus the
      seconds of the day. */
  lemma MktimeDays(t: Tm)
    requires 0 <= t.mon < 12
    ensures Mktime(t) == (DaysBeforeYear(t.year + 1900) + DaysBeforeMonth(t.year + 1900, t.mon) + t.mday - 1) * 86400
                         + t.hour * 3600 + t.min * 60 + t.sec
  {
    assert t.mon / 12 == 0 && t.mon % 12 == t.mon;
  }

  /** `localtime_r` of second `secs` of day number `days`, given where the year and month
      walks find that day. */
  lemma LocaltimeAt(t: int, days: int, secs: int, y: int, yd: int, m: int, md: int)
    requires 0 <= secs < 86400 && t == days * 86400 + secs
    requires YearOf(1970, days) == (y, yd) && MonthOf(y, 0, yd) == (m, md)
    ensures Localtime(t) == Tm(secs % 60, secs / 60 % 60, secs / 3600, md + 1, m, y - 1900, Weekday(days), yd, 0)
  {
    DaySplit(days, secs);
  }

  /** A time of day in range is taken apart again by the divisions of `localtime_r`. */
  lemma ClockSplit(h: int, mi: int, s: int)
    requires 0 <= h < 24 && 0 <= mi < 60 && 0 <= s < 60
    ensures var secs := h * 3600 + mi * 60 + s;
            0 <= secs < 86400 && secs / 3600 == h && secs / 60 % 60 == mi && secs % 60 == s
  {
    var secs := h * 3600 + mi * 60 + s;
    assert secs / 60 == h * 60 + mi;
  }

  lemma DaySplit(days: int, secs: int)
    requires 0 <= secs < 86400
    ensures (days * 86400 + secs) / 86400 == days && (days * 86400 + secs) % 86400 == secs
  {
  }

  /** In a leap year, 20 seconds after 23:59:50 on February 29th it is 00:00:10 on March 1st. */
  lemma LeapDayRollover(t: Tm)
    requires IsLeap(t.year + 1900)
    requires t.mon == 1 && t.mday == 29 && t.hour == 23 && t.min == 59 && t.sec == 50
    ensures var w := Localtime(Mktime(t) + 20);
            w.year == t.year && w.mon == 2 && w.mday == 1 && w.hour == 0 && w.min == 0 && w.sec == 10
  {
    var y := t.year + 1900;
    var next := Tm(10, 0, 0, 1, 2, t.year, 0, 0, 0);
    assert DaysBeforeMonth(y, 2) == DaysBeforeMonth(y, 1) + 29;
    assert Mktime(t) + 20 == Mktime(next);
    MktimeLocaltime(next);
  }

  /** Ten seconds after 23:59:55 on December 31st it is 00:00:05 on January 1st of the next
      year. */
  lemma YearEndRollover(t: Tm)
    requires t.mon == 11 && t.mday == 31 && t.hour == 23 && t.min == 59 && t.sec == 55
    ensures var w := Localtime(Mktime(t) + 10);
            w.year == t.year + 1 && w.mon == 0 && w.mday == 1 && w.hour == 0 && w.min == 0 && w.sec == 5
  {
    var y := t.year + 1900;
    var next := Tm(5, 0, 0, 1, 0, t.year + 1, 0, 0, 0);
    MonthsMakeYear(y);
    DaysBeforeNextYear(y);
    assert DaysBeforeMonth(y, 11) + 31 == YearLength(y);
    MktimeDays(t);
    MktimeDays(next);
    assert Mktime(t) + 10 == Mktime(next);
    MktimeLocaltime(next);
  }
}
