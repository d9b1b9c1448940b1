/** The RP2040 real-time-clock helpers of src/pico_rtc: the conversions between the SDK's
    `datetime_t` and the C library's `struct tm`, and `pico_sleep`, which computes the wake-up
    time, shuts the serial ports down and puts the chip to sleep until the clock's alarm. */
module PicoRtc {
  import opened Calendar

  /** `int8_t` and `int16_t`. */
  type Int8 = x: int | -0x80 <= x < 0x80
  type Int16 = x: int | -0x8000 <= x < 0x8000

  /** Storing an `int` into an `int8_t`: the value when it fits, otherwise the value reduced
      modulo 256 into range. */
  function ToInt8(x: int): (r: Int8)
    ensures -0x80 <= x < 0x80 ==> r == x
    ensures (x - r) % 0x100 == 0
  {
    (x + 0x80) % 0x100 - 0x80
  }

  /** Storing an `int` into an `int16_t`, likewise modulo 65536. */
  function ToInt16(x: int): (r: Int16)
    ensures -0x8000 <= x < 0x8000 ==> r == x
    ensures (x - r) % 0x1_0000 == 0
  {
    (x + 0x8000) % 0x1_0000 - 0x8000
  }

  /** The SDK's `datetime_t`: `month` counts from 1 and `dotw` is 0 on Sunday. */
  datatype Datetime = Datetime(year: Int16, month: Int8, day: Int8, dotw: Int8,
                               hour: Int8, min: Int8, sec: Int8)

  /** A date and time the clock accepts: years 0 to 4095 and every field in range. */
  predicate ValidDatetime(dt: Datetime)
  {
    0 <= dt.year <= 4095 && 1 <= dt.month <= 12 && 1 <= dt.day <= MonthLength(dt.year, dt.month - 1)
    && 0 <= dt.dotw <= 6 && 0 <= dt.hour <= 23 && 0 <= dt.min <= 59 && 0 <= dt.sec <= 59
  }

  /** `datetime_to_tm`: writes seven fields of `ti`; the day of the year and the daylight
      flag keep whatever `ti` held. */
  function DatetimeToTm(dt: Datetime, ti: Tm): (r: Tm)
    ensures r.yday == ti.yday && r.isdst == ti.isdst
  {
    ti.(sec := dt.sec, min := dt.min, hour := dt.hour, mday := dt.day, mon := dt.month - 1,
        year := dt.year - 1900, wday := dt.dotw)
  }

  /** `tm_to_datetime`: reads seven fields of `ti` and stores them into the narrow fields. */
  function TmToDatetime(ti: Tm): (r: Datetime)
    ensures FitsDatetime(ti) ==>
              r.year == ti.year + 1900 && r.month == ti.mon + 1 && r.day == ti.mday && r.dotw == ti.wday
              && r.hour == ti.hour && r.min == ti.min && r.sec == ti.sec
  {
    Datetime(ToInt16(ti.year + 1900), ToInt8(ti.mon + 1), ToInt8(ti.mday), ToInt8(ti.wday),
             ToInt8(ti.hour), ToInt8(ti.min), ToInt8(ti.sec))
  }

  /** Every `datetime_t` survives the trip through `struct tm` unchanged. */
  lemma DatetimeRoundTrip(dt: Datetime, ti: Tm)
    ensures TmToDatetime(DatetimeToTm(dt, ti)) == dt
  {
  }

  /** The fields of a `struct tm` fit the narrow fields exactly when their trip through
      `datetime_t` changes nothing. */
  predicate FitsDatetime(ti: Tm)
  {
    -0x8000 <= ti.year + 1900 < 0x8000 && -0x80 <= ti.mon + 1 < 0x80 && -0x80 <= ti.mday < 0x80
    && -0x80 <= ti.wday < 0x80 && -0x80 <= ti.hour < 0x80 && -0x80 <= ti.min < 0x80
    && -0x80 <= ti.sec < 0x80
  }

  lemma TmRoundTrip(ti: Tm)
    ensures FitsDatetime(ti) <==> DatetimeToTm(TmToDatetime(ti), ti) == ti
  {
    if DatetimeToTm(TmToDatetime(ti), ti) == ti {
      var dt := TmToDatetime(ti);
      assert dt.year - 1900 == ti.year && dt.month - 1 == ti.mon && dt.day == ti.mday;
    }
  }

  /** The second the clock's reading stands for. */
  function Epoch(dt: Datetime): int
  {
    Mktime(DatetimeToTm(dt, Tm(0, 0, 0, 0, 0, 0, 0, 0, 0)))
  }

  /** The wake-up computation of `pico_sleep`: to `struct tm` (over the uninitialised `ti`),
      to seconds, `duration` later, back to `struct tm` and to `datetime_t`. */
  function Wakeup(dt: Datetime, ti: Tm, duration: nat): Datetime
  {
    TmToDatetime(Localtime(Mktime(DatetimeToTm(dt, ti)) + duration))
  }

  /** The days from year `y1` to year `y2` are at least 365 a year. */
  lemma {:induction false} YearsApart(y1: int, y2: int)
    requires y1 <= y2
    ensures DaysBeforeYear(y2) - DaysBeforeYear(y1) >= 365 * (y2 - y1)
    decreases y2 - y1
  {
    if y1 < y2 {
      YearsApart(y1, y2 - 1);
      DaysBeforeNextYear(y2 - 1);
    }
  }

  /** A second between the starts of two years falls in a year between them. */
  lemma YearBetween(t: int, lo: int, hi: int)
    requires DaysBeforeYear(lo) * 86400 <= t < DaysBeforeYear(hi) * 86400
    ensures lo <= Localtime(t).year + 1900 < hi
  {
    var days := t / 86400;
    assert DaysBeforeYear(lo) <= days < DaysBeforeYear(hi);
    var (y, yd) := YearOf(1970, days);
    assert Localtime(t).year + 1900 == y;
    if y < lo {
      YearsInOrder(y, lo);
    }
    if hi < y {
      YearsInOrder(hi, y);
    }
  }

  /** The clock's reading of a valid date lies within its year. */
  lemma EpochInYear(dt: Datetime)
    requires ValidDatetime(dt)
    ensures DaysBeforeYear(dt.year) * 86400 <= Epoch(dt) < DaysBeforeYear(dt.year + 1) * 86400
  {
    var y, m := dt.year as int, dt.month - 1;
    MonthsMakeYear(y);
    if m < 11 {
      MonthsInOrder(y, m, 11);
    }
    DaysBeforeNextYear(y);
    assert m / 12 == 0 && m % 12 == m;
  }

  /** `w` is the reading of second `t`: a well-formed date and time, with the weekday filled
      in, in the 138 years from the start of year `lo`. */
  predicate AlarmAt(w: Datetime, t: int, lo: int)
  {
    Epoch(w) == t && lo <= w.year < lo + 138
    && 1 <= w.month <= 12 && 1 <= w.day <= MonthLength(w.year, w.month - 1)
    && 0 <= w.hour <= 23 && 0 <= w.min <= 59 && 0 <= w.sec <= 59
    && w.dotw == Weekday(DayNumber(w.year, w.month - 1, w.day - 1))
  }

  /** For every valid reading and every `unsigned` duration, the alarm `pico_sleep` sets is a
      well-formed date and time exactly `duration` seconds later, with the weekday filled in,
      at most 137 years on, and the uninitialised fields of `ti` play no part. */
  lemma WakeupLater(dt: Datetime, ti: Tm, duration: nat)
    requires ValidDatetime(dt) && duration < 0x1_0000_0000
    ensures AlarmAt(Wakeup(dt, ti, duration), Epoch(dt) + duration, dt.year)
    ensures Wakeup(dt, ti, duration) == Wakeup(dt, Tm(0, 0, 0, 0, 0, 0, 0, 0, 0), duration)
  {
    var t := Epoch(dt) + duration;
    WakeupAt(dt, ti, duration);
    WakeupAt(dt, Tm(0, 0, 0, 0, 0, 0, 0, 0, 0), duration);
    WakeupBound(dt, duration);
    LocalAlarm(t, dt.year, Wakeup(dt, ti, duration));
  }

  /** The alarm is the clock's reading `duration` seconds on, whatever `ti` held. */
  lemma WakeupAt(dt: Datetime, ti: Tm, duration: nat)
    ensures Wakeup(dt, ti, duration) == TmToDatetime(Localtime(Epoch(dt) + duration))
  {
    EpochIgnoresScratch(dt, ti);
  }

  /** The alarm for a second within the 138 years from the start of year `lo`. */
  lemma LocalAlarm(t: int, lo: int, w: Datetime)
    requires 0 <= lo <= 4095
    requires DaysBeforeYear(lo) * 86400 <= t < DaysBeforeYear(lo + 138) * 86400
    requires w == TmToDatetime(Localtime(t))
    ensures AlarmAt(w, t, lo)
  {
    YearBetween(t, lo, lo + 138);
    LocaltimeMktime(t);
    NarrowExact(Localtime(t));
  }

  /** `mktime` reads none of the fields `datetime_to_tm` leaves alone. */
  lemma EpochIgnoresScratch(dt: Datetime, ti: Tm)
    ensures Mktime(DatetimeToTm(dt, ti)) == Epoch(dt)
  {
  }

  /** Fewer than 2^32 seconds after a valid reading it is still earlier than 138 years on. */
  lemma WakeupBound(dt: Datetime, duration: nat)
    requires ValidDatetime(dt) && duration < 0x1_0000_0000
    ensures DaysBeforeYear(dt.year) * 86400 <= Epoch(dt) + duration < DaysBeforeYear(dt.year + 138) * 86400
  {
    EpochInYear(dt);
    YearsApart(dt.year + 1, dt.year + 138);
  }

  /** A valid broken-down time of a year from 0 to 32767 is stored into `datetime_t` without
      loss, and reads back as the same second. */
  lemma NarrowExact(lt: Tm)
    requires Valid(lt) && 0 <= lt.year + 1900 < 0x8000 && 0 <= lt.wday < 7
    ensures var w := TmToDatetime(lt);
            w.year == lt.year + 1900 && w.month == lt.mon + 1 && w.day == lt.mday
            && w.dotw == lt.wday && w.hour == lt.hour && w.min == lt.min && w.sec == lt.sec
            && Epoch(w) == Mktime(lt)
  {
    var w := TmToDatetime(lt);
    assert w.month - 1 == lt.mon;
    assert lt.mon / 12 == 0 && lt.mon % 12 == lt.mon;
  }

  /** In a leap year such as 2024, an alarm 20 seconds after 23:59:50 on February 29th is
      set for 00:00:10 on March 1st. */
  lemma LeapDayWakeup(dt: Datetime, ti: Tm)
    requires dt.year == 2024 && dt.month == 2 && dt.day == 29
    requires dt.hour == 23 && dt.min == 59 && dt.sec == 50
    ensures var w := Wakeup(dt, ti, 20);
            w.year == 2024 && w.month == 3 && w.day == 1 && w.hour == 0 && w.min == 0 && w.sec == 10
  {
    var t := DatetimeToTm(dt, ti);
    assert IsLeap(t.year + 1900);
    LeapDayRollover(t);
  }

  /** An alarm 10 seconds after 23:59:55 on December 31st, 2023 is set for 00:00:05 on
      January 1st, 2024. */
  lemma YearEndWakeup(dt: Datetime, ti: Tm)
    requires dt.year == 2023 && dt.month == 12 && dt.day == 31
    requires dt.hour == 23 && dt.min == 59 && dt.sec == 55
    ensures var w := Wakeup(dt, ti, 10);
            w.year == 2024 && w.month == 1 && w.day == 1 && w.hour == 0 && w.min == 0 && w.sec == 5
  {
    YearEndRollover(DatetimeToTm(dt, ti));
  }

  /** What the board does, in order, as far as `pico_sleep` is concerned. */
  datatype Event =
    | Printed(heading: string, dt: Datetime)
    | SerialFlush | Serial1End | Serial2End | SerialEnd
    | UsbDetach
    | RunFromXosc
    | SleepUntil(alarm: Datetime)
    | RoscEnable | ClocksInit

  /** The events of one `pico_sleep` that reads `now` and sets the alarm `alarm`; the USB
      device is detached only in builds with TinyUSB. */
  function SleepEvents(tinyUsb: bool, now: Datetime, alarm: Datetime): (es: seq<Event>)
    ensures |es| >= 10
    ensures es[0] == Printed("RTC time:", now) && es[1] == Printed("Wakeup time:", alarm)
    ensures UsbDetach in es <==> tinyUsb
  {
    [Printed("RTC time:", now)]
    + [Printed("Wakeup time:", alarm)]
    + [SerialFlush, Serial1End, Serial2End, SerialEnd]
    + (if tinyUsb then [UsbDetach] else [])
    + [RunFromXosc, SleepUntil(alarm)]
    + [RoscEnable, ClocksInit]
  }

  /** The chip sleeps exactly once, until the alarm it printed, after every serial port has
      been closed and the USB device detached, and its clocks are restarted only afterwards. */
  lemma SleepOrder(tinyUsb: bool, now: Datetime, alarm: Datetime)
    ensures var es := SleepEvents(tinyUsb, now, alarm);
            var k := |es| - 3;
            es[k] == SleepUntil(alarm) && es[k + 1..] == [RoscEnable, ClocksInit]
            && (forall i :: 0 <= i < |es| && es[i].SleepUntil? ==> i == k)
            && (forall i :: 0 <= i < |es| && es[i] in [SerialFlush, Serial1End, Serial2End, SerialEnd, UsbDetach] ==>
                  1 < i < k)
            && (forall i :: 0 <= i < |es| && es[i] in [RoscEnable, ClocksInit] ==> k < i)
  {
  }

  /** The board: the clock's current reading, whether the build uses TinyUSB, and the events
      so far. */
  class Board {
    var rtc: Datetime
    const tinyUsb: bool
    var trace: seq<Event>

    constructor (rtc: Datetime, tinyUsb: bool)
      ensures this.rtc == rtc && this.tinyUsb == tinyUsb && trace == []
    {
      this.rtc := rtc;
      this.tinyUsb := tinyUsb;
      trace := [];
    }

    /** `pico_sleep(duration)`: `ti` is the content of the uninitialised `struct tm`. When the
        call returns the chip has slept until the alarm, so the clock reads the alarm time. */
    method PicoSleep(duration: nat, ti: Tm)
      requires duration < 0x1_0000_0000
      modifies this`rtc, this`trace
      ensures rtc == Wakeup(old(rtc), ti, duration)
      ensures trace == old(trace) + SleepEvents(tinyUsb, old(rtc), rtc)
    {
      var dt := rtc;
      ghost var before, now := trace, rtc;
      trace := trace + [Printed("RTC time:", dt)];
      var t := DatetimeToTm(dt, ti);
      var secs := Mktime(t);
      var wakeup := secs + duration;
      t := Localtime(wakeup);
      dt := TmToDatetime(t);
      assert dt == Wakeup(now, ti, duration);
      trace := trace + [Printed("Wakeup time:", dt)];
      trace := trace + [SerialFlush, Serial1End, Serial2End, SerialEnd];
      ghost var usb: seq<Event> := if tinyUsb then [UsbDetach] else [];
      if tinyUsb {
        trace := trace + [UsbDetach];
      }
      assert trace == before + [Printed("RTC time:", now)] + [Printed("Wakeup time:", dt)]
        + [SerialFlush, Serial1End, Serial2End, SerialEnd] + usb;
      trace := trace + [RunFromXosc, SleepUntil(dt)];
      rtc := dt;
      trace := trace + [RoscEnable, ClocksInit];
      Regroup(before, [Printed("RTC time:", now)], [Printed("Wakeup time:", dt)],
        [SerialFlush, Serial1End, Serial2End, SerialEnd], usb, [RunFromXosc, SleepUntil(dt)],
        [RoscEnable, ClocksInit]);
    }
  }

  /** Appending the steps one by one appends their concatenation. */
  lemma Regroup(a: seq<Event>, b: seq<Event>, c: seq<Event>, d: seq<Event>, e: seq<Event>,
                f: seq<Event>, g: seq<Event>)
    ensures a + b + c + d + e + f + g == a + (b + c + d + e + f + g)
  {
  }
}
