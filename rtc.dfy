/**
 * drivers/rtc/rtc-photonicat.c: the real-time clock kept by the PMU. The
 * driver caches the last time the PMU reported, converts it to the kernel's
 * `struct rtc_time` on reads, and sends a new time with DATE_TIME_SYNC.
 */
module Rtc {
  import opened Wire
  import opened Codec
  import opened Pmu

  const EINVAL: int := 22

  /** struct rtc_time, the fields this driver sets (tm_isdst is left at 0). */
  datatype RtcTime = RtcTime(sec: int, min: int, hour: int, mday: int, mon: int, year: int, wday: int, yday: int)

  /** The `rtc_time` after `memset(tm, 0, sizeof(*tm))`. */
  const ZeroRtcTime: RtcTime := RtcTime(0, 0, 0, 0, 0, 0, 0, 0)

  /** The range checks of `pcat_time_to_rtc_time`; the day is checked against 31 whatever the month. */
  predicate ValidTime(t: DateTime)
  {
    && t.second < 60 && t.minute < 60 && t.hour < 24
    && 1 <= t.day <= 31
    && 1 <= t.month <= 12
    && 1900 <= t.year <= 9999
  }

  /** C's `%` on `int`: the remainder takes the sign of the dividend. */
  function CRem(a: int, b: int): (r: int)
    requires b > 0
    ensures a >= 0 ==> 0 <= r < b
    ensures a < 0 ==> -b < r <= 0
  {
    if a >= 0 then a % b else -((-a) % b)
  }

  /**
   * The day of the week (0 is Sunday) the driver computes for day `yday`
   * (counted from 0) of `year`: one weekday per common year, plus the leap
   * days before the year, plus the day of the year.
   */
  function Weekday(year: int, yday: int): (r: int)
    requires year >= 1
    ensures yday >= 0 ==> 0 <= r < 7
  {
    CRem(year * (365 % 7) + (year - 1) / 4 - (year - 1) / 100 + (year - 1) / 400 + yday, 7)
  }

  predicate LeapYear(year: int)
  {
    year % 4 == 0 && (year % 100 != 0 || year % 400 == 0)
  }

  function DaysInYear(year: int): nat
  {
    if LeapYear(year) then 366 else 365
  }

  /**
   * pcat_time_to_rtc_time: None when a field is out of range; otherwise the
   * kernel's fields, with `yearDays` standing for `rtc_year_days`.
   */
  function ToRtcTime(t: DateTime, yearDays: (int, int, int) -> int): (r: Option<RtcTime>)
    ensures r.Some? <==> ValidTime(t)
    ensures r.Some? ==> var tm := r.value;
      && tm.sec == t.second && tm.min == t.minute && tm.hour == t.hour && tm.mday == t.day
      && tm.mon == t.month - 1 && 0 <= tm.mon <= 11 && tm.year == t.year - 1900
      && tm.yday == yearDays(t.day, t.month - 1, t.year)
      && (tm.yday >= 0 ==> 0 <= tm.wday <= 6)
  {
    if !ValidTime(t) then None
    else
      var yday := yearDays(t.day, t.month - 1, t.year);
      Some(RtcTime(t.second, t.minute, t.hour, t.day, t.month - 1, t.year - 1900, Weekday(t.year, yday), yday))
  }

  /** pcat_time_from_rtc_time: back to the PMU's fields, each truncated to the width of its field. */
  function FromRtcTime(tm: RtcTime): (t: DateTime)
    ensures 0 <= tm.year + 1900 <= U16_MAX ==> t.year == tm.year + 1900
    ensures 0 <= tm.mon + 1 < 0x100 ==> t.month == tm.mon + 1
  {
    DateTime((tm.year + 1900) % 0x1_0000, (tm.mon + 1) % 0x100, tm.mday % 0x100,
             tm.hour % 0x100, tm.min % 0x100, tm.sec % 0x100)
  }

  // ---------------------------------------------------------------------
  // Properties of the conversions
  // ---------------------------------------------------------------------

  /** A time the driver accepts comes back unchanged through the kernel's representation. */
  lemma TimeRoundTrip(t: DateTime, yearDays: (int, int, int) -> int)
    requires ValidTime(t)
    ensures FromRtcTime(ToRtcTime(t, yearDays).value) == t
  {
  }

  /** A kernel time within the PMU's ranges goes to the PMU and comes back with the same fields. */
  lemma RtcTimeRoundTrip(tm: RtcTime, yearDays: (int, int, int) -> int)
    requires 0 <= tm.sec < 60 && 0 <= tm.min < 60 && 0 <= tm.hour < 24 && 1 <= tm.mday <= 31
    requires 0 <= tm.mon <= 11 && 0 <= tm.year <= 9999 - 1900
    ensures var r := ToRtcTime(FromRtcTime(tm), yearDays);
      && r.Some?
      && r.value.sec == tm.sec && r.value.min == tm.min && r.value.hour == tm.hour
      && r.value.mday == tm.mday && r.value.mon == tm.mon && r.value.year == tm.year
  {
  }

  /** The driver's formula names the right weekday on a known date: 1 January 2024 was a Monday. */
  lemma NewYear2024()
    ensures Weekday(2024, 0) == 1
  {
  }

  /** Within a year each day moves the weekday on by one. */
  lemma WeekdayNextDay(year: int, yday: int)
    requires year >= 1 && yday >= 0
    ensures Weekday(year, yday + 1) == (Weekday(year, yday) + 1) % 7
  {
    var s := year * (365 % 7) + (year - 1) / 4 - (year - 1) / 100 + (year - 1) / 400 + yday;
    assert s >= 0;
    assert Weekday(year, yday) == s % 7;
    assert Weekday(year, yday + 1) == (s + 1) % 7;
    ModSum(s, 1);
  }

  lemma QuarterStep(y: int)
    requires y >= 1
    ensures y / 4 - (y - 1) / 4 == (if y % 4 == 0 then 1 else 0)
    ensures y / 100 - (y - 1) / 100 == (if y % 100 == 0 then 1 else 0)
    ensures y / 400 - (y - 1) / 400 == (if y % 400 == 0 then 1 else 0)
  {
  }

  /**
   * From one year to the next the weekday of 1 January moves on by the
   * length of the year: the formula counts Gregorian leap years.
   */
  lemma WeekdayNewYear(year: int)
    requires year >= 1
    ensures Weekday(year + 1, 0) == (Weekday(year, 0) + DaysInYear(year)) % 7
  {
    QuarterStep(year);
    Divisors(year);
    var s := year + (year - 1) / 4 - (year - 1) / 100 + (year - 1) / 400;
    var leap := if LeapYear(year) then 1 else 0;
    var s' := (year + 1) + year / 4 - year / 100 + year / 400;
    assert s' == s + 1 + leap;
    assert Weekday(year, 0) == s % 7;
    assert Weekday(year + 1, 0) == s' % 7;
    assert DaysInYear(year) == 1 + leap + 7 * 52;
    ModSum(s, 1 + leap + 7 * 52);
    WholeWeeks(s + 1 + leap, 52);
  }

  lemma WholeWeeks(a: int, k: nat)
    ensures (a + 7 * k) % 7 == a % 7
  {
  }

  /** A multiple of 400 is a multiple of 100, and a multiple of 100 a multiple of 4. */
  lemma Divisors(y: int)
    ensures y % 400 == 0 ==> y % 100 == 0
    ensures y % 100 == 0 ==> y % 4 == 0
  {
    if y % 400 == 0 {
      var k := y / 400;
      assert y == 100 * (4 * k);
    }
    if y % 100 == 0 {
      var k := y / 100;
      assert y == 4 * (25 * k);
    }
  }

  lemma ModSum(a: int, b: int)
    requires a >= 0 && b >= 0
    ensures (a % 7 + b) % 7 == (a + b) % 7
  {
  }

  // ---------------------------------------------------------------------
  // The driver
  // ---------------------------------------------------------------------

  /** struct pcat_rtc: the PMU it talks through and the last time the PMU reported. */
  class Rtc {
    const pmu: Pmu
    var time: DateTime

    constructor (pmu: Pmu)
      ensures this.pmu == pmu && time == DateTime(0, 0, 0, 0, 0, 0)
    {
      this.pmu := pmu;
      time := DateTime(0, 0, 0, 0, 0, 0);
    }

    /** pcat_rtc_read_time: the cached time, or -EINVAL and an all-zero `tm` when it is out of range. */
    method ReadTime(yearDays: (int, int, int) -> int) returns (ret: int, tm: RtcTime)
      ensures ret == 0 <==> ValidTime(time)
      ensures ret == 0 ==> ToRtcTime(time, yearDays) == Some(tm) && FromRtcTime(tm) == time
      ensures ret != 0 ==> ret == -EINVAL && tm == ZeroRtcTime
    {
      tm := ZeroRtcTime;
      var r := ToRtcTime(time, yearDays);
      if r.None? {
        return -EINVAL, tm;
      }
      TimeRoundTrip(time, yearDays);
      tm := r.value;
      ret := 0;
    }

    /** pcat_rtc_set_time: send the time with DATE_TIME_SYNC and cache it only once the PMU has acknowledged it. */
    method SetTime(tm: RtcTime, attempts: nat -> Attempt) returns (ret: int)
      modifies this`time, pmu`frame, pmu`reply, pmu`sent
      ensures pmu.frame == (old(pmu.frame) + 1) % 0x1_0000 && pmu.reply == null
      ensures var req := RawFrame(pmu.frame, CMD_DATE_TIME_SYNC, true, SerializeDateTime(FromRtcTime(tm)));
        var o := Execution(attempts, req, CMD_DATE_TIME_SYNC_ACK, 0);
        ret == o.ret && pmu.sent == old(pmu.sent) + o.sent
      ensures time == if ret == 0 then FromRtcTime(tm) else old(time)
    {
      var t := FromRtcTime(tm);
      ret := pmu.WriteData(CMD_DATE_TIME_SYNC, SerializeDateTime(t), attempts);
      if ret != 0 {
        return;
      }
      time := t;
    }

    /** pcat_rtc_notify: a status report refreshes the cached time; every frame is left to the next listener. */
    method Notify(action: u16, f: Frame) returns (verdict: int)
      requires action == CMD_STATUS_REPORT ==> |f.data| >= StatusTimeOffset + DateTimeSize
      modifies this`time
      ensures verdict == NOTIFY_DONE && verdict == Verdict(action, f)
      ensures time == if action == CMD_STATUS_REPORT then ParseDateTime(f.data[StatusTimeOffset..]) else old(time)
    {
      if action != CMD_STATUS_REPORT {
        return NOTIFY_DONE;
      }
      time := ParseDateTime(f.data[StatusTimeOffset..]);
      verdict := NOTIFY_DONE;
    }
  }

  /** The time `Notify` caches from a status report is the time the report carries. */
  lemma NotifyReadsReportedTime(s: Status)
    ensures ParseDateTime(SerializeStatus(s)[StatusTimeOffset..]) == s.time
  {
    var b := SerializeStatus(s);
    StatusRoundTrip(s);
    assert b[StatusTimeOffset..][..DateTimeSize] == b[StatusTimeOffset..StatusTimeOffset + DateTimeSize];
  }

  /** What `Notify` returns, as the notifier chain sees it (see `Notify`'s contract). */
  function Verdict(action: u16, f: Frame): int
  {
    NOTIFY_DONE
  }
}
