/**
 * bitchat_get_timestamp_ms (protocol/bitchat_protocol.c): the RTC's calendar
 * reading turned into milliseconds since 1970 by counting days, with every
 * year 365 days long and February 28 days long. The RTC read itself is left
 * out; its fields are the parameter.
 */
module Timestamp {
  import opened Bytes

  /** The fields of the firmware's DateTime that the conversion reads, with their C widths. */
  datatype DateTime = DateTime(year: U16, month: Byte, day: Byte, hour: Byte, minute: Byte, second: Byte)

  const MsPerDay: nat := 86_400_000

  /** The month lengths the loop adds: no leap years. Months past 12 count 31 days. */
  function MonthLength(m: nat): (r: nat)
    ensures 28 <= r <= 31
  {
    if m == 2 then 28 else if m == 4 || m == 6 || m == 9 || m == 11 then 30 else 31
  }

  /** The days of the months before `month` (none before month 1). */
  function DaysBefore(month: nat): (r: nat)
    ensures r <= 31 * month
  {
    if month <= 1 then 0 else DaysBefore(month - 1) + MonthLength(month - 1)
  }

  /** The twelve months add up to a 365-day year. */
  lemma YearLength()
    ensures DaysBefore(13) == 365
  {
  }

  /**
   * `days`, a uint32: the day of the month (not made zero-based), the months
   * before, and 365 days per year since 1970. A year before 1970 makes the
   * signed year term negative and the sum wraps modulo 2^32.
   */
  function DayCount(t: DateTime): (r: U32)
    ensures t.year >= 1970 ==> r >= t.day
  {
    assert DaysBefore(t.month) <= 31 * 255;
    assert t.year >= 1970 ==> (t.year - 1970) * 365 <= 0xFFFF * 365;
    (t.day + DaysBefore(t.month) + (t.year - 1970) * 365) % 0x1_0000_0000
  }

  /** The value returned: the seconds of the day count and the time of day, in milliseconds. */
  function TimestampOf(t: DateTime): (r: U64)
    ensures r % 1000 == 0
    ensures r >= DayCount(t) * MsPerDay
    ensures t.hour < 24 && t.minute < 60 && t.second < 60 ==> r < (DayCount(t) + 1) * MsPerDay
  {
    var seconds := DayCount(t) * 86400 + t.hour * 3600 + t.minute * 60 + t.second;
    MulLe(86400, DayCount(t), 0xFFFF_FFFF);
    seconds * 1000
  }

  /** bitchat_get_timestamp_ms: the month loop, then the year term and the time of day. */
  method GetTimestampMs(t: DateTime) returns (ms: U64)
    ensures ms == TimestampOf(t)
  {
    var days: nat := t.day;
    var m := 1;
    while m < t.month
      invariant 1 <= m <= if t.month <= 1 then 1 else t.month
      invariant days == t.day + DaysBefore(m)
    {
      if m == 2 {
        days := days + 28;
      } else if m == 4 || m == 6 || m == 9 || m == 11 {
        days := days + 30;
      } else {
        days := days + 31;
      }
      m := m + 1;
    }
    days := (days + (t.year - 1970) * 365) % 0x1_0000_0000;
    var seconds := days * 86400 + t.hour * 3600 + t.minute * 60 + t.second;
    ms := seconds * 1000;
  }

  /** From 1970 on the day count does not wrap: it is the plain sum. */
  lemma NoWrapFrom1970(t: DateTime)
    requires t.year >= 1970
    ensures DayCount(t) == t.day + DaysBefore(t.month) + (t.year - 1970) * 365
  {
    assert DaysBefore(t.month) <= 31 * 255;
  }

  /** The time of day inside a day, in milliseconds. */
  function TimeOfDayMs(t: DateTime): nat
  {
    (t.hour * 3600 + t.minute * 60 + t.second) * 1000
  }

  /** From 1970 on, the timestamp is whole days of the day count plus the time of day. */
  lemma TimestampSplits(t: DateTime)
    requires t.year >= 1970
    ensures TimestampOf(t) == (t.day + DaysBefore(t.month) + (t.year - 1970) * 365) * MsPerDay + TimeOfDayMs(t)
  {
    NoWrapFrom1970(t);
  }

  /** The next day of the same month is one day later. */
  lemma NextDay(t: DateTime)
    requires t.year >= 1970 && t.day < 255
    ensures TimestampOf(t.(day := t.day + 1)) == TimestampOf(t) + MsPerDay
  {
    TimestampSplits(t);
    TimestampSplits(t.(day := t.day + 1));
  }

  /** The last day of a month and the first of the next are one day apart. */
  lemma NextMonth(t: DateTime)
    requires t.year >= 1970 && 1 <= t.month < 12 && t.day == MonthLength(t.month)
    ensures TimestampOf(t.(month := t.month + 1, day := 1)) == TimestampOf(t) + MsPerDay
  {
    TimestampSplits(t);
    TimestampSplits(t.(month := t.month + 1, day := 1));
  }

  /** December 31 and January 1 of the next year are one day apart. */
  lemma NextYear(t: DateTime)
    requires 1970 <= t.year < 0xFFFF && t.month == 12 && t.day == 31
    ensures TimestampOf(t.(year := t.year + 1, month := 1, day := 1)) == TimestampOf(t) + MsPerDay
  {
    YearLength();
    TimestampSplits(t);
    TimestampSplits(t.(year := t.year + 1, month := 1, day := 1));
  }

  /** With no leap years, February 29 is counted as March 1. */
  lemma February29IsMarch1(t: DateTime)
    requires t.month == 2 && t.day == 29
    ensures TimestampOf(t) == TimestampOf(t.(month := 3, day := 1))
  {
  }

  /** As written, midnight of 1970-01-01 comes out one day after the Unix epoch. */
  lemma EpochIsOneDayLate()
    ensures TimestampOf(DateTime(1970, 1, 1, 0, 0, 0)) == MsPerDay
  {
  }

  /** The conversion with the day of the month counted from zero, as Unix time does. */
  function UnixTimestampOf(t: DateTime): (r: nat)
    requires t.year >= 1970 && t.day >= 1
  {
    ((t.day - 1 + DaysBefore(t.month) + (t.year - 1970) * 365) * 86400 + t.hour * 3600 + t.minute * 60 + t.second) * 1000
  }

  /** The corrected conversion starts at zero at the epoch and is the source's value less one day. */
  lemma UnixTimestampCorrects(t: DateTime)
    requires t.year >= 1970 && t.day >= 1
    ensures UnixTimestampOf(DateTime(1970, 1, 1, 0, 0, 0)) == 0
    ensures UnixTimestampOf(t) == TimestampOf(t) - MsPerDay
  {
    TimestampSplits(t);
  }
}
