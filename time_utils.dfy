/**
 * Time and Duration of the trading bot: both are signed counts of
 * microseconds (a Time counts from the Unix epoch). Durations are built
 * from days, hours, minutes, seconds, milliseconds and microseconds;
 * times are split into a day number and the microseconds since midnight,
 * quantized to an interval, shifted by durations, and parsed from ISO
 * text with a check of the field ranges.
 */
module TimeUtils {

  import opened Wrappers
  import TraderUtils

  const MicrosPerSecond: int := 1_000_000
  const MicrosPerDay: int := 86_400_000_000

  /** The sentinel timestamp of an invalid Time. */
  const Int64Max: int := 0x7fff_ffff_ffff_ffff

  /** `Duration(days, hours, minutes, seconds, ms, us)` in microseconds. */
  function DurationOf(days: int, hours: int, minutes: int, seconds: int, millis: int, micros: int): int
  {
    days * MicrosPerDay + hours * 3_600_000_000 + minutes * 60_000_000
    + seconds * MicrosPerSecond + millis * 1000 + micros
  }

  /** `Time(date, time)`: a day number and microseconds since midnight. */
  function TimeOf(date: int, time: int): int
  {
    DurationOf(date, 0, 0, 0, 0, time)
  }

  /** `days_since_epoch()`: the C quotient by one day. */
  function DaysSinceEpoch(ts: int): int { CDiv(ts, MicrosPerDay) }

  /** `micros_since_midnight()`: the C remainder by one day. */
  function MicrosSinceMidnight(ts: int): int { CMod(ts, MicrosPerDay) }

  /** Durations add field by field: `2_day + 1_hour + 10_min + 5_sec == Duration(2, 1, 10, 5)`. */
  lemma DurationLiterals()
    ensures DurationOf(2, 0, 0, 0, 0, 0) + DurationOf(0, 1, 0, 0, 0, 0)
          + DurationOf(0, 0, 10, 0, 0, 0) + DurationOf(0, 0, 0, 5, 0, 0) == DurationOf(2, 1, 10, 5, 0, 0)
    ensures DurationOf(2, 1, 10, 5, 0, 0) == 177_005_000_000
  {
  }

  /** Splitting a timestamp into day and time of day and rebuilding it gives it back;
    * for times at or after the epoch the time of day lies within one day. */
  lemma DayTimeRoundTrip(ts: int)
    ensures TimeOf(DaysSinceEpoch(ts), MicrosSinceMidnight(ts)) == ts
    ensures ts >= 0 ==> 0 <= MicrosSinceMidnight(ts) < MicrosPerDay && DaysSinceEpoch(ts) >= 0
  {
    if ts >= 0 {
      CDivNatural(ts, MicrosPerDay);
    }
  }

  /** Conversely, a day and an in-range time of day are recovered from the Time. */
  lemma DayTimeSplit(date: int, time: int)
    requires date >= 0 && 0 <= time < MicrosPerDay
    ensures DaysSinceEpoch(TimeOf(date, time)) == date
    ensures MicrosSinceMidnight(TimeOf(date, time)) == time
  {
    var ts := TimeOf(date, time);
    assert ts == date * MicrosPerDay + time;
    CDivNatural(ts, MicrosPerDay);
    DivUnique(ts, MicrosPerDay, date, time);
  }

  /** A broken-down duration with in-range fields names one day and one time of day. */
  lemma DurationFields(days: int, hours: int, minutes: int, seconds: int, millis: int, micros: int)
    requires days >= 0 && 0 <= hours < 24 && 0 <= minutes < 60 && 0 <= seconds < 60
    requires 0 <= millis < 1000 && 0 <= micros < 1000
    ensures DaysSinceEpoch(DurationOf(days, hours, minutes, seconds, millis, micros)) == days
    ensures MicrosSinceMidnight(DurationOf(days, hours, minutes, seconds, millis, micros))
         == DurationOf(0, hours, minutes, seconds, millis, micros)
  {
    DayTimeSplit(days, DurationOf(0, hours, minutes, seconds, millis, micros));
  }

  /** `quantize(interval)`: the C quotient by the interval times the interval. */
  function Quantized(ts: int, interval: int): int
    requires interval != 0
  {
    CDiv(ts, interval) * interval
  }

  /** The C remainder `t % interval`. */
  function TimeMod(ts: int, interval: int): int
    requires interval != 0
  {
    CMod(ts, interval)
  }

  /**
   * Quantizing gives a multiple of the interval; at or after the epoch it is
   * the greatest such multiple not after the time, before the epoch it rounds
   * toward zero. It is exactly the time minus its remainder, and quantizing
   * twice changes nothing.
   */
  lemma QuantizedProperties(ts: int, interval: int)
    requires interval > 0
    ensures TimeMod(Quantized(ts, interval), interval) == 0
    ensures Quantized(ts, interval) == ts - TimeMod(ts, interval)
    ensures ts >= 0 ==> Quantized(ts, interval) <= ts < Quantized(ts, interval) + interval
    ensures ts < 0 ==> Quantized(ts, interval) - interval < ts <= Quantized(ts, interval)
    ensures Quantized(Quantized(ts, interval), interval) == Quantized(ts, interval)
  {
    var q := CDiv(ts, interval);
    var m := q * interval;
    if m >= 0 {
      DivUnique(m, interval, q, 0);
      CDivNatural(m, interval);
    } else {
      DivUnique(-m, interval, -q, 0);
      CDivNatural(-m, interval);
      assert CDiv(m, interval) == q;
    }
  }

  /** `t + d` and `t - d` for a Time and a Duration. */
  function Plus(t: int, d: int): int { t + d }

  function Minus(t: int, d: int): int { t - d }

  /** `t1 - t2` for two Times: the Duration between them. */
  function Difference(t1: int, t2: int): int { t1 - t2 }

  /** Shifting by a duration and taking the difference gives the duration back,
    * shifting back undoes the shift, and a time is another time shifted by
    * their difference. */
  lemma ShiftDifference(t: int, d: int, t2: int)
    ensures Difference(Plus(t, d), t) == d && Minus(Plus(t, d), d) == t
    ensures Plus(t2, Difference(t, t2)) == t
  {
  }

  /** The range checks applied to the fields read from ISO text. */
  predicate IsoFieldsInRange(month: int, day: int, hour: int, minute: int, second: real)
  {
    month <= 12 && day <= 31 && hour <= 23 && minute <= 59 && second <= 61.0
  }

  /**
   * `Time(iso_time, check_regex)` after the fields have been read with
   * `"%d-%d-%dT%d:%d:%lfZ"`. A failed format check (only when requested),
   * an overflow reported by `timegm`, or a field out of range give the
   * invalid timestamp; otherwise the seconds since the epoch (months out of
   * range rolled into neighbouring years, as `timegm` normalises them) plus
   * the rounded fraction of a second.
   */
  function IsoTimestamp(checkRegex: bool, matchesFormat: bool, overflow: bool,
                        year: int, month: int, day: int, hour: int, minute: int, second: real): (ts: int)
    ensures checkRegex && !matchesFormat ==> ts == Int64Max
    ensures overflow || !IsoFieldsInRange(month, day, hour, minute, second) ==> ts == Int64Max
  {
    if checkRegex && !matchesFormat then Int64Max
    else
      var tmMon := month - 1;
      var seconds := TraderUtils.MyTimegm(year - 1900 + tmMon / 12, tmMon % 12, day, hour, minute, second.Floor, 0);
      if overflow || !IsoFieldsInRange(month, day, hour, minute, second) then Int64Max
      else seconds * MicrosPerSecond + RoundedMicros(second)
  }

  /** The fraction of a second, in microseconds rounded half up. */
  function RoundedMicros(second: real): int
  {
    ((second - second.Floor as real) * 1_000_000.0 + 0.5).Floor
  }

  /** An accepted ISO time from 1970 on is the calendar's count of its whole
    * seconds, scaled to microseconds, plus the rounded fraction. */
  lemma IsoTimestampIsCalendar(year: int, month: int, day: int, hour: int, minute: int, second: real)
    requires year >= 1970 && 1 <= month && IsoFieldsInRange(month, day, hour, minute, second)
    ensures IsoTimestamp(false, true, false, year, month, day, hour, minute, second)
         == TraderUtils.CalendarSeconds(year, month - 1, day, hour, minute, second.Floor) * MicrosPerSecond
            + RoundedMicros(second)
  {
    assert (month - 1) / 12 == 0 && (month - 1) % 12 == month - 1;
    IsoTimestampUnfold(year, month, day, hour, minute, second, year - 1900, month - 1, second.Floor);
    TraderUtils.MyTimegmIsCalendar(year, year - 1900, month - 1, day, hour, minute, second.Floor);
  }

  /** Within range, the timestamp is `timegm`'s second count (of the
    * normalised year and month and the whole seconds) scaled to microseconds,
    * plus the rounded fraction. */
  lemma IsoTimestampUnfold(year: int, month: int, day: int, hour: int, minute: int, second: real,
                           tmYear: int, tmMon: int, wholeSec: int)
    requires IsoFieldsInRange(month, day, hour, minute, second) && month >= 1
    requires tmYear == year - 1900 + (month - 1) / 12 && tmMon == (month - 1) % 12 && wholeSec == second.Floor
    ensures IsoTimestamp(false, true, false, year, month, day, hour, minute, second)
         == TraderUtils.MyTimegm(tmYear, tmMon, day, hour, minute, wholeSec, 0) * MicrosPerSecond
            + RoundedMicros(second)
  {
  }

  /** The rounded fraction is at most a whole second of microseconds, and for
    * whole seconds plus a fraction it is that fraction, rounded. */
  lemma RoundedFraction(sec: int, frac: real)
    requires 0.0 <= frac < 1.0
    ensures RoundedMicros(sec as real + frac) == (frac * 1_000_000.0 + 0.5).Floor
    ensures 0 <= RoundedMicros(sec as real + frac) <= MicrosPerSecond
  {
    var s := sec as real + frac;
    assert s.Floor == sec;
    assert s - s.Floor as real == frac;
  }

  /**
   * A Time object: one timestamp that `quantize`, `+=` and `-=` update in
   * place. `valid()` is false exactly for the sentinel.
   */
  class Time {
    var timestamp: int

    constructor FromDateTime(date: int, time: int)
      ensures timestamp == TimeOf(date, time)
    {
      timestamp := TimeOf(date, time);
    }

    predicate IsValid()
      reads this
    {
      timestamp != Int64Max
    }

    method Quantize(interval: int)
      requires interval != 0
      modifies this
      ensures timestamp == Quantized(old(timestamp), interval)
    {
      timestamp := CDiv(timestamp, interval);
      timestamp := timestamp * interval;
    }

    method AddAssign(d: int)
      modifies this
      ensures timestamp == old(timestamp) + d
    {
      timestamp := timestamp + d;
    }

    method SubAssign(d: int)
      modifies this
      ensures timestamp == old(timestamp) - d
    {
      timestamp := timestamp - d;
    }
  }
}
