/** Times in nanoseconds from the first second of 1970, and their fields. */
module NsTime {
  import opened Wrappers
  import opened Calendar
  import opened SampleTimes

  const NSTERROR: int := -2145916800000000000

  datatype Fields = Fields(year: int, yday: int, hour: int, min: int, sec: int, nsec: int)

  /** The fields of a day of some year, without a leap second. */
  predicate Valid(f: Fields) {
    1 <= f.yday <= YearLength(f.year) && 0 <= f.hour < 24 && 0 <= f.min < 60 && 0 <= f.sec < 60 && 0 <= f.nsec < NSTMODULUS
  }

  /** So many days and the time of day of the fields, in nanoseconds. */
  function Nanoseconds(days: int, f: Fields): int {
    (60 * (60 * (24 * days + f.hour) + f.min) + f.sec) * NSTMODULUS + f.nsec
  }

  /** The time of the fields, by counting days year by year. */
  function TimeOf(f: Fields): int {
    Nanoseconds(DayOf(f.year) + f.yday - 1, f)
  }

  predicate Before(f: Fields, g: Fields) {
    f.year < g.year || (f.year == g.year &&
    (f.yday < g.yday || (f.yday == g.yday &&
    (f.hour < g.hour || (f.hour == g.hour &&
    (f.min < g.min || (f.min == g.min &&
    (f.sec < g.sec || (f.sec == g.sec && f.nsec < g.nsec)))))))))
  }

  /** The order of the fields is the order of the times. */
  lemma KeepsOrder(f: Fields, g: Fields)
    requires Valid(f) && Valid(g) && Before(f, g)
    ensures TimeOf(f) < TimeOf(g)
  {
    if f.year < g.year {
      DayOfGrows(f.year, g.year);
    }
  }

  /** Different fields have different times. */
  lemma TimeInjective(f: Fields, g: Fields)
    requires Valid(f) && Valid(g) && TimeOf(f) == TimeOf(g)
    ensures f == g
  {
    if Before(f, g) {
      KeepsOrder(f, g);
    } else if Before(g, f) {
      KeepsOrder(g, f);
    }
  }

  // ------------------------------------------------------------- from fields to a time

  /** ms_time2nstime_int, with C's shifts and truncating division. */
  function TimeToNstimeInt(f: Fields): int {
    var shortyear := f.year - 1900;
    var a4 := shortyear / 4 + 475 - (if shortyear % 4 == 0 then 1 else 0);
    var a100 := Quo(a4, 25) - (if Rem(a4, 25) < 0 then 1 else 0);
    var a400 := a100 / 4;
    var leapdays := (a4 - 492) - (a100 - 19) + (a400 - 4);
    var days := 365 * (shortyear - 70) + leapdays + (f.yday - 1);
    Nanoseconds(days, f)
  }

  /** The leap day arithmetic counts the days that the calendar has, in all years. */
  lemma TimeToNstimeIsTime(f: Fields)
    ensures TimeToNstimeInt(f) == TimeOf(f)
  {
    hide Nanoseconds, DayOf, LeapsBefore, Quo, Rem;
    DayOfClosed(f.year);
    LeapDays(f.year);
  }

  lemma LeapDays(year: int)
    ensures var shortyear := year - 1900;
            var a4 := shortyear / 4 + 475 - (if shortyear % 4 == 0 then 1 else 0);
            var a100 := Quo(a4, 25) - (if Rem(a4, 25) < 0 then 1 else 0);
            (a4 - 492) - (a100 - 19) + (a100 / 4 - 4) == LeapsBefore(year) - LeapsBefore(1970)
  {
    var y := year - 1;
    var a4 := (year - 1900) / 4 + 475 - (if (year - 1900) % 4 == 0 then 1 else 0);
    assert a4 == y / 4;
    assert Quo(a4, 25) - (if Rem(a4, 25) < 0 then 1 else 0) == a4 / 25;
    assert a4 / 25 == y / 100;
    assert y / 100 / 4 == y / 400;
  }

  /** ms_time2nstime */
  function TimeToNstime(f: Fields): int {
    if !(1678 <= f.year <= 2262) || !(1 <= f.yday <= YearLength(f.year)) || !(0 <= f.hour <= 23) || !(0 <= f.min <= 59)
       || !(0 <= f.sec <= 60) || !(0 <= f.nsec <= 999999999)
    then NSTERROR
    else TimeToNstimeInt(f)
  }

  // ------------------------------------------------------------- from a time to fields

  predicate Int64(n: int) {
    -0x8000_0000_0000_0000 <= n < 0x8000_0000_0000_0000
  }

  /** ms_nstime2time; the year is stored in 16 bits. */
  method NstimeToTime(nstime: int) returns (f: Option<Fields>)
    requires Int64(nstime)
    ensures f.Some? && Valid(f.value) && TimeOf(f.value) == nstime && 1677 <= f.value.year <= 2262
  {
    hide DayOf, Leap;
    var isec := Quo(nstime, NSTMODULUS);
    var ifract := nstime - isec * NSTMODULUS;
    if nstime < 0 && ifract != 0 {
      isec := isec - 1;
      ifract := NSTMODULUS - (-ifract);
    }
    SplitsSeconds(nstime);
    assert isec == nstime / NSTMODULUS && ifract == nstime % NSTMODULUS;
    ghost var t;
    var tm;
    tm, t := Gmtime64(isec);
    YearOfNstime(t, isec);
    if tm.None? {
      return None;
    }
    f := Some(Fields(tm.value.year % 0x1_0000, tm.value.yday + 1, tm.value.hour, tm.value.min, tm.value.sec, ifract));
    JoinsSeconds(tm.value, isec);
  }

  lemma SplitsSeconds(nstime: int)
    ensures var isec := Quo(nstime, NSTMODULUS); var ifract := nstime - isec * NSTMODULUS;
            if nstime < 0 && ifract != 0 then isec - 1 == nstime / NSTMODULUS && NSTMODULUS + ifract == nstime % NSTMODULUS
            else isec == nstime / NSTMODULUS && ifract == nstime % NSTMODULUS
  {}

  lemma JoinsSeconds(tm: Tm, isec: int)
    requires IsTime(tm, isec)
    ensures (((DayOf(tm.year) + tm.yday) * 24 + tm.hour) * 60 + tm.min) * 60 + tm.sec == isec
  {}

  /** 64 bits of nanoseconds reach from 1677 to 2262. */
  lemma YearOfNstime(tm: Tm, isec: int)
    requires IsTime(tm, isec) && -9223372037 <= isec <= 9223372036
    ensures 1677 <= tm.year <= 2262
  {
    DayOfClosed(1677);
    DayOfClosed(2263);
    hide DayOf, MonthStart;
    if tm.year < 1677 {
      DayOfGrows(tm.year, 1677);
    }
    if tm.year > 2262 {
      DayOfAtLeast(2263, tm.year);
    }
  }

  lemma DayOfAtLeast(year: int, later: int)
    requires year <= later
    ensures DayOf(year) <= DayOf(later)
  {
    if year < later {
      DayOfGrows(year, later);
    }
  }

  /** The fields of a time make that time again. */
  method TimeRoundTrip(nstime: int) returns (again: int)
    requires Int64(nstime)
    ensures again == nstime
  {
    var f := NstimeToTime(nstime);
    TimeToNstimeIsTime(f.value);
    return TimeToNstimeInt(f.value);
  }

  /** Valid fields come back unchanged. */
  method FieldsRoundTrip(f: Fields) returns (again: Option<Fields>)
    requires Valid(f) && Int64(TimeToNstimeInt(f))
    ensures again == Some(f)
  {
    hide TimeToNstimeInt, TimeOf;
    TimeToNstimeIsTime(f);
    again := NstimeToTime(TimeToNstimeInt(f));
    TimeInjective(f, again.value);
  }

  /**
   * With the range checks of ms_time2nstime the fields of a time make that time again exactly
   * when the time is not in the year 1677, the last days of which 64 bits can hold.
   */
  lemma CheckedRoundTrip(f: Fields, nstime: int)
    requires Valid(f) && TimeOf(f) == nstime && 1677 <= f.year <= 2262
    ensures TimeToNstime(f) == nstime <==> nstime >= DayOf(1678) * 86400 * NSTMODULUS
    ensures TimeToNstime(f) == nstime || TimeToNstime(f) == NSTERROR
  {
    TimeToNstimeIsTime(f);
    var new1678 := Fields(1678, 1, 0, 0, 0, 0);
    hide DayOf, TimeToNstimeInt, Leap;
    DayOfClosed(1678);
    if f.year < 1678 {
      KeepsOrder(f, new1678);
    } else if f != new1678 && Before(new1678, f) {
      KeepsOrder(new1678, f);
    }
  }

  /** The year of a time that 64 bits can hold. */
  lemma YearOfTime(f: Fields)
    requires Valid(f) && Int64(TimeOf(f))
    ensures 1677 <= f.year <= 2262
  {
    hide Leap;
    DayOfClosed(1677);
    DayOfClosed(2263);
    if f.year < 1677 {
      KeepsOrder(f, Fields(1677, 1, 0, 0, 0, 0));
    }
    if f.year > 2262 {
      DayOfAtLeast(2263, f.year);
    }
  }
}
