/**
 * The proleptic Gregorian calendar, and the decomposition of a POSIX time into its fields
 * (POSIX base definitions, section 4.16, extended to all years).
 */
module Calendar {
  import opened Wrappers

  predicate Leap(year: int) {
    year % 4 == 0 && (year % 100 != 0 || year % 400 == 0)
  }

  function YearLength(year: int): int {
    if Leap(year) then 366 else 365
  }

  /** The day on which a year begins, counted from the first day of 1970: year by year. */
  function DayOf(year: int): int
    decreases if year >= 1970 then year - 1970 else 1970 - year
  {
    if year == 1970 then 0
    else if year > 1970 then DayOf(year - 1) + YearLength(year - 1)
    else DayOf(year + 1) - YearLength(year)
  }

  lemma DayOfNext(year: int)
    ensures DayOf(year + 1) == DayOf(year) + YearLength(year)
  {}

  /** How many of the years before this one are leap years, counted from a fixed year. */
  function LeapsBefore(year: int): int {
    (year - 1) / 4 - (year - 1) / 100 + (year - 1) / 400
  }

  lemma LeapsBeforeNext(year: int)
    ensures LeapsBefore(year + 1) == LeapsBefore(year) + if Leap(year) then 1 else 0
  {
    QuotientStep(year, 4);
    QuotientStep(year, 100);
    QuotientStep(year, 400);
    Multiples(year);
  }

  lemma Multiples(year: int)
    ensures (year % 400 == 0 ==> year % 100 == 0) && (year % 100 == 0 ==> year % 4 == 0)
  {
    if year % 400 == 0 {
      Hundreds(year, 4 * (year / 400));
    }
    if year % 100 == 0 {
      Fours(year, 25 * (year / 100));
    }
  }

  lemma Hundreds(y: int, k: int)
    requires y == 100 * k
    ensures y % 100 == 0
  {}

  lemma Fours(y: int, k: int)
    requires y == 4 * k
    ensures y % 4 == 0
  {}

  lemma QuotientStep(y: int, n: int)
    requires n == 4 || n == 100 || n == 400
    ensures y / n == (y - 1) / n + if y % n == 0 then 1 else 0
  {}

  lemma {:induction false} DayOfClosed(year: int)
    ensures DayOf(year) == 365 * (year - 1970) + LeapsBefore(year) - LeapsBefore(1970)
    decreases if year >= 1970 then year - 1970 else 1970 - year
  {
    hide LeapsBefore, Leap;
    if year > 1970 {
      DayOfClosed(year - 1);
      LeapsBeforeNext(year - 1);
    } else if year < 1970 {
      DayOfClosed(year + 1);
      LeapsBeforeNext(year);
    }
  }

  /** Four hundred years are 146097 days. */
  lemma DayOfCycles(year: int, cycles: int)
    ensures DayOf(year + 400 * cycles) == DayOf(year) + 146097 * cycles
    ensures Leap(year + 400 * cycles) == Leap(year)
  {
    hide DayOf;
    DayOfClosed(year);
    DayOfClosed(year + 400 * cycles);
    CycleShift(year - 1, cycles);
    CycleShift(year, cycles);
  }

  lemma CycleShift(y: int, cycles: int)
    ensures (y + 400 * cycles) / 4 == y / 4 + 100 * cycles && (y + 400 * cycles) % 4 == y % 4
    ensures (y + 400 * cycles) / 100 == y / 100 + 4 * cycles && (y + 400 * cycles) % 100 == y % 100
    ensures (y + 400 * cycles) / 400 == y / 400 + cycles && (y + 400 * cycles) % 400 == y % 400
  {}

  /** A day lies in one year only. */
  lemma {:induction false} DayOfGrows(year: int, later: int)
    requires year < later
    ensures DayOf(year) + YearLength(year) <= DayOf(later)
    decreases later - year
  {
    if year + 1 < later {
      DayOfGrows(year, later - 1);
      DayOfNext(later - 1);
    } else {
      DayOfNext(year);
    }
  }

  // ------------------------------------------------------------------------ months

  function MonthLength(leap: bool, mon: nat): int
    requires mon < 12
  {
    if mon == 1 then (if leap then 29 else 28) else if mon == 3 || mon == 5 || mon == 8 || mon == 10 then 30 else 31
  }

  /** The days of the year before a month. */
  function MonthStart(leap: bool, mon: nat): int
    requires mon <= 12
  {
    if mon == 0 then 0 else MonthStart(leap, mon - 1) + MonthLength(leap, mon - 1)
  }

  lemma MonthStarts(leap: bool)
    ensures MonthStart(leap, 12) == if leap then 366 else 365
    ensures MonthStart(leap, 11) == if leap then 335 else 334
  {
    var more := if leap then 1 else 0;
    assert MonthStart(leap, 1) == 31 && MonthStart(leap, 2) == 59 + more;
    assert MonthStart(leap, 3) == 90 + more && MonthStart(leap, 4) == 120 + more;
    assert MonthStart(leap, 5) == 151 + more && MonthStart(leap, 6) == 181 + more;
    assert MonthStart(leap, 7) == 212 + more && MonthStart(leap, 8) == 243 + more;
    assert MonthStart(leap, 9) == 273 + more && MonthStart(leap, 10) == 304 + more;
  }

  /** The days of a year before each of its months. */
  const DAYS_BEFORE: seq<int> := [0, 31, 59, 90, 120, 151, 181, 212, 243, 273, 304, 334]
  const LEAP_DAYS_BEFORE: seq<int> := [0, 31, 60, 91, 121, 152, 182, 213, 244, 274, 305, 335]

  /** The days of its months. */
  const MONTH_DAYS: seq<int> := [31, 28, 31, 30, 31, 30, 31, 31, 30, 31, 30, 31]
  const LEAP_MONTH_DAYS: seq<int> := [31, 29, 31, 30, 31, 30, 31, 31, 30, 31, 30, 31]

  /** Months begin and end where the calendar has it. */
  lemma MonthsAre(leap: bool, mon: nat)
    requires mon < 12
    ensures MonthStart(leap, mon) == (if leap then LEAP_DAYS_BEFORE else DAYS_BEFORE)[mon]
    ensures MonthLength(leap, mon) == (if leap then LEAP_MONTH_DAYS else MONTH_DAYS)[mon]
  {
    var more := if leap then 1 else 0;
    assert MonthStart(leap, 1) == 31 && MonthStart(leap, 2) == 59 + more;
    assert MonthStart(leap, 3) == 90 + more && MonthStart(leap, 4) == 120 + more;
    assert MonthStart(leap, 5) == 151 + more && MonthStart(leap, 6) == 181 + more;
    assert MonthStart(leap, 7) == 212 + more && MonthStart(leap, 8) == 243 + more;
    assert MonthStart(leap, 9) == 273 + more && MonthStart(leap, 10) == 304 + more;
    assert MonthStart(leap, 11) == 334 + more;
  }

  // ----------------------------------------------------------------------- fields

  /** struct tm; the year is counted from 0, not from 1900. */
  datatype Tm = Tm(year: int, yday: int, mon: int, mday: int, wday: int, hour: int, min: int, sec: int)

  /** The fields are those of a time in seconds from the first second of 1970. */
  predicate IsTime(tm: Tm, time: int) {
    var days := time / 86400;
    && 0 <= tm.yday < YearLength(tm.year) && DayOf(tm.year) + tm.yday == days
    && 0 <= tm.mon < 12 && 1 <= tm.mday <= MonthLength(Leap(tm.year), tm.mon)
    && MonthStart(Leap(tm.year), tm.mon) + tm.mday - 1 == tm.yday
    && tm.wday == (days + 4) % 7
    && 0 <= tm.hour < 24 && 0 <= tm.min < 60 && 0 <= tm.sec < 60
    && (tm.hour * 60 + tm.min) * 60 + tm.sec == time % 86400
  }

  /** The date has the day of the year that the tables give it. */
  predicate DateIs(tm: Tm) {
    && 0 <= tm.mon < 12
    && tm.yday == (if Leap(tm.year) then LEAP_DAYS_BEFORE else DAYS_BEFORE)[tm.mon] + tm.mday - 1
    && 1 <= tm.mday <= (if Leap(tm.year) then LEAP_MONTH_DAYS else MONTH_DAYS)[tm.mon]
  }

  /** What is added for each month to find the day of the week of a date. */
  const WEEKDAYS: seq<int> := [0, 3, 2, 5, 0, 3, 5, 1, 4, 6, 2, 4]

  /** The day of the week of a date, 0 for Sunday: years count from March on. */
  function Weekday(year: int, mon: int, mday: int): int
    requires 0 <= mon < 12
  {
    var y := if mon < 2 then year - 1 else year;
    (y + y / 4 - y / 100 + y / 400 + WEEKDAYS[mon] + mday) % 7
  }

  /** The fields of a time make a date of the calendar with its day of the week. */
  lemma FieldsMakeDate(tm: Tm, time: int)
    requires IsTime(tm, time)
    ensures DateIs(tm) && tm.wday == Weekday(tm.year, tm.mon, tm.mday)
  {
    MonthsAre(Leap(tm.year), tm.mon);
    DayOfClosed(tm.year);
    LeapsBeforeNext(tm.year);
    LeapsTo1970();
    hide DayOf, MonthStart, MonthLength;
    WeekdayOfMonth(tm.year, LeapsBefore(tm.year), Leap(tm.year), tm.mon, tm.mday);
  }

  lemma LeapsTo1970()
    ensures LeapsBefore(1970) == 477
  {}

  lemma WeekdayOfMonth(year: int, leaps: int, leap: bool, mon: nat, mday: int)
    requires mon < 12
    ensures var start := (if leap then LEAP_DAYS_BEFORE else DAYS_BEFORE)[mon];
            var now := if mon < 2 then year - 1 + leaps else year + leaps + if leap then 1 else 0;
            (365 * (year - 1970) + leaps - 477 + start + mday - 1 + 4) % 7 == (now + WEEKDAYS[mon] + mday) % 7
  {
    var start := (if leap then LEAP_DAYS_BEFORE else DAYS_BEFORE)[mon];
    var now := if mon < 2 then year - 1 + leaps else year + leaps + if leap then 1 else 0;
    var a, b := 365 * (year - 1970) + leaps - 477 + start + mday - 1 + 4, now + WEEKDAYS[mon] + mday;
    var k := Sevens(mon);
    assert a - b == 7 * (52 * (year - 1970) + k);
    SameRemainder(a, b, 52 * (year - 1970) + k);
  }

  /** By how many weeks the two ways of counting differ. */
  function Sevens(mon: nat): int
    requires mon < 12
  {
    (DAYS_BEFORE[mon] - WEEKDAYS[mon] - 1970 - 474 + if mon < 2 then 1 else 0) / 7
  }

  lemma SameRemainder(a: int, b: int, k: int)
    requires a - b == 7 * k
    ensures a % 7 == b % 7
  {}

  lemma {:induction false} MonthsGrow(leap: bool, mon: nat, later: nat)
    requires mon < later < 12
    ensures MonthStart(leap, mon) + MonthLength(leap, mon) <= MonthStart(leap, later)
  {
    if mon + 1 < later {
      MonthsGrow(leap, mon, later - 1);
    }
  }

  /** A time has only one set of fields. */
  lemma FieldsUnique(tm: Tm, tm': Tm, time: int)
    requires IsTime(tm, time) && IsTime(tm', time)
    ensures tm == tm'
  {
    if tm.year < tm'.year {
      DayOfGrows(tm.year, tm'.year);
    } else if tm'.year < tm.year {
      DayOfGrows(tm'.year, tm.year);
    }
    if tm.mon < tm'.mon {
      MonthsGrow(Leap(tm.year), tm.mon, tm'.mon);
    } else if tm'.mon < tm.mon {
      MonthsGrow(Leap(tm.year), tm'.mon, tm.mon);
    }
  }

  // ------------------------------------------------------------------------ gmtime

  /** C's quotient and remainder, truncating toward zero. */
  function Quo(a: int, b: int): int
    requires b > 0
  {
    if a >= 0 then a / b else -(-a / b)
  }

  function Rem(a: int, b: int): int
    requires b > 0
  {
    a - Quo(a, b) * b
  }

  /** WRAP_TIME64: a negative remainder borrows from the next field. */
  function Wrap(a: int, b: int, m: int): (int, int) {
    if a < 0 then (a + m, b - 1) else (a, b)
  }

  /** The fields of a day: days, hours, minutes and seconds as C computes them are the floors. */
  lemma WrapIsFloor(time: int)
    ensures var sec := Rem(time, 60); var t1 := Quo(time, 60); var min := Rem(t1, 60); var t2 := Quo(t1, 60);
            var hour := Rem(t2, 24); var tday := Quo(t2, 24);
            var (s, m1) := Wrap(sec, min, 60);
            var (m, h1) := Wrap(m1, hour, 60);
            var (h, d) := Wrap(h1, tday, 24);
            d == time / 86400 && 0 <= h < 24 && 0 <= m < 60 && 0 <= s < 60 && (h * 60 + m) * 60 + s == time % 86400
  {
  }

  const DAYS_IN_CYCLE: int := 365 * 400 + 100 - 4 + 1
  const CHEAT_DAYS: int := 1199145600 / 24 / 60 / 60
  const CHEAT_YEARS: int := 108

  lemma CheatIsRight()
    ensures DayOf(1900 + CHEAT_YEARS) == CHEAT_DAYS && DayOf(1970) == 0
  {
    hide DayOf;
    DayOfClosed(2008);
    DayOfClosed(1970);
  }

  /** IS_LEAP, on years counted from 1900 and with C's remainder. */
  predicate IsLeap(n: int) {
    Rem(n + 1900, 400) == 0 || (Rem(n + 1900, 4) == 0 && Rem(n + 1900, 100) != 0)
  }

  lemma IsLeapIsLeap(n: int)
    ensures IsLeap(n) == Leap(n + 1900)
  {
    if n + 1900 < 0 {
      NegatedRemainder(n + 1900);
    }
  }

  /** C's remainder is zero when the other one is. */
  lemma NegatedRemainder(y: int)
    requires y < 0
    ensures (Rem(y, 400) == 0 <==> y % 400 == 0) && (Rem(y, 100) == 0 <==> y % 100 == 0) && (Rem(y, 4) == 0 <==> y % 4 == 0)
  {
    RemainderOf400(y);
    RemainderOf100(y);
    RemainderOf4(y);
    hide Rem;
  }

  lemma RemainderOf400(y: int)
    requires y < 0
    ensures Rem(y, 400) == 0 <==> y % 400 == 0
  {}

  lemma RemainderOf100(y: int)
    requires y < 0
    ensures Rem(y, 100) == 0 <==> y % 100 == 0
  {}

  lemma RemainderOf4(y: int)
    requires y < 0
    ensures Rem(y, 4) == 0 <==> y % 4 == 0
  {}

  /** The years from a day that is not before the first of `year`: what is left of them and the year, and how often the loop went round. */
  method YearsForward(m0: int, year0: int) returns (m: int, year: int, leap: bool, ghost rounds: nat)
    requires m0 >= 0
    ensures rounds <= 400
    ensures leap == Leap(year + 1900) && 0 <= m < YearLength(year + 1900)
    ensures DayOf(year + 1900) + m == DayOf(year0 + 1900) + m0
  {
    hide Leap, IsLeap;
    m, year := m0, year0;
    var cycles := Quo(m, DAYS_IN_CYCLE);
    if cycles != 0 {
      DayOfCycles(year + 1900, cycles);
      m := m - cycles * DAYS_IN_CYCLE;
      year := year + cycles * 400;
    }
    IsLeapIsLeap(year);
    leap := IsLeap(year);
    rounds := 0;
    while m >= (if leap then 366 else 365)
      invariant leap == Leap(year + 1900) && 0 <= m && m + 365 * rounds < DAYS_IN_CYCLE
      invariant DayOf(year + 1900) + m == DayOf(year0 + 1900) + m0
      decreases m
    {
      DayOfNext(year + 1900);
      m := m - (if leap then 366 else 365);
      year := year + 1;
      IsLeapIsLeap(year);
      leap := IsLeap(year);
      rounds := rounds + 1;
    }
  }

  /** The years back from a day before the first of `year0` + 1: what is left, below zero, and the year. */
  method YearsBack(m0: int, year0: int) returns (m: int, year: int, leap: bool, ghost rounds: nat)
    requires m0 < 0
    ensures rounds <= 800
    ensures leap == Leap(year + 1900) && -YearLength(year + 1900) <= m < 0
    ensures DayOf(year + 1901) + m == DayOf(year0 + 1901) + m0
  {
    hide Leap, IsLeap;
    m, year := m0, year0;
    var cycles := Quo(m, DAYS_IN_CYCLE) + 1;
    if cycles != 0 {
      DayOfCycles(year + 1901, cycles);
      m := m - cycles * DAYS_IN_CYCLE;
      year := year + cycles * 400;
    }
    IsLeapIsLeap(year);
    leap := IsLeap(year);
    rounds := 0;
    while m < -(if leap then 366 else 365)
      invariant leap == Leap(year + 1900) && m < 0 && m - 365 * rounds > -2 * DAYS_IN_CYCLE
      invariant DayOf(year + 1901) + m == DayOf(year0 + 1901) + m0
      decreases -m
    {
      DayOfNext(year + 1900);
      m := m + (if leap then 366 else 365);
      year := year - 1;
      IsLeapIsLeap(year);
      leap := IsLeap(year);
      rounds := rounds + 1;
    }
  }

  /** The month of a day of a year. */
  method MonthsForward(day: int, leap: bool) returns (m: int, mon: nat)
    requires 0 <= day < if leap then 366 else 365
    ensures mon < 12 && 0 <= m < MonthLength(leap, mon) && MonthStart(leap, mon) + m == day
  {
    MonthStarts(leap);
    m, mon := day, 0;
    while m >= MonthLength(leap, mon)
      invariant mon < 12 && 0 <= m && MonthStart(leap, mon) + m == day
    {
      m := m - MonthLength(leap, mon);
      mon := mon + 1;
    }
  }

  /** The same for a day counted back from the end of the year. */
  method MonthsBack(day: int, leap: bool) returns (m: int, mon: nat)
    requires -(if leap then 366 else 365) <= day < 0
    ensures mon < 12 && 0 <= m < MonthLength(leap, mon) && MonthStart(leap, mon) + m == day + if leap then 366 else 365
  {
    MonthStarts(leap);
    m, mon := day, 11;
    while m < -MonthLength(leap, mon)
      invariant mon < 12 && m < 0 && MonthStart(leap, mon + 1) + m == day + if leap then 366 else 365
    {
      m := m + MonthLength(leap, mon);
      mon := mon - 1;
    }
    m := m + MonthLength(leap, mon);
  }

  /** ms_gmtime64_r: None when the year, counted from 1900, does not fit an int. */
  method Gmtime64(time: int) returns (tm: Option<Tm>, ghost t: Tm)
    ensures IsTime(t, time) && tm == if -0x8000_0000 <= t.year - 1900 < 0x8000_0000 then Some(t) else None
    ensures tm.Some? ==> IsTime(tm.value, time) && DateIs(tm.value)
    ensures tm.Some? ==> tm.value.wday == Weekday(tm.value.year, tm.value.mon, tm.value.mday)
    ensures tm.None? ==> forall u: Tm :: IsTime(u, time) ==> !(-0x8000_0000 <= u.year - 1900 < 0x8000_0000)
  {
    hide DayOf, Leap, IsLeap, MonthStart, MonthLength, DateIs, Weekday;
    var minutes := Quo(time, 60);
    var hours := Quo(minutes, 60);
    var (sec, min1) := Wrap(Rem(time, 60), Rem(minutes, 60), 60);
    var (min, hour1) := Wrap(min1, Rem(hours, 24), 60);
    var (hour, tday) := Wrap(hour1, Quo(hours, 24), 24);
    WrapIsFloor(time);
    hide Wrap, Quo, Rem;
    var wday := Rem(tday + 4, 7);
    if wday < 0 {
      wday := wday + 7;
    }
    WeekDay(tday);
    var year, m, leap, mon := 70, tday, false, 0;
    CheatIsRight();
    if m >= CHEAT_DAYS {
      year := CHEAT_YEARS;
      m := m - CHEAT_DAYS;
    }
    ghost var rounds;
    if m >= 0 {
      m, year, leap, rounds := YearsForward(m, year);
      m, mon := MonthsForward(m, leap);
    } else {
      m, year, leap, rounds := YearsBack(m, year - 1);
      DayOfNext(year + 1900);
      m, mon := MonthsBack(m, leap);
    }
    InYear(leap, mon, m);
    t := Tm(year + 1900, MonthStart(leap, mon) + m, mon, m + 1, wday, hour, min, sec);
    if !(-0x8000_0000 <= year < 0x8000_0000) {
      tm := None;
      OnlyFields(t, time);
    } else {
      tm := Some(Tm(year + 1900, MonthStart(leap, mon) + m, mon, m + 1, wday, hour, min, sec));
      FieldsMakeDate(tm.value, time);
    }
  }

  lemma OnlyFields(t: Tm, time: int)
    requires IsTime(t, time)
    ensures forall u: Tm :: IsTime(u, time) ==> u == t
  {
    forall u: Tm | IsTime(u, time) ensures u == t {
      FieldsUnique(u, t, time);
    }
  }

  lemma WeekDay(tday: int)
    ensures (tday + 4) % 7 == if Rem(tday + 4, 7) < 0 then Rem(tday + 4, 7) + 7 else Rem(tday + 4, 7)
  {}

  lemma InYear(leap: bool, mon: nat, m: int)
    requires mon < 12 && 0 <= m < MonthLength(leap, mon)
    ensures 0 <= MonthStart(leap, mon) + m < if leap then 366 else 365
  {
    MonthStarts(leap);
    if mon < 11 {
      MonthsGrow(leap, mon, 11);
    }
    StartNotNegative(leap, mon);
  }

  lemma StartNotNegative(leap: bool, mon: nat)
    requires mon < 12
    ensures MonthStart(leap, mon) >= 0
  {}
}
