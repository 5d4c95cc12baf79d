// Time values of section 15.9.1 of ECMA-262 edition 5.1: milliseconds from 1970-01-01 UTC, and the
// proleptic Gregorian calendar the accessors and Date.UTC read them in.
module EcmaDate {
  import opened Arithmetic

  // Section 15.9.1.2.
  function Day(t: int): int {
    t / 86400000
  }

  function TimeWithinDay(t: int): int {
    t % 86400000
  }

  // Section 15.9.1.3.
  predicate IsLeap(y: int) {
    y % 4 == 0 && (y % 100 != 0 || y % 400 == 0)
  }

  function DaysInYear(y: int): int {
    if IsLeap(y) then 366 else 365
  }

  function DayFromYear(y: int): int {
    365 * (y - 1970) + (y - 1969) / 4 - (y - 1901) / 100 + (y - 1601) / 400
  }

  lemma YearStep(y: int)
    ensures DayFromYear(y + 1) == DayFromYear(y) + DaysInYear(y)
  {
    Century(y, 4, -492);
    Century(y, 100, -19);
    Century(y, 400, -4);
    LeapByHundreds(y);
  }

  // How a quotient in DayFromYear steps at the end of year y.
  lemma Century(y: int, d: int, k: int)
    requires d > 0
    ensures (y + d * k) / d == (y + d * k - 1) / d + if y % d == 0 then 1 else 0
  {
    DivStep(y + d * k - 1, d);
    DivShift(y, d, k);
  }

  lemma LeapByHundreds(y: int)
    ensures y % 400 == 0 ==> y % 100 == 0
    ensures y % 100 == 0 ==> y % 4 == 0
  {
    if y % 400 == 0 {
      DivUnique(y, 100, 4 * (y / 400), 0);
    }
    if y % 100 == 0 {
      DivUnique(y, 4, 25 * (y / 100), 0);
    }
  }

  lemma YearCycle(y: int, k: int)
    ensures DayFromYear(y + 400 * k) == DayFromYear(y) + 146097 * k
  {
    DivShift(y - 1969, 4, 100 * k);
    DivShift(y - 1901, 100, 4 * k);
    DivShift(y - 1601, 400, k);
  }

  // The last year from y on that has begun by day d.
  function YearUpTo(d: int, y: int): (r: int)
    requires DayFromYear(y) <= d
    ensures DayFromYear(r) <= d < DayFromYear(r + 1)
    decreases d - DayFromYear(y)
  {
    YearStep(y);
    if d < DayFromYear(y + 1) then y else YearUpTo(d, y + 1)
  }

  // YearFromTime, as a function of the day: the largest year that has begun.
  function YearFromDay(d: int): (y: int)
    ensures DayFromYear(y) <= d < DayFromYear(y + 1)
  {
    YearCycle(1970, d / 146097);
    YearUpTo(d, 1970 + 400 * (d / 146097))
  }

  lemma {:induction false} YearsIncrease(y: int, z: int)
    requires y <= z
    ensures DayFromYear(y) <= DayFromYear(z)
    decreases z - y
  {
    if y < z {
      YearStep(y);
      YearsIncrease(y + 1, z);
    }
  }

  lemma YearUnique(d: int, y: int)
    requires DayFromYear(y) <= d < DayFromYear(y + 1)
    ensures YearFromDay(d) == y
  {
    var z := YearFromDay(d);
    if z < y {
      YearsIncrease(z + 1, y);
    } else if z > y {
      YearsIncrease(y + 1, z);
    }
  }

  // Section 15.9.1.4: the days of the year before month m.
  function DaysBefore(m: int, leap: bool): (d: int)
    requires 0 <= m <= 12
    ensures 0 <= d <= 366 && (m < 12 ==> d <= 335)
  {
    var l := if leap then 1 else 0;
    if m == 0 then 0
    else if m == 1 then 31
    else if m == 2 then 59 + l
    else if m == 3 then 90 + l
    else if m == 4 then 120 + l
    else if m == 5 then 151 + l
    else if m == 6 then 181 + l
    else if m == 7 then 212 + l
    else if m == 8 then 243 + l
    else if m == 9 then 273 + l
    else if m == 10 then 304 + l
    else if m == 11 then 334 + l
    else 365 + l
  }

  // The Gregorian calendar: the lengths of its years and months, from the first day of 1970 on.
  lemma Gregorian(y: int, m: int)
    requires 0 <= m < 12
    ensures DayFromYear(1970) == 0 && DaysBefore(0, IsLeap(y)) == 0
    ensures DayFromYear(y + 1) - DayFromYear(y) ==
      if y % 4 != 0 then 365 else if y % 100 != 0 then 366 else if y % 400 != 0 then 365 else 366
    ensures DaysBefore(m + 1, IsLeap(y)) - DaysBefore(m, IsLeap(y)) ==
      if m == 1 then DayFromYear(y + 1) - DayFromYear(y) - 337
      else if m == 3 || m == 5 || m == 8 || m == 10 then 30
      else 31
  {
    YearStep(y);
    LeapByHundreds(y);
  }

  function MonthFromDayInYear(k: int, leap: bool): (m: int)
    requires 0 <= k < if leap then 366 else 365
    ensures 0 <= m < 12 && DaysBefore(m, leap) <= k < DaysBefore(m + 1, leap)
  {
    var l := if leap then 1 else 0;
    if k < 31 then 0
    else if k < 59 + l then 1
    else if k < 90 + l then 2
    else if k < 120 + l then 3
    else if k < 151 + l then 4
    else if k < 181 + l then 5
    else if k < 212 + l then 6
    else if k < 243 + l then 7
    else if k < 273 + l then 8
    else if k < 304 + l then 9
    else if k < 334 + l then 10
    else 11
  }

  // The UTC accessors.
  function YearFromTime(t: int): int {
    YearFromDay(Day(t))
  }

  function DayWithinYear(t: int): (k: int)
    ensures 0 <= k < DaysInYear(YearFromTime(t))
  {
    YearStep(YearFromTime(t));
    Day(t) - DayFromYear(YearFromTime(t))
  }

  function MonthFromTime(t: int): (m: int)
    ensures 0 <= m < 12
  {
    MonthFromDayInYear(DayWithinYear(t), IsLeap(YearFromTime(t)))
  }

  function DateFromTime(t: int): (d: int)
    ensures 1 <= d <= 31
  {
    DayWithinYear(t) - DaysBefore(MonthFromTime(t), IsLeap(YearFromTime(t))) + 1
  }

  function HourFromTime(t: int): (h: int)
    ensures 0 <= h < 24
  {
    (t / 3600000) % 24
  }

  function MinFromTime(t: int): (m: int)
    ensures 0 <= m < 60
  {
    (t / 60000) % 60
  }

  function SecFromTime(t: int): (s: int)
    ensures 0 <= s < 60
  {
    (t / 1000) % 60
  }

  function MsFromTime(t: int): (ms: int)
    ensures 0 <= ms < 1000
  {
    t % 1000
  }

  // Sections 15.9.1.11 to 15.9.1.13.
  function MakeTime(hour: int, min: int, sec: int, ms: int): int {
    hour * 3600000 + min * 60000 + sec * 1000 + ms
  }

  // The day that is the first of the given month, months counted on from January of the given year.
  function MakeDay(year: int, month: int, date: int): int {
    var y := year + month / 12;
    DayFromYear(y) + DaysBefore(month % 12, IsLeap(y)) + date - 1
  }

  function MakeDate(day: int, time: int): int {
    day * 86400000 + time
  }

  // Date.UTC of section 15.9.4.3, where two-digit years are years of the twentieth century.
  function FullYear(year: int): int {
    if 0 <= year <= 99 then 1900 + year else year
  }

  function DateUtc(year: int, month: int, date: int, hour: int, min: int, sec: int, ms: int): int {
    MakeDate(MakeDay(FullYear(year), month, date), MakeTime(hour, min, sec, ms))
  }

  // A year of two digits is one of the twentieth century; any other stands for itself.
  lemma TwentiethCentury(year: int, month: int, date: int, time: int)
    ensures 0 <= year <= 99 ==>
      DateUtc(year, month, date, 0, 0, 0, time) == DateUtc(1900 + year, month, date, 0, 0, 0, time)
    ensures !(0 <= year <= 99) ==>
      DateUtc(year, month, date, 0, 0, 0, time) == MakeDate(MakeDay(year, month, date), time)
  {
  }

  // Section 15.9.1.14: beyond 100,000,000 days from 1970 there is no time value.
  predicate IsTime(t: int) {
    -8640000000000000 <= t <= 8640000000000000
  }

  lemma DayOfDate(d: int, time: int)
    requires 0 <= time < 86400000
    ensures Day(MakeDate(d, time)) == d && TimeWithinDay(MakeDate(d, time)) == time
  {
    DivUnique(MakeDate(d, time), 86400000, d, time);
  }

  // The accessors of a day given as a day of a year.
  lemma AccessorsOf(y: int, k: int, time: int)
    requires 0 <= k < DaysInYear(y) && 0 <= time < 86400000
    ensures var t := MakeDate(DayFromYear(y) + k, time);
      YearFromTime(t) == y && DayWithinYear(t) == k && MonthFromTime(t) == MonthFromDayInYear(k, IsLeap(y))
  {
    hide DayFromYear, MonthFromDayInYear;
    DayOfDate(DayFromYear(y) + k, time);
    DayOfYear(y, k);
  }

  // MakeDay's first of the month is the day the standard asks for: the one whose accessors give that
  // year, that month and date 1.
  lemma FirstOfMonth(year: int, month: int)
    ensures var t := MakeDate(MakeDay(year, month, 1), 0);
      && YearFromTime(t) == year + month / 12
      && MonthFromTime(t) == month % 12
      && DateFromTime(t) == 1
  {
    hide DaysBefore, MonthFromDayInYear, DayFromYear;
    var y := year + month / 12;
    MonthStart(month % 12, IsLeap(y));
    AccessorsOf(y, DaysBefore(month % 12, IsLeap(y)), 0);
    assert MakeDay(year, month, 1) == DayFromYear(y) + DaysBefore(month % 12, IsLeap(y));
  }

  lemma MonthStart(m: int, leap: bool)
    requires 0 <= m < 12
    ensures 0 <= DaysBefore(m, leap) < 365 && MonthFromDayInYear(DaysBefore(m, leap), leap) == m
  {
  }

  lemma DayOfYear(y: int, k: int)
    requires 0 <= k < DaysInYear(y)
    ensures YearFromDay(DayFromYear(y) + k) == y
  {
    YearStep(y);
    YearUnique(DayFromYear(y) + k, y);
  }

  lemma ClockParts(t: int)
    ensures MakeTime(HourFromTime(t), MinFromTime(t), SecFromTime(t), MsFromTime(t)) == TimeWithinDay(t)
  {
    var s, m, h := t / 1000, t / 60000, t / 3600000;
    DivNest(t, 1000, 60);
    DivNest(t, 60000, 60);
    DivNest(t, 3600000, 24);
    assert t == s * 1000 + MsFromTime(t);
    assert s == m * 60 + SecFromTime(t);
    assert m == h * 60 + MinFromTime(t);
    assert h == Day(t) * 24 + HourFromTime(t);
  }

  // Taking an instant apart and putting it together again.
  lemma CivilRoundTrip(t: int)
    ensures MakeDay(YearFromTime(t), MonthFromTime(t), DateFromTime(t)) == Day(t)
    ensures MakeDate(MakeDay(YearFromTime(t), MonthFromTime(t), DateFromTime(t)),
                     MakeTime(HourFromTime(t), MinFromTime(t), SecFromTime(t), MsFromTime(t))) == t
  {
    DayRoundTrip(t);
    ClockParts(t);
    hide MakeDay, MakeTime, YearFromTime, MonthFromTime, DateFromTime, HourFromTime, MinFromTime, SecFromTime;
    hide MsFromTime;
  }

  lemma DayRoundTrip(t: int)
    ensures MakeDay(YearFromTime(t), MonthFromTime(t), DateFromTime(t)) == Day(t)
  {
    hide DayFromYear, DaysBefore, IsLeap, YearFromTime, MonthFromTime;
    var m := MonthFromTime(t);
    assert m / 12 == 0 && m % 12 == m;
  }
}
