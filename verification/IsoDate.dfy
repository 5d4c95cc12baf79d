// `Date.prototype.tojson` and `ISODate` of types.js.
module IsoDate {
  import opened Arithmetic
  import opened Text
  import opened EcmaDate

  // ----- Printing -----

  // The text between the quotes.
  function DateText(t: int): string {
    Padded(IntText(YearFromTime(t)), 4) + "-"
    + Padded(IntText(MonthFromTime(t) + 1), 2) + "-"
    + Padded(IntText(DateFromTime(t)), 2) + "T"
    + Padded(IntText(HourFromTime(t)), 2) + ":"
    + Padded(IntText(MinFromTime(t)), 2) + ":"
    + Padded(IntText(SecFromTime(t)), 2)
    + (if MsFromTime(t) != 0 then "." + Padded(IntText(MsFromTime(t)), 3) else "")
    + "Z"
  }

  function DateToJson(t: int): string {
    "ISODate(\"" + DateText(t) + "\")"
  }

  // ----- The regular expression -----

  type Digits = s: string | AllDigits(s)

  datatype Zone = NoZone | Utc | Offset(ahead: bool, hours: Digits, mins: Option<Digits>)

  datatype Clock =
    | NoClock
    | Clock(hour: Digits, min: Option<Digits>, sec: Option<Digits>, frac: Option<Digits>, zone: Zone)

  datatype Match = Match(year: Digits, month: Digits, date: Digits, clock: Clock)

  predicate DigitsAt(s: string, i: nat, n: nat) {
    i + n <= |s| && AllDigits(s[i..i + n])
  }

  predicate CharAt(s: string, i: nat, c: char) {
    i < |s| && s[i] == c
  }

  function Skip(s: string, i: nat, c: char): nat {
    if CharAt(s, i, c) then i + 1 else i
  }

  function DigitsFrom(s: string, i: nat): (n: nat)
    requires i <= |s|
    ensures i + n <= |s| && AllDigits(s[i..i + n]) && (i + n < |s| ==> !IsDigit(s[i + n]))
    decreases |s| - i
  {
    if i < |s| && IsDigit(s[i]) then
      var n := DigitsFrom(s, i + 1);
      assert s[i..i + 1 + n] == [s[i]] + s[i + 1..i + 1 + n];
      1 + n
    else 0
  }

  // (\d{4})-?(\d{2})-?(\d{2})(clock)? at position i. Every optional part begins with something the
  // part after it cannot begin with, so greedy matching never has to go back.
  function MatchAt(s: string, i: nat): Option<Match> {
    var j := Skip(s, i + 4, '-');
    var k := Skip(s, j + 2, '-');
    if DigitsAt(s, i, 4) && DigitsAt(s, j, 2) && DigitsAt(s, k, 2) then
      Some(Match(s[i..i + 4], s[j..j + 2], s[k..k + 2], MatchClock(s, k + 2)))
    else None
  }

  // [T ](\d{2})(:?(\d{2})(:?(\d{2}(\.\d+)?))?)?(zone)?
  function MatchClock(s: string, i: nat): Clock {
    if (CharAt(s, i, 'T') || CharAt(s, i, ' ')) && DigitsAt(s, i + 1, 2) then
      var hour := s[i + 1..i + 3];
      var j := Skip(s, i + 3, ':');
      if !DigitsAt(s, j, 2) then Clock(hour, None, None, None, MatchZone(s, i + 3))
      else
        var min := Some(s[j..j + 2]);
        var k := Skip(s, j + 2, ':');
        if !DigitsAt(s, k, 2) then Clock(hour, min, None, None, MatchZone(s, j + 2))
        else
          var sec := Some(s[k..k + 2]);
          if CharAt(s, k + 2, '.') && DigitsFrom(s, k + 3) > 0 then
            var e := k + 3 + DigitsFrom(s, k + 3);
            Clock(hour, min, sec, Some(s[k + 3..e]), MatchZone(s, e))
          else Clock(hour, min, sec, None, MatchZone(s, k + 2))
    else NoClock
  }

  // Z|([+-])(\d{2}):?(\d{2})?
  function MatchZone(s: string, i: nat): Zone {
    if CharAt(s, i, 'Z') then Utc
    else if (CharAt(s, i, '+') || CharAt(s, i, '-')) && DigitsAt(s, i + 1, 2) then
      var j := Skip(s, i + 3, ':');
      Offset(s[i] == '+', s[i + 1..i + 3], if DigitsAt(s, j, 2) then Some(s[j..j + 2]) else None)
    else NoZone
  }

  // exec: the leftmost match.
  function Exec(s: string, i: nat): Option<Match>
    requires i <= |s|
    decreases |s| - i
  {
    if MatchAt(s, i).Some? then MatchAt(s, i)
    else if i == |s| then None
    else Exec(s, i + 1)
  }

  // ----- The fields as they stand, nothing carried -----

  function Field(f: Option<Digits>): nat {
    if f.None? then 0 else NatValue(f.value)
  }

  function YearOf(m: Match): nat {
    if NatValue(m.year) == 0 then 1970 else NatValue(m.year)
  }

  function MonthOf(m: Match): int {
    (if NatValue(m.month) == 0 then 1 else NatValue(m.month)) - 1
  }

  function DateOf(m: Match): nat {
    NatValue(m.date)
  }

  function HourOf(m: Match): nat {
    if m.clock.NoClock? then 0 else NatValue(m.clock.hour)
  }

  function MinOf(m: Match): nat {
    if m.clock.NoClock? then 0 else Field(m.clock.min)
  }

  function SecOf(m: Match): nat {
    if m.clock.NoClock? then 0 else Field(m.clock.sec)
  }

  // Math.round(parseFloat("." + digits) * 1000), the decimal fraction taken exactly.
  function RoundedMs(digits: Digits): nat {
    QuotientNotNegative(2000 * NatValue(digits) + Power10(|digits|), 2 * Power10(|digits|));
    (2000 * NatValue(digits) + Power10(|digits|)) / (2 * Power10(|digits|))
  }

  function MsOf(m: Match): nat {
    if m.clock.NoClock? || m.clock.frac.None? then 0 else RoundedMs(m.clock.frac.value)
  }

  // What the zone adds to the time: minus for `+hh:mm`, which is ahead of UTC.
  function ZoneShift(m: Match): int {
    if m.clock.NoClock? || !m.clock.zone.Offset? then 0
    else
      var z := m.clock.zone;
      var ofs := NatValue(z.hours) * 60 * 60 * 1000 + Field(z.mins) * 60 * 1000;
      if z.ahead then 0 - ofs else ofs
  }

  function UtcOf(m: Match): int {
    DateUtc(YearOf(m), MonthOf(m), DateOf(m), HourOf(m), MinOf(m), SecOf(m), MsOf(m))
  }

  function InstantOf(m: Match): int {
    UtcOf(m) + ZoneShift(m)
  }

  // The answer of ISODate: an instant, or "invalid ISO date" thrown.
  datatype IsoResult = Instant(t: int) | Invalid

  // What ISODate must answer: the instant the fields denote, shifted by the zone. The clock is read
  // when no text is given.
  function Meaning(s: string, now: int): IsoResult {
    if s == "" then Instant(now)
    else match Exec(s, 0)
      case None => Invalid
      case Some(m) => Instant(InstantOf(m))
  }

  lemma {:induction false} TwoDigits(s: Digits)
    ensures |s| == 2 ==> NatValue(s) <= 99
    ensures |s| == 4 ==> NatValue(s) <= 9999
  {
    NatValueBelow(s);
    assert Power10(1) == 10 && Power10(2) == 100 && Power10(3) == 1000 && Power10(4) == 10000;
  }

  ghost predicate Sized(m: Match) {
    && |m.year| == 4 && |m.month| == 2 && |m.date| == 2
    && (m.clock.Clock? ==>
        && |m.clock.hour| == 2
        && (m.clock.min.Some? ==> |m.clock.min.value| == 2)
        && (m.clock.sec.Some? ==> |m.clock.sec.value| == 2)
        && (m.clock.zone.Offset? ==>
            && |m.clock.zone.hours| == 2
            && (m.clock.zone.mins.Some? ==> |m.clock.zone.mins.value| == 2)))
  }

  lemma MatchSized(s: string, i: nat)
    requires MatchAt(s, i).Some?
    ensures Sized(MatchAt(s, i).value)
  {
  }

  lemma {:induction false} ExecSized(s: string, i: nat)
    requires i <= |s| && Exec(s, i).Some?
    ensures Sized(Exec(s, i).value)
    decreases |s| - i
  {
    if MatchAt(s, i).Some? {
      MatchSized(s, i);
    } else {
      ExecSized(s, i + 1);
    }
  }

  // The nearest whole millisecond to the fraction, the higher one if it lies halfway; thousandths exactly.
  lemma RoundedMsNearest(digits: Digits)
    ensures var p, ms := Power10(|digits|), RoundedMs(digits);
      (2 * ms - 1) * p <= 2000 * NatValue(digits) < (2 * ms + 1) * p
    ensures |digits| == 3 ==> RoundedMs(digits) == NatValue(digits)
  {
    assert |digits| == 3 ==> Power10(|digits|) == 1000;
    var a, p, ms := 2000 * NatValue(digits) + Power10(|digits|), Power10(|digits|), RoundedMs(digits);
    hide NatValue, Power10;
    Division(a, 2 * p);
    assert a / (2 * p) == ms;
    Halves(ms, p);
  }

  lemma Division(a: nat, d: nat)
    requires d > 0
    ensures d * (a / d) <= a < d * (a / d) + d
  {
    assert a == d * (a / d) + a % d;
  }

  lemma Halves(ms: int, p: int)
    ensures 2 * p * ms == (2 * ms - 1) * p + p == (2 * ms + 1) * p - p
  {
    assert (2 * ms - 1) * p == 2 * ms * p - p;
    assert (2 * ms + 1) * p == 2 * ms * p + p;
    assert 2 * p * ms == 2 * ms * p;
  }

  lemma RoundedMsBound(digits: Digits)
    ensures RoundedMs(digits) <= 1000
  {
    var n, p := NatValue(digits), Power10(|digits|);
    NatValueBelow(digits);
    hide NatValue, Power10;
    if RoundedMs(digits) >= 1001 {
      MulOrder(2 * p, 1001, RoundedMs(digits));
    }
  }

  lemma FieldBounds(m: Match)
    requires Sized(m)
    ensures 1 <= YearOf(m) <= 9999 && 0 <= MonthOf(m) <= 98 && DateOf(m) <= 99
    ensures HourOf(m) <= 99 && MinOf(m) <= 99 && SecOf(m) <= 99 && MsOf(m) <= 1000
    ensures -363000000 <= ZoneShift(m) <= 363000000
  {
    TwoDigits(m.year);
    TwoDigits(m.month);
    TwoDigits(m.date);
    if m.clock.Clock? {
      TwoDigits(m.clock.hour);
      if m.clock.min.Some? { TwoDigits(m.clock.min.value); }
      if m.clock.sec.Some? { TwoDigits(m.clock.sec.value); }
      if m.clock.frac.Some? { RoundedMsBound(m.clock.frac.value); }
      if m.clock.zone.Offset? {
        TwoDigits(m.clock.zone.hours);
        if m.clock.zone.mins.Some? { TwoDigits(m.clock.zone.mins.value); }
      }
    }
  }

  // Date.UTC is never asked for a time out of range, so nothing ISODate answers is NaN: the day lies
  // between the one before the year 100 and the early part of the year 10008.
  ghost predicate UtcRange(t: int) {
    -683004 * 86400000 <= t < 2935929 * 86400000
  }

  lemma UtcInRange(year: int, month: int, date: int, hour: int, min: int, sec: int, ms: int)
    requires 1 <= year <= 9999 && 0 <= month <= 98 && 0 <= date <= 99
    requires 0 <= hour <= 100 && 0 <= min <= 100 && 0 <= sec <= 100 && 0 <= ms <= 1000
    ensures UtcRange(DateUtc(year, month, date, hour, min, sec, ms))
  {
    var y := FullYear(year) + month / 12;
    YearInRange(y);
    DayRange(DayFromYear(y), DaysBefore(month % 12, IsLeap(y)), date, MakeTime(hour, min, sec, ms));
  }

  lemma YearInRange(y: int)
    requires 100 <= y <= 10007
    ensures -683003 <= DayFromYear(y) <= 2935819 - 365
  {
    YearsIncrease(100, y);
    YearsIncrease(y, 10007);
  }

  lemma DayRange(first: int, before: int, date: int, time: int)
    requires -683003 <= first <= 2935819 - 365
    requires 0 <= before <= 335 && 0 <= date <= 99 && 0 <= time <= 4 * 86400000 + 24000000
    ensures UtcRange(MakeDate(first + before + date - 1, time))
  {
  }

  // ISODate: the fields are carried upwards one at a time, a day is added for hour 24 by re-reading
  // the calendar, and the zone is applied last. None of it moves the instant.
  method IsoDate(isoDateStr: string, now: int) returns (r: IsoResult)
    ensures r == Meaning(isoDateStr, now)
    ensures r.Instant? && isoDateStr != "" ==> IsTime(r.t)
  {
    if isoDateStr == "" {
      return Instant(now);
    }
    var res := Exec(isoDateStr, 0);
    if res.None? {
      return Invalid;
    }
    ExecSized(isoDateStr, 0);
    var t := FieldsInstant(res.value);
    return Instant(t);
  }

  method FieldsInstant(m: Match) returns (t: int)
    requires Sized(m)
    ensures t == InstantOf(m) && IsTime(t)
  {
    FieldBounds(m);
    hide DateUtc, MakeTime, Sized, InstantOf, ZoneShift, YearOf, MonthOf, DateOf, HourOf, MinOf, SecOf, MsOf;
    var hour, min, sec, ms := CarryClock(HourOf(m), MinOf(m), SecOf(m), MsOf(m));
    var time := CarryDay(YearOf(m), MonthOf(m), DateOf(m), hour, min, sec, ms);
    SameTime(m, hour, min, sec, ms);
    var ofs := ZoneOffset(m);
    t := time + ofs;
  }

  method ZoneOffset(m: Match) returns (ofs: int)
    ensures ofs == ZoneShift(m)
  {
    ofs := 0;
    if m.clock.Clock? && m.clock.zone.Offset? {
      ofs := ofs + NatValue(m.clock.zone.hours) * 60 * 60 * 1000;
      ofs := ofs + Field(m.clock.zone.mins) * 60 * 1000;
      if m.clock.zone.ahead {
        ofs := ofs * -1;
      }
    }
  }

  lemma SameTime(m: Match, hour: int, min: int, sec: int, ms: int)
    requires Sized(m) && MakeTime(hour, min, sec, ms) == MakeTime(HourOf(m), MinOf(m), SecOf(m), MsOf(m))
    ensures DateUtc(YearOf(m), MonthOf(m), DateOf(m), hour, min, sec, ms) + ZoneShift(m) == InstantOf(m)
    ensures IsTime(InstantOf(m))
  {
    MatchRange(m);
  }

  // Anything ISODate makes of a match lies between the years 99 and 10009.
  lemma MatchRange(m: Match)
    requires Sized(m)
    ensures -683009 * 86400000 <= InstantOf(m) < 2935934 * 86400000
  {
    hide DateUtc;
    FieldBounds(m);
    UtcInRange(YearOf(m), MonthOf(m), DateOf(m), HourOf(m), MinOf(m), SecOf(m), MsOf(m));
  }

  // The carry chain as far as the hours.
  method CarryClock(hour: int, min: int, sec: int, ms: int) returns (h: int, mi: int, s: int, milli: int)
    requires 0 <= hour <= 99 && 0 <= min <= 99 && 0 <= sec <= 99 && 0 <= ms <= 1000
    ensures MakeTime(h, mi, s, milli) == MakeTime(hour, min, sec, ms)
    ensures 0 <= h <= 100 && 0 <= mi <= 100 && 0 <= s <= 100 && 0 <= milli < 1000
  {
    h, mi, s, milli := hour, min, sec, ms;
    if milli == 1000 {
      milli := 0;
      s := s + 1;
    }
    if s == 60 {
      s := 0;
      mi := mi + 1;
    }
    if mi == 60 {
      mi := 0;
      h := h + 1;
    }
  }

  // Date.UTC of the calendar day tempTime falls on, at hour 0.
  function AtMidnight(tempTime: int, min: int, sec: int, ms: int): int {
    DateUtc(YearFromTime(tempTime), MonthFromTime(tempTime), DateFromTime(tempTime), 0, min, sec, ms)
  }

  // And on into the calendar, up to the final Date.UTC.
  method CarryDay(year: int, month: int, date: int, hour: int, min: int, sec: int, ms: int) returns (time: int)
    requires 1 <= year <= 9999 && 0 <= month <= 98 && 0 <= date <= 99
    requires 0 <= hour <= 100 && 0 <= min <= 100 && 0 <= sec <= 100 && 0 <= ms <= 1000
    ensures time == DateUtc(year, month, date, hour, min, sec, ms)
  {
    if hour == 24 {
      time := AtMidnight(DateUtc(year, month, date, 0, min, sec, ms) + 24 * 60 * 60 * 1000, min, sec, ms);
      NextDay(year, month, date, min, sec, ms);
    } else {
      time := DateUtc(year, month, date, hour, min, sec, ms);
    }
  }

  // Re-reading the calendar a day later is hour 24.
  lemma NextDay(year: int, month: int, date: int, min: int, sec: int, ms: int)
    requires 1 <= year <= 9999 && 0 <= month <= 98 && 0 <= date <= 99
    requires 0 <= min <= 100 && 0 <= sec <= 100 && 0 <= ms <= 1000
    ensures AtMidnight(DateUtc(year, month, date, 0, min, sec, ms) + 24 * 60 * 60 * 1000, min, sec, ms)
         == DateUtc(year, month, date, 24, min, sec, ms)
  {
    var t := DateUtc(year, month, date, 0, min, sec, ms) + 86400000;
    var y := FullYear(year);
    var d := MakeDay(y, month, date);
    assert t == MakeDate(d + 1, MakeTime(0, min, sec, ms));
    DayOfDate(d + 1, MakeTime(0, min, sec, ms));
    DayNotBefore(y, month, date);
    RereadDay(t);
  }

  lemma DayNotBefore(y: int, month: int, date: int)
    requires y >= 100 && 0 <= month && 0 <= date
    ensures MakeDay(y, month, date) + 1 >= DayFromYear(100)
  {
    YearsIncrease(100, y + month / 12);
  }

  // From the year 100 on, the accessors give Date.UTC back the day they were read from.
  lemma RereadDay(t: int)
    requires Day(t) >= DayFromYear(100)
    ensures YearFromTime(t) >= 100
    ensures MakeDay(FullYear(YearFromTime(t)), MonthFromTime(t), DateFromTime(t)) == Day(t)
  {
    CivilRoundTrip(t);
    if YearFromTime(t) < 100 {
      YearsIncrease(YearFromTime(t) + 1, 100);
    }
  }
}
