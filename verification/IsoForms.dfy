// Every way ISODate lets a date be written, and what it then means, said of the text alone.
module IsoForms {
  import opened Text
  import opened EcmaDate
  import opened IsoDate
  import opened IsoRoundTrip

  // Nothing, Z, or a sign, two digits of hours, and two of minutes if any, with or without a colon.
  datatype ZoneForm = Nowhere | Zulu | Offset(sign: char, hh: string, colon: bool, mm: string)

  // What follows the minutes and the hours.
  datatype SecondForm = NoSeconds | Seconds(colon: bool, ss: string, fraction: string)
  datatype MinuteForm = NoMinutes | Minutes(colon: bool, mm: string, rest: SecondForm)

  datatype TimeForm = NoTime | Time(between: char, hh: string, rest: MinuteForm, zone: ZoneForm)

  datatype DateForm = DateForm(year: string, dash: bool, month: string, dash': bool, day: string, time: TimeForm)

  predicate Two(s: string) {
    |s| == 2 && AllDigits(s)
  }

  predicate ZoneOk(z: ZoneForm) {
    z.Offset? ==> (z.sign == '+' || z.sign == '-') && Two(z.hh) && (Two(z.mm) || (z.mm == "" && !z.colon))
  }

  predicate SecondsOk(f: SecondForm) {
    f.Seconds? ==> Two(f.ss) && AllDigits(f.fraction)
  }

  predicate MinutesOk(f: MinuteForm) {
    f.Minutes? ==> Two(f.mm) && SecondsOk(f.rest)
  }

  predicate Ok(f: DateForm) {
    && |f.year| == 4 && AllDigits(f.year) && Two(f.month) && Two(f.day)
    && (f.time.Time? ==> f.time.between == 'T' || f.time.between == ' ')
    && (f.time.Time? ==> Two(f.time.hh) && MinutesOk(f.time.rest) && ZoneOk(f.time.zone))
  }

  // ----- The texts -----

  function If(b: bool, s: string): string {
    if b then s else ""
  }

  function ZoneText(z: ZoneForm): string {
    match z
    case Nowhere => ""
    case Zulu => "Z"
    case Offset(sign, hh, colon, mm) => [sign] + (hh + (If(colon, ":") + mm))
  }

  function SecondText(f: SecondForm): string {
    if f.NoSeconds? then "" else If(f.colon, ":") + (f.ss + If(f.fraction != "", "." + f.fraction))
  }

  function TimeText(f: TimeForm): string {
    if f.NoTime? then ""
    else [f.between] + (f.hh + MinuteText(f.rest, ZoneText(f.zone)))
  }

  function MinuteText(f: MinuteForm, zone: string): string {
    if f.NoMinutes? then zone else If(f.colon, ":") + (f.mm + (SecondText(f.rest) + zone))
  }

  function DateFormText(f: DateForm): string {
    f.year + (If(f.dash, "-") + (f.month + (If(f.dash', "-") + (f.day + TimeText(f.time)))))
  }

  // ----- Matching what follows a prefix is matching it alone -----

  lemma ShiftDigits(p: string, z: string, i: nat, n: nat)
    ensures DigitsAt(p + z, |p| + i, n) <==> DigitsAt(z, i, n)
    ensures i + n <= |z| ==> (p + z)[|p| + i..|p| + i + n] == z[i..i + n]
  {
    if i + n <= |z| {
      assert (p + z)[|p| + i..|p| + i + n] == z[i..i + n];
    }
  }

  lemma ShiftChar(p: string, z: string, i: nat, c: char)
    ensures CharAt(p + z, |p| + i, c) <==> CharAt(z, i, c)
    ensures Skip(p + z, |p| + i, c) == |p| + Skip(z, i, c)
  {
  }

  lemma {:induction false} ShiftRun(p: string, z: string, i: nat)
    requires i <= |z|
    ensures DigitsFrom(p + z, |p| + i) == DigitsFrom(z, i)
    decreases |z| - i
  {
    if i < |z| {
      assert (p + z)[|p| + i] == z[i];
      ShiftRun(p, z, i + 1);
    }
  }

  predicate OffsetAt(s: string, i: nat) {
    !CharAt(s, i, 'Z') && (CharAt(s, i, '+') || CharAt(s, i, '-')) && DigitsAt(s, i + 1, 2)
  }

  function TwoAt(s: string, i: nat): Option<Digits> {
    if DigitsAt(s, i, 2) then Some(s[i..i + 2]) else None
  }

  lemma ZoneOrNone(s: string, i: nat)
    ensures CharAt(s, i, 'Z') ==> MatchZone(s, i) == Utc
    ensures OffsetAt(s, i) ==>
              && i < |s| && TwoAt(s, i + 1).Some?
              && MatchZone(s, i) == Zone.Offset(s[i] == '+', TwoAt(s, i + 1).value, TwoAt(s, Skip(s, i + 3, ':')))
    ensures !CharAt(s, i, 'Z') && !OffsetAt(s, i) ==> MatchZone(s, i) == NoZone
  {
  }

  lemma ShiftOffset(p: string, z: string, i: nat)
    ensures CharAt(p + z, |p| + i, 'Z') <==> CharAt(z, i, 'Z')
    ensures OffsetAt(p + z, |p| + i) <==> OffsetAt(z, i)
    ensures i < |z| ==> (p + z)[|p| + i] == z[i]
  {
    ShiftChar(p, z, i, 'Z');
    ShiftChar(p, z, i, '+');
    ShiftChar(p, z, i, '-');
    ShiftTwo(p, z, i + 1);
    hide CharAt, DigitsAt;
  }

  lemma ShiftZone(p: string, z: string, i: nat)
    ensures MatchZone(p + z, |p| + i) == MatchZone(z, i)
  {
    hide *;
    ShiftOffset(p, z, i);
    ShiftTwo(p, z, i + 1);
    ShiftChar(p, z, i + 3, ':');
    ShiftTwo(p, z, Skip(z, i + 3, ':'));
    ZoneOrNone(z, i);
    ZoneOrNone(p + z, |p| + i);
  }

  lemma ShiftTwo(p: string, z: string, i: nat)
    ensures DigitsAt(p + z, |p| + i, 2) <==> DigitsAt(z, i, 2)
    ensures TwoAt(p + z, |p| + i) == TwoAt(z, i)
  {
    ShiftDigits(p, z, i, 2);
  }

  // ----- What the expression makes of each part -----

  function ZoneOf(z: ZoneForm): Zone
    requires ZoneOk(z)
  {
    match z
    case Nowhere => NoZone
    case Zulu => Utc
    case Offset(sign, hh, colon, mm) => Zone.Offset(sign == '+', hh, if mm == "" then None else Some(mm))
  }

  // The first character after what was matched; a zone never looks like more of a time.
  predicate Ends(s: string) {
    s == "" || !(IsDigit(s[0]) || s[0] == ':' || s[0] == '.')
  }

  lemma ZoneParses(z: ZoneForm)
    requires ZoneOk(z)
    ensures MatchZone(ZoneText(z), 0) == ZoneOf(z) && Ends(ZoneText(z))
  {
    if z.Offset? {
      OffsetPlaces(z);
      hide Skip, DigitsAt, Ends, AllDigits;
    }
  }

  lemma OffsetPlaces(z: ZoneForm)
    requires ZoneOk(z) && z.Offset?
    ensures var t := ZoneText(z);
      var j := Skip(t, 3, ':');
      && t[0] == z.sign && Ends(t) && DigitsAt(t, 1, 2) && t[1..3] == z.hh
      && TwoAt(t, j) == if z.mm == "" then None else Some(z.mm)
  {
    var p, tail := [z.sign] + z.hh, If(z.colon, ":") + z.mm;
    Regroup([z.sign], z.hh, tail);
    assert (p + tail)[0] == z.sign && (p + tail)[1..3] == z.hh;
    MinutesPlace(z, tail);
    hide Skip, AllDigits;
    ShiftChar(p, tail, 0, ':');
    ShiftTwo(p, tail, Skip(tail, 0, ':'));
  }

  lemma MinutesPlace(z: ZoneForm, tail: string)
    requires ZoneOk(z) && z.Offset? && tail == If(z.colon, ":") + z.mm
    ensures TwoAt(tail, Skip(tail, 0, ':')) == if z.mm == "" then None else Some(z.mm)
  {
    TwoAfter(z.colon, z.mm, "");
    assert If(z.colon, ":") + (z.mm + "") == tail;
  }

  // A colon or none, and two digits or nothing more.
  lemma TwoAfter(colon: bool, dd: string, rest: string)
    requires Two(dd) || (dd == "" && !colon && Ends(rest))
    ensures var t := If(colon, ":") + (dd + rest);
      var k := Skip(t, 0, ':');
      && (DigitsAt(t, k, 2) <==> dd != "") && (dd == "" ==> k == 0 && t == rest)
      && (dd != "" ==> k == |If(colon, ":")| && k + 2 <= |t| && t[k..k + 2] == dd)
  {
    var t := If(colon, ":") + (dd + rest);
    if dd == "" {
      assert t == rest;
      if |t| >= 2 {
        assert t[0..2][0] == t[0];
      }
    } else if colon {
      assert t[0] == ':' && t[1..3] == dd;
    } else {
      assert t[0] == dd[0] && IsDigit(dd[0]) && t[0..2] == dd;
    }
  }

  lemma {:induction false} RunOf(p: string, digits: string, rest: string)
    requires AllDigits(digits) && (rest == "" || !IsDigit(rest[0]))
    ensures DigitsFrom(p + (digits + rest), |p|) == |digits|
    decreases |digits|
  {
    var t := p + (digits + rest);
    if digits == "" {
      assert digits + rest == rest;
      assert rest != "" ==> t[|p|] == rest[0];
    } else {
      assert t[|p|] == digits[0] && IsDigit(digits[0]);
      assert t == (p + [digits[0]]) + (digits[1..] + rest);
      RunOf(p + [digits[0]], digits[1..], rest);
    }
  }

  // What the expression finds after a hour that ends at |p|, in a text that goes on with tail.
  function AfterHour(t: string, hh: Digits, i: nat): Clock {
    var j := Skip(t, i, ':');
    if !DigitsAt(t, j, 2) then Clock(hh, None, None, None, MatchZone(t, i))
    else AfterMinute(t, hh, t[j..j + 2], j + 2)
  }

  function AfterMinute(t: string, hh: Digits, mm: Digits, j: nat): Clock {
    var k := Skip(t, j, ':');
    if !DigitsAt(t, k, 2) then Clock(hh, Some(mm), None, None, MatchZone(t, j))
    else AfterSecond(t, hh, mm, t[k..k + 2], k + 2)
  }

  function AfterSecond(t: string, hh: Digits, mm: Digits, ss: Digits, k: nat): Clock {
    if CharAt(t, k, '.') && DigitsFrom(t, k + 1) > 0 then
      var e := k + 1 + DigitsFrom(t, k + 1);
      Clock(hh, Some(mm), Some(ss), Some(t[k + 1..e]), MatchZone(t, e))
    else Clock(hh, Some(mm), Some(ss), None, MatchZone(t, k))
  }

  lemma ClockBySteps(t: string, i: nat)
    requires (CharAt(t, i, 'T') || CharAt(t, i, ' ')) && DigitsAt(t, i + 1, 2)
    ensures MatchClock(t, i) == AfterHour(t, t[i + 1..i + 3], i + 3)
  {
  }

  lemma ShiftSecond(p: string, z: string, hh: Digits, mm: Digits, ss: Digits, i: nat)
    requires i <= |z|
    ensures AfterSecond(p + z, hh, mm, ss, |p| + i) == AfterSecond(z, hh, mm, ss, i)
  {
    hide MatchZone;
    ShiftChar(p, z, i, '.');
    ShiftZone(p, z, i);
    if CharAt(z, i, '.') {
      ShiftRun(p, z, i + 1);
      var e := i + 1 + DigitsFrom(z, i + 1);
      ShiftZone(p, z, e);
      assert (p + z)[|p| + (i + 1)..|p| + e] == z[i + 1..e];
    }
  }

  lemma ShiftMinute(p: string, z: string, hh: Digits, mm: Digits, i: nat)
    requires i <= |z|
    ensures AfterMinute(p + z, hh, mm, |p| + i) == AfterMinute(z, hh, mm, i)
  {
    hide MatchZone, AfterSecond;
    ShiftChar(p, z, i, ':');
    var k := Skip(z, i, ':');
    ShiftDigits(p, z, k, 2);
    ShiftZone(p, z, i);
    if DigitsAt(z, k, 2) {
      ShiftSecond(p, z, hh, mm, z[k..k + 2], k + 2);
    }
  }

  lemma ShiftHour(p: string, z: string, hh: Digits, i: nat)
    requires i <= |z|
    ensures AfterHour(p + z, hh, |p| + i) == AfterHour(z, hh, i)
  {
    hide MatchZone, AfterMinute;
    ShiftChar(p, z, i, ':');
    var k := Skip(z, i, ':');
    ShiftDigits(p, z, k, 2);
    ShiftZone(p, z, i);
    if DigitsAt(z, k, 2) {
      ShiftMinute(p, z, hh, z[k..k + 2], k + 2);
    }
  }

  function FractionOf(fraction: Digits): Option<Digits> {
    if fraction == "" then None else Some(fraction)
  }

  lemma SecondParses(hh: Digits, mm: Digits, ss: Digits, fraction: Digits, zone: string)
    requires Ends(zone)
    ensures AfterSecond(If(fraction != "", "." + fraction) + zone, hh, mm, ss, 0)
      == Clock(hh, Some(mm), Some(ss), FractionOf(fraction), MatchZone(zone, 0))
  {
    hide MatchZone;
    if fraction == "" {
      assert "" + zone == zone;
    } else {
      var q := "." + fraction;
      RunOf(".", fraction, zone);
      Regroup(".", fraction, zone);
      ShiftZone(q, zone, 0);
      assert (q + zone)[1..|q|] == fraction;
    }
  }

  lemma MinuteParses(hh: Digits, mm: Digits, f: SecondForm, zone: string)
    requires SecondsOk(f) && Ends(zone)
    ensures AfterMinute(SecondText(f) + zone, hh, mm, 0)
      == match f
         case NoSeconds => Clock(hh, Some(mm), None, None, MatchZone(zone, 0))
         case Seconds(_, ss, fraction) => Clock(hh, Some(mm), Some(ss), FractionOf(fraction), MatchZone(zone, 0))
  {
    if f.NoSeconds? {
      NoSecondsParse(hh, mm, zone);
    } else {
      SecondRegroup(f, zone);
      SomeSecondsParse(hh, mm, f.colon, f.ss, If(f.fraction != "", "." + f.fraction) + zone);
      SecondParses(hh, mm, f.ss, f.fraction, zone);
    }
    hide *;
  }

  lemma NoSecondsParse(hh: Digits, mm: Digits, zone: string)
    requires Ends(zone)
    ensures AfterMinute(SecondText(NoSeconds) + zone, hh, mm, 0) == Clock(hh, Some(mm), None, None, MatchZone(zone, 0))
  {
    hide MatchZone, AfterSecond, DigitsAt;
    TwoAfter(false, "", zone);
    assert "" + zone == zone;
    assert If(false, ":") + ("" + zone) == zone;
  }

  lemma SomeSecondsParse(hh: Digits, mm: Digits, colon: bool, ss: string, rest: string)
    requires Two(ss)
    ensures AfterMinute(If(colon, ":") + (ss + rest), hh, mm, 0) == AfterSecond(rest, hh, mm, ss, 0)
  {
    hide MatchZone, AfterSecond, DigitsAt;
    var q := If(colon, ":") + ss;
    Regroup(If(colon, ":"), ss, rest);
    TwoAfter(colon, ss, rest);
    ShiftSecond(q, rest, hh, mm, ss, 0);
  }

  lemma SecondRegroup(f: SecondForm, zone: string)
    requires f.Seconds?
    ensures var c, r := If(f.colon, ":"), If(f.fraction != "", "." + f.fraction);
      SecondText(f) + zone == c + (f.ss + (r + zone)) == (c + f.ss) + (r + zone)
  {
    var c, r := If(f.colon, ":"), If(f.fraction != "", "." + f.fraction);
    Regroup(c, f.ss + r, zone);
    Regroup(f.ss, r, zone);
    Regroup(c, f.ss, r + zone);
  }

  lemma HourParses(hh: Digits, f: MinuteForm, zone: string)
    requires MinutesOk(f) && Ends(zone)
    ensures AfterHour(MinuteText(f, zone), hh, 0)
      == match f
         case NoMinutes => Clock(hh, None, None, None, MatchZone(zone, 0))
         case Minutes(_, mm, rest) => AfterMinute(SecondText(rest) + zone, hh, mm, 0)
  {
    hide MatchZone, AfterMinute, SecondText, SecondsOk, DigitsAt;
    if f.NoMinutes? {
      assert If(false, ":") + ("" + zone) == zone;
      TwoAfter(false, "", zone);
    } else {
      var q, rest := If(f.colon, ":") + f.mm, SecondText(f.rest) + zone;
      Regroup(If(f.colon, ":"), f.mm, rest);
      TwoAfter(f.colon, f.mm, rest);
      ShiftMinute(q, rest, hh, f.mm, 0);
    }
  }

  function ClockOf(f: TimeForm): Clock
    requires f.Time? ==> Two(f.hh) && MinutesOk(f.rest) && ZoneOk(f.zone)
  {
    if f.NoTime? then NoClock
    else
      var zone := ZoneOf(f.zone);
      match f.rest
      case NoMinutes => Clock(f.hh, None, None, None, zone)
      case Minutes(_, mm, NoSeconds) => Clock(f.hh, Some(mm), None, None, zone)
      case Minutes(_, mm, Seconds(_, ss, fraction)) => Clock(f.hh, Some(mm), Some(ss), FractionOf(fraction), zone)
  }

  predicate ClockAt(t: string, i: nat) {
    (CharAt(t, i, 'T') || CharAt(t, i, ' ')) && DigitsAt(t, i + 1, 2)
  }

  lemma ClockOrNone(t: string, i: nat)
    ensures ClockAt(t, i) ==> i + 3 <= |t| && MatchClock(t, i) == AfterHour(t, t[i + 1..i + 3], i + 3)
    ensures !ClockAt(t, i) ==> MatchClock(t, i) == NoClock
  {
    if ClockAt(t, i) {
      ClockBySteps(t, i);
    }
  }

  lemma ShiftClockAt(p: string, z: string, i: nat)
    ensures ClockAt(p + z, |p| + i) <==> ClockAt(z, i)
    ensures ClockAt(z, i) ==>
              && i + 3 <= |z| && AllDigits(z[i + 1..i + 3])
              && (p + z)[|p| + i + 1..|p| + i + 3] == z[i + 1..i + 3]
  {
    ShiftChar(p, z, i, 'T');
    ShiftChar(p, z, i, ' ');
    ShiftDigits(p, z, i + 1, 2);
  }

  lemma ShiftClock(p: string, z: string, i: nat)
    requires i <= |z|
    ensures MatchClock(p + z, |p| + i) == MatchClock(z, i)
  {
    hide *;
    ShiftClockAt(p, z, i);
    ClockOrNone(z, i);
    ClockOrNone(p + z, |p| + i);
    if ClockAt(z, i) {
      ShiftHour(p, z, z[i + 1..i + 3], i + 3);
    }
  }

  lemma TimeParses(f: TimeForm)
    requires f.Time? ==> (f.between == 'T' || f.between == ' ') && Two(f.hh) && MinutesOk(f.rest) && ZoneOk(f.zone)
    ensures MatchClock(TimeText(f), 0) == ClockOf(f)
  {
    hide MatchZone, ZoneText, MinuteText, AfterMinute, SecondText;
    if f.Time? {
      var zone := ZoneText(f.zone);
      var p, rest := [f.between] + f.hh, MinuteText(f.rest, zone);
      Regroup([f.between], f.hh, rest);
      assert p[1..3] == f.hh && (p + rest)[1..3] == p[1..3];
      ClockBySteps(p + rest, 0);
      hide MatchClock, AfterHour;
      ShiftHour(p, rest, f.hh, 0);
      ZoneParses(f.zone);
      HourParses(f.hh, f.rest, zone);
      if f.rest.Minutes? {
        MinuteParses(f.hh, f.rest.mm, f.rest.rest, zone);
      }
    }
  }

  // A dash or none, and two digits.
  lemma TwoAfterDash(p: string, dash: bool, dd: string, rest: string)
    requires Two(dd)
    ensures var t := p + (If(dash, "-") + (dd + rest));
      var q := p + If(dash, "-");
      && Skip(t, |p|, '-') == |q| && DigitsAt(t, |q|, 2) && t[|q|..|q| + 2] == dd && t == (q + dd) + rest
  {
    var t, q := p + (If(dash, "-") + (dd + rest)), p + If(dash, "-");
    assert dd[0] != '-' by {
      assert IsDigit(dd[0]);
    }
    Regroup(p, If(dash, "-"), dd + rest);
    Regroup(q, dd, rest);
    assert t[|q|..|q| + 2] == dd;
    if dash {
      assert t[|p|] == '-';
    } else {
      assert t[|p|] == dd[0];
    }
  }

  lemma FormMatches(f: DateForm)
    requires Ok(f)
    ensures MatchAt(DateFormText(f), 0) == Some(Match(f.year, f.month, f.day, ClockOf(f.time)))
  {
    TimeParses(f.time);
    FormPlaces(f);
    hide MatchClock, TimeText, ClockOf, DigitsAt, DateFormText, Skip;
  }

  lemma FormPlaces(f: DateForm)
    requires Ok(f)
    ensures var t := DateFormText(f);
      var j := Skip(t, 4, '-');
      var k := Skip(t, j + 2, '-');
      && DigitsAt(t, 0, 4) && t[0..4] == f.year && DigitsAt(t, j, 2) && t[j..j + 2] == f.month
      && DigitsAt(t, k, 2) && t[k..k + 2] == f.day && MatchClock(t, k + 2) == MatchClock(TimeText(f.time), 0)
  {
    hide MatchClock, TimeText, DigitsAt, Skip;
    var t, time := DateFormText(f), TimeText(f.time);
    var afterMonth := If(f.dash', "-") + (f.day + time);
    TwoAfterDash(f.year, f.dash, f.month, afterMonth);
    var p := (f.year + If(f.dash, "-")) + f.month;
    TwoAfterDash(p, f.dash', f.day, time);
    var q := (p + If(f.dash', "-")) + f.day;
    ShiftClock(q, time, 0);
    YearFirst(f.year, If(f.dash, "-") + (f.month + afterMonth));
  }

  lemma YearFirst(year: string, rest: string)
    requires |year| == 4 && AllDigits(year)
    ensures DigitsAt(year + rest, 0, 4) && (year + rest)[0..4] == year
  {
    assert (year + rest)[0..4] == year;
  }

  // ----- The instant -----

  // The minutes by which the clock of a zone is ahead of UTC.
  function Ahead(z: ZoneForm): int
    requires ZoneOk(z)
  {
    match z
    case Nowhere => 0
    case Zulu => 0
    case Offset(sign, hh, _, mm) =>
      var minutes := 60 * NatValue(hh) + NatValue(mm);
      if sign == '+' then minutes else -minutes
  }

  function Hours(f: TimeForm): nat
    requires f.Time? ==> Two(f.hh)
  {
    if f.Time? then NatValue(f.hh) else 0
  }

  function MinutesIn(f: TimeForm): nat
    requires f.Time? ==> MinutesOk(f.rest)
  {
    if f.Time? && f.rest.Minutes? then NatValue(f.rest.mm) else 0
  }

  function SecondsIn(f: TimeForm): nat
    requires f.Time? ==> MinutesOk(f.rest)
  {
    if f.Time? && f.rest.Minutes? && f.rest.rest.Seconds? then NatValue(f.rest.rest.ss) else 0
  }

  // Thousandths of a second, rounded.
  function Thousandths(f: TimeForm): nat
    requires f.Time? ==> MinutesOk(f.rest)
  {
    if f.Time? && f.rest.Minutes? && f.rest.rest.Seconds? && f.rest.rest.fraction != "" then
      RoundedMs(f.rest.rest.fraction)
    else 0
  }

  // A year or month of zeros counts as missing.
  function WrittenYear(year: Digits): nat {
    if year == "0000" then 1970 else NatValue(year)
  }

  function WrittenMonth(month: Digits): nat {
    if month == "00" then 1 else NatValue(month)
  }

  // The date and time as written, were they written in UTC.
  function Written(f: DateForm): int
    requires Ok(f)
  {
    DateUtc(WrittenYear(f.year), WrittenMonth(f.month) - 1, NatValue(f.day), Hours(f.time), MinutesIn(f.time),
            SecondsIn(f.time), Thousandths(f.time))
  }

  lemma DateWritten(f: DateForm)
    requires Ok(f)
    ensures var m := Match(f.year, f.month, f.day, ClockOf(f.time));
      && YearOf(m) == WrittenYear(f.year) && MonthOf(m) == WrittenMonth(f.month) - 1
      && DateOf(m) == NatValue(f.day)
  {
    ZeroText(f.year);
    ZeroText(f.month);
    hide NatValue, ClockOf;
  }

  lemma TimeWritten(m: Match, f: TimeForm)
    requires f.Time? ==> Two(f.hh) && MinutesOk(f.rest) && ZoneOk(f.zone)
    requires m.clock == ClockOf(f)
    ensures HourOf(m) == Hours(f) && MinOf(m) == MinutesIn(f) && SecOf(m) == SecondsIn(f) && MsOf(m) == Thousandths(f)
  {
    hide NatValue, RoundedMs, ZoneOf;
  }

  lemma ZoneWritten(m: Match, f: TimeForm)
    requires f.Time? ==> Two(f.hh) && MinutesOk(f.rest) && ZoneOk(f.zone)
    requires m.clock == ClockOf(f)
    ensures ZoneShift(m) == if f.Time? then 0 - Ahead(f.zone) * 60000 else 0
  {
    assert NatValue("") == 0;
    hide NatValue, RoundedMs;
    if f.Time? {
      assert m.clock.zone == ZoneOf(f.zone);
      hide ClockOf;
    }
  }

  lemma AllWritten(f: DateForm, m: Match)
    requires Ok(f) && m == Match(f.year, f.month, f.day, ClockOf(f.time))
    ensures UtcOf(m) == Written(f)
  {
    DateWritten(f);
    TimeWritten(m, f.time);
    SameUtc(f, m);
    hide *;
  }

  lemma SameUtc(f: DateForm, m: Match)
    requires Ok(f) && YearOf(m) == WrittenYear(f.year) && MonthOf(m) == WrittenMonth(f.month) - 1
    requires DateOf(m) == NatValue(f.day) && HourOf(m) == Hours(f.time) && MinOf(m) == MinutesIn(f.time)
    requires SecOf(m) == SecondsIn(f.time) && MsOf(m) == Thousandths(f.time)
    ensures UtcOf(m) == Written(f)
  {
    hide DateUtc, YearOf, MonthOf, DateOf, HourOf, MinOf, SecOf, MsOf, WrittenYear, WrittenMonth;
    hide NatValue, Hours, MinutesIn, SecondsIn, Thousandths;
  }

  // ISODate of any such text: what is written, less the minutes its zone is ahead of UTC.
  lemma FormMeaning(f: DateForm, now: int)
    requires Ok(f)
    ensures Meaning(DateFormText(f), now)
      == Instant(Written(f) - (if f.time.Time? then Ahead(f.time.zone) * 60000 else 0))
  {
    hide *;
    var m := FormMatch(f);
    MatchMeaning(DateFormText(f), m, now);
  }

  lemma FormMatch(f: DateForm) returns (m: Match)
    requires Ok(f)
    ensures DateFormText(f) != "" && MatchAt(DateFormText(f), 0) == Some(m)
    ensures UtcOf(m) == Written(f) && ZoneShift(m) == if f.time.Time? then 0 - Ahead(f.time.zone) * 60000 else 0
  {
    assert DateFormText(f) != "";
    m := Match(f.year, f.month, f.day, ClockOf(f.time));
    FormMatches(f);
    AllWritten(f, m);
    ZoneWritten(m, f.time);
    hide *;
  }

  lemma MatchMeaning(s: string, m: Match, now: int)
    requires s != "" && MatchAt(s, 0) == Some(m)
    ensures Meaning(s, now) == Instant(UtcOf(m) + ZoneShift(m))
  {
    hide MatchAt, UtcOf, ZoneShift, Exec;
    ExecNow(s);
  }

  lemma ExecNow(s: string)
    requires MatchAt(s, 0).Some?
    ensures Exec(s, 0) == MatchAt(s, 0)
  {
    hide MatchAt;
  }

  // What stands before the first digit does not matter, and a text without digits is refused.
  lemma BeforeDigits(junk: string, s: string, now: int)
    requires forall i :: 0 <= i < |junk| ==> !IsDigit(junk[i])
    requires s != ""
    ensures Meaning(junk + s, now) == Meaning(s, now)
    ensures junk != "" ==> Meaning(junk, now) == Invalid
  {
    ExecShift(junk, s, 0);
    ExecLate(junk, s, 0);
    ExecLate(junk, "", 0);
    assert junk + "" == junk;
    hide Exec;
  }

  lemma ShiftMatch(p: string, z: string, i: nat)
    requires i <= |z|
    ensures MatchAt(p + z, |p| + i) == MatchAt(z, i)
  {
    hide MatchClock, DigitsAt, CharAt;
    var j := Skip(z, i + 4, '-');
    var k := Skip(z, j + 2, '-');
    ShiftChar(p, z, i + 4, '-');
    ShiftChar(p, z, j + 2, '-');
    ShiftDigits(p, z, i, 4);
    ShiftDigits(p, z, j, 2);
    ShiftDigits(p, z, k, 2);
    hide Skip;
    ShiftDay(p, z, i, j, k);
  }

  lemma ShiftDay(p: string, z: string, i: nat, j: nat, k: nat)
    ensures DigitsAt(z, k, 2) ==> MatchClock(p + z, |p| + k + 2) == MatchClock(z, k + 2)
    ensures (DigitsAt(z, i, 4) ==> i + 4 <= |z|) && (DigitsAt(z, j, 2) ==> j + 2 <= |z|)
    ensures DigitsAt(z, k, 2) ==> k + 2 <= |z|
  {
    hide MatchClock;
    if k + 2 <= |z| {
      ShiftClock(p, z, k + 2);
    }
  }

  lemma {:induction false} ExecShift(p: string, z: string, i: nat)
    requires i <= |z|
    ensures Exec(p + z, |p| + i) == Exec(z, i)
    decreases |z| - i
  {
    hide MatchAt;
    ShiftMatch(p, z, i);
    if i < |z| {
      ExecShift(p, z, i + 1);
    }
  }

  lemma NoneAt(t: string, i: nat)
    requires i < |t| && !IsDigit(t[i])
    ensures MatchAt(t, i) == None
  {
    if i + 4 <= |t| {
      assert t[i..i + 4][0] == t[i];
    }
  }

  lemma {:induction false} ExecLate(junk: string, s: string, i: nat)
    requires i <= |junk| && forall i :: 0 <= i < |junk| ==> !IsDigit(junk[i])
    ensures Exec(junk + s, i) == Exec(junk + s, |junk|)
    ensures s == "" ==> Exec(junk + s, i) == None
    decreases |junk| - i
  {
    if i < |junk| {
      NoneAt(junk + s, i);
      hide MatchAt;
      ExecLate(junk, s, i + 1);
    }
  }

  // Zero is written with zeros alone.
  lemma {:induction false} ZeroText(s: string)
    requires AllDigits(s)
    ensures NatValue(s) == 0 <==> s == Repeat('0', |s|)
    ensures |s| == 2 ==> Repeat('0', |s|) == "00"
    ensures |s| == 4 ==> Repeat('0', |s|) == "0000"
  {
    assert |s| == 2 ==> Repeat('0', |s|) == "00";
    assert |s| == 4 ==> Repeat('0', |s|) == "0000";
    if s != "" {
      ZeroText(s[..|s| - 1]);
      RepeatSnoc('0', |s|);
      assert s == s[..|s| - 1] + [s[|s| - 1]];
      assert Repeat('0', |s|) == Repeat('0', |s|)[..|s| - 1] + [Repeat('0', |s|)[|s| - 1]];
    }
  }

  // ----- Printed dates -----

  // The text between the quotes of a printed date, without its Z.
  function Unzoned(t: int): string
    requires 0 <= YearFromTime(t)
  {
    DateText(t)[..|DateText(t)| - 1]
  }

  function Printed(t: int, zone: ZoneForm): (f: DateForm)
    ensures f.time.Time? && f.time.zone == zone && f.time.rest.Minutes? && f.time.rest.rest.Seconds?
  {
    DateForm(Padded(IntText(YearFromTime(t)), 4), true, Padded(IntText(MonthFromTime(t) + 1), 2), true,
             Padded(IntText(DateFromTime(t)), 2),
             Time('T', Padded(IntText(HourFromTime(t)), 2),
                  Minutes(true, Padded(IntText(MinFromTime(t)), 2),
                          Seconds(true, Padded(IntText(SecFromTime(t)), 2), FracText(t))), zone))
  }

  lemma PrintedOk(t: int, zone: ZoneForm)
    requires 0 <= YearFromTime(t) <= 9999 && ZoneOk(zone)
    ensures Ok(Printed(t, zone))
  {
    Powers();
    hide Padded, IntText, ZoneOk;
    PaddedField(YearFromTime(t), 4);
    PaddedField(MonthFromTime(t) + 1, 2);
    PaddedField(DateFromTime(t), 2);
    PaddedField(HourFromTime(t), 2);
    PaddedField(MinFromTime(t), 2);
    PaddedField(SecFromTime(t), 2);
    PaddedField(MsFromTime(t), 3);
    hide YearFromTime, MonthFromTime, DateFromTime, HourFromTime, MinFromTime, SecFromTime, MsFromTime;
  }

  lemma PrintedText(t: int, zone: ZoneForm)
    requires 0 <= YearFromTime(t) <= 9999
    ensures DateText(t) == Unzoned(t) + "Z"
    ensures DateFormText(Printed(t, zone)) == Unzoned(t) + ZoneText(zone)
  {
    FractionField(t);
    hide Padded, IntText, YearFromTime, MonthFromTime, DateFromTime, HourFromTime, MinFromTime, SecFromTime, ZoneText;
    var y, mo := Padded(IntText(YearFromTime(t)), 4), Padded(IntText(MonthFromTime(t) + 1), 2);
    var d, h := Padded(IntText(DateFromTime(t)), 2), Padded(IntText(HourFromTime(t)), 2);
    var mi, s := Padded(IntText(MinFromTime(t)), 2), Padded(IntText(SecFromTime(t)), 2);
    var f := If(FracText(t) != "", "." + FracText(t));
    var p := y + "-" + mo + "-" + d + "T" + h + ":" + mi + ":" + s + f;
    assert DateText(t) == p + "Z";
    assert Unzoned(t) == p;
    RegroupClock(h, mi, s, f, ZoneText(zone));
    RegroupDay(y, mo, d, h, mi, s, f, ZoneText(zone));
  }

  lemma RegroupClock(h: string, mi: string, s: string, f: string, zone: string)
    ensures "T" + (h + (":" + (mi + ((":" + (s + f)) + zone)))) == ("T" + h + ":" + mi + ":" + s + f) + zone
  {
  }

  lemma RegroupDay(y: string, mo: string, d: string, h: string, mi: string, s: string, f: string, zone: string)
    ensures y + ("-" + (mo + ("-" + (d + (("T" + h + ":" + mi + ":" + s + f) + zone)))))
      == (y + "-" + mo + "-" + d + "T" + h + ":" + mi + ":" + s + f) + zone
  {
  }

  // What ISODate makes of p with any zone put behind it.
  ghost predicate Zoned(p: string, utc: int, now: int) {
    forall zone :: ZoneOk(zone) ==> Meaning(p + ZoneText(zone), now) == Instant(utc - Ahead(zone) * 60000)
  }

  // ISODate of a printed date whose Z gives way to an offset, with or without a colon and minutes:
  // less that offset for a plus, and more for a minus.
  lemma PrintedZone(t: int, sign: string, hh: string, colon: string, mm: string, now: int)
    requires 0 <= YearFromTime(t) <= 9999 && Two(hh) && (sign == "+" || sign == "-")
    requires (colon == ":" && Two(mm)) || (colon == "" && (Two(mm) || mm == ""))
    ensures Meaning(Unzoned(t) + "Z", now).Instant?
    ensures var utc := Meaning(Unzoned(t) + "Z", now).t;
      var offset := (60 * NatValue(hh) + NatValue(mm)) * 60000;
      Meaning(Unzoned(t) + sign + hh + colon + mm, now) == Instant(if sign == "+" then utc - offset else utc + offset)
  {
    hide *;
    PrintedUtc(t, now);
    ZonedOne(Unzoned(t), Meaning(Unzoned(t) + "Z", now).t, sign, hh, colon, mm, now);
  }

  // And one whose Z gives way to nothing.
  lemma PrintedNoZone(t: int, now: int)
    requires 0 <= YearFromTime(t) <= 9999
    ensures DateText(t) == Unzoned(t) + "Z" && Meaning(Unzoned(t), now) == Meaning(Unzoned(t) + "Z", now)
  {
    hide *;
    PrintedUtc(t, now);
  }

  lemma PrintedUtc(t: int, now: int)
    requires 0 <= YearFromTime(t) <= 9999
    ensures DateText(t) == Unzoned(t) + "Z"
    ensures Meaning(Unzoned(t) + "Z", now) == Meaning(Unzoned(t), now) && Meaning(Unzoned(t), now).Instant?
    ensures Zoned(Unzoned(t), Meaning(Unzoned(t) + "Z", now).t, now)
  {
    PrintedOk(t, Zulu);
    PrintedText(t, Zulu);
    hide *;
    PrintedZoned(t, now);
    ZonedZulu(Unzoned(t), Written(Printed(t, Zulu)), now);
  }

  lemma PrintedZoned(t: int, now: int)
    requires 0 <= YearFromTime(t) <= 9999 && Ok(Printed(t, Zulu))
    ensures Zoned(Unzoned(t), Written(Printed(t, Zulu)), now)
  {
    hide Meaning, Written, Ahead, ZoneText, Unzoned, Printed, Ok, ZoneOk;
    forall zone | ZoneOk(zone)
      ensures Meaning(Unzoned(t) + ZoneText(zone), now) == Instant(Written(Printed(t, Zulu)) - Ahead(zone) * 60000)
    {
      PrintedMeaning(t, zone, now);
    }
  }

  lemma PrintedMeaning(t: int, zone: ZoneForm, now: int)
    requires 0 <= YearFromTime(t) <= 9999 && ZoneOk(zone) && Ok(Printed(t, Zulu))
    ensures Meaning(Unzoned(t) + ZoneText(zone), now) == Instant(Written(Printed(t, Zulu)) - Ahead(zone) * 60000)
  {
    hide *;
    PrintedOk(t, zone);
    PrintedText(t, zone);
    FormMeaning(Printed(t, zone), now);
    SameWritten(t, zone);
  }

  lemma SameWritten(t: int, zone: ZoneForm)
    requires Ok(Printed(t, zone)) && Ok(Printed(t, Zulu))
    ensures Written(Printed(t, zone)) == Written(Printed(t, Zulu))
  {
    hide DateUtc, WrittenYear, WrittenMonth, NatValue, Padded, IntText, Ok, RoundedMs, ZoneOk;
    hide YearFromTime, MonthFromTime, DateFromTime, HourFromTime, MinFromTime, SecFromTime, MsFromTime;
  }

  lemma ZonedZulu(p: string, utc: int, now: int)
    requires Zoned(p, utc, now)
    ensures Meaning(p + "Z", now) == Meaning(p, now) == Instant(utc)
  {
    hide Meaning;
    assert p == p + ZoneText(Nowhere) && p + "Z" == p + ZoneText(Zulu);
  }

  lemma ZonedOne(p: string, utc: int, sign: string, hh: string, colon: string, mm: string, now: int)
    requires Zoned(p, utc, now) && Two(hh) && (sign == "+" || sign == "-")
    requires (colon == ":" && Two(mm)) || (colon == "" && (Two(mm) || mm == ""))
    ensures var minutes := (60 * NatValue(hh) + NatValue(mm)) * 60000;
      Meaning(p + sign + hh + colon + mm, now) == Instant(if sign == "+" then utc - minutes else utc + minutes)
  {
    OffsetText(p, sign, hh, colon, mm);
    hide Meaning, NatValue;
    var zone := ZoneForm.Offset(sign[0], hh, colon == ":", mm);
    assert ZoneOk(zone) && [sign[0]] == sign;
    assert ZoneText(zone) == sign + (hh + (colon + mm));
  }

  lemma OffsetText(p: string, sign: string, hh: string, colon: string, mm: string)
    ensures p + (sign + (hh + (colon + mm))) == p + sign + hh + colon + mm
  {
  }

  lemma PrintedFields(t: int)
    requires 0 <= YearFromTime(t) <= 9999
    ensures var f := Printed(t, Zulu);
      && Ok(f) && NatValue(f.year) == YearFromTime(t) && NatValue(f.month) == MonthFromTime(t) + 1
      && NatValue(f.day) == DateFromTime(t) && NatValue(f.time.hh) == HourFromTime(t)
      && NatValue(f.time.rest.mm) == MinFromTime(t) && NatValue(f.time.rest.rest.ss) == SecFromTime(t)
  {
    Powers();
    PrintedOk(t, Zulu);
    hide Padded, IntText, NatValue;
    PaddedField(YearFromTime(t), 4);
    PaddedField(MonthFromTime(t) + 1, 2);
    PaddedField(DateFromTime(t), 2);
    PaddedField(HourFromTime(t), 2);
    PaddedField(MinFromTime(t), 2);
    PaddedField(SecFromTime(t), 2);
    hide YearFromTime, MonthFromTime, DateFromTime, HourFromTime, MinFromTime, SecFromTime, Ok;
  }

  lemma FractionField(t: int)
    ensures AllDigits(FracText(t)) && (MsFromTime(t) == 0 <==> FracText(t) == "")
    ensures MsFromTime(t) != 0 ==> |FracText(t)| == 3 && NatValue(FracText(t)) == MsFromTime(t)
  {
    Powers();
    PaddedField(MsFromTime(t), 3);
    hide Padded, IntText, NatValue;
  }

  // The printed text character by character.
  lemma DateShape(t: int)
    requires 0 <= YearFromTime(t) <= 9999
    ensures var s := DateText(t);
      && |s| == (if MsFromTime(t) == 0 then 20 else 24)
      && s[4] == s[7] == '-' && s[10] == 'T' && s[13] == s[16] == ':' && s[|s| - 1] == 'Z'
      && AllDigits(s[0..4]) && NatValue(s[0..4]) == YearFromTime(t)
      && AllDigits(s[5..7]) && NatValue(s[5..7]) == MonthFromTime(t) + 1
      && AllDigits(s[8..10]) && NatValue(s[8..10]) == DateFromTime(t)
      && AllDigits(s[11..13]) && NatValue(s[11..13]) == HourFromTime(t)
      && AllDigits(s[14..16]) && NatValue(s[14..16]) == MinFromTime(t)
      && AllDigits(s[17..19]) && NatValue(s[17..19]) == SecFromTime(t)
      && (MsFromTime(t) != 0 ==> s[19] == '.' && AllDigits(s[20..23]) && NatValue(s[20..23]) == MsFromTime(t))
  {
    PrintedFields(t);
    FractionField(t);
    var f := Printed(t, Zulu);
    ShapeOf(f.year, f.month, f.day, f.time.hh, f.time.rest.mm, f.time.rest.rest.ss, FracText(t));
    PrintedPieces(t);
    hide *;
  }

  lemma PrintedPieces(t: int)
    ensures var f := Printed(t, Zulu);
      DateText(t) == f.year + AfterYear(f.month, f.day, f.time.hh, f.time.rest.mm, f.time.rest.rest.ss, FracText(t))
  {
    DateTextPieces(t);
    hide DateText, AfterYear, FracText, Padded, IntText;
    hide YearFromTime, MonthFromTime, DateFromTime, HourFromTime, MinFromTime, SecFromTime;
  }

  lemma ShapeOf(y: string, mo: string, d: string, h: string, mi: string, s: string, frac: string)
    requires |y| == 4 && AllDigits(y) && TwoDigitFields(mo, d, h, mi, s, frac)
    ensures var t := y + AfterYear(mo, d, h, mi, s, frac);
      && |t| == (if frac == "" then 20 else 21 + |frac|)
      && t[0..4] == y && t[4] == '-' && t[5..7] == mo && t[7] == '-' && t[8..10] == d && t[10] == 'T'
      && t[11..13] == h && t[13] == ':' && t[14..16] == mi && t[16] == ':' && t[17..19] == s && t[|t| - 1] == 'Z'
      && (frac != "" ==> t[19] == '.' && t[20..20 + |frac|] == frac)
  {
    Places("", y, mo, d, h, mi, s, frac);
    hide AfterYear, TwoDigitFields;
    assert "" + (y + AfterYear(mo, d, h, mi, s, frac)) == y + AfterYear(mo, d, h, mi, s, frac);
  }
}
