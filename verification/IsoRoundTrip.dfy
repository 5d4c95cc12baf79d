// ISODate undoes Date.prototype.tojson exactly for the years 100 to 9999.
module IsoRoundTrip {
  import opened Text
  import opened EcmaDate
  import opened IsoDate

  // ----- The printed pieces -----

  // A printed field of at most `width` digits fills exactly `width` and reads back as the number.
  lemma PaddedField(n: nat, width: nat)
    requires width > 0 && n < Power10(width)
    ensures var p := Padded(IntText(n), width); |p| == width && AllDigits(p) && NatValue(p) == n
  {
    NatTextLength(n, width);
    NatValueText(n);
    NatValuePadded(NatText(n), width);
  }

  lemma Powers()
    ensures Power10(1) == 10 && Power10(2) == 100 && Power10(3) == 1000
    ensures Power10(4) == 10000 && Power10(5) == 100000 && Power10(6) == 1000000
  {
  }

  // The text after the year.
  function AfterYear(mo: string, d: string, h: string, mi: string, s: string, frac: string): string {
    "-" + mo + "-" + d + "T" + h + ":" + mi + ":" + s + (if frac != "" then "." + frac else "") + "Z"
  }

  ghost predicate TwoDigitFields(mo: string, d: string, h: string, mi: string, s: string, frac: string) {
    && |mo| == 2 && |d| == 2 && |h| == 2 && |mi| == 2 && |s| == 2
    && AllDigits(mo) && AllDigits(d) && AllDigits(h) && AllDigits(mi) && AllDigits(s) && AllDigits(frac)
  }

  // Where everything stands in a text whose year ends at position i + 4.
  lemma Places(p: string, y: string, mo: string, d: string, h: string, mi: string, s: string, frac: string)
    requires |y| == 4 && TwoDigitFields(mo, d, h, mi, s, frac)
    ensures var t := p + (y + AfterYear(mo, d, h, mi, s, frac));
      var i := |p|;
      && |t| == i + 20 + (if frac == "" then 0 else 1 + |frac|)
      && t[i..i + 4] == y && t[i + 4] == '-' && t[i + 5..i + 7] == mo && t[i + 7] == '-'
      && t[i + 8..i + 10] == d && t[i + 10] == 'T' && t[i + 11..i + 13] == h && t[i + 13] == ':'
      && t[i + 14..i + 16] == mi && t[i + 16] == ':' && t[i + 17..i + 19] == s
      && (frac == "" ==> t[i + 19] == 'Z')
      && (frac != "" ==> t[i + 19] == '.' && t[i + 20..i + 20 + |frac|] == frac && t[i + 20 + |frac|] == 'Z')
  {
    var z := AfterYear(mo, d, h, mi, s, frac);
    var t := p + (y + z);
    Tail(mo, d, h, mi, s, frac);
    hide AfterYear, TwoDigitFields;
    Regroup(p, y, z);
    var q := p + y;
    assert t[|p|..|p| + 4] == y;
    CharsShifted(q, z);
    Shifted(q, z, 1, 3);
    Shifted(q, z, 4, 6);
    Shifted(q, z, 7, 9);
    Shifted(q, z, 10, 12);
    Shifted(q, z, 13, 15);
    if frac != "" {
      Shifted(q, z, 16, 16 + |frac|);
      assert t[|q| + (16 + |frac|)] == z[16 + |frac|];
    }
  }

  lemma Shifted(q: string, z: string, a: nat, b: nat)
    requires a <= b <= |z|
    ensures (q + z)[|q| + a..|q| + b] == z[a..b]
  {
  }

  lemma CharsShifted(q: string, z: string)
    requires |z| >= 16
    ensures (q + z)[|q|] == z[0] && (q + z)[|q| + 3] == z[3] && (q + z)[|q| + 6] == z[6]
    ensures (q + z)[|q| + 9] == z[9] && (q + z)[|q| + 12] == z[12] && (q + z)[|q| + 15] == z[15]
  {
  }

  lemma Tail(mo: string, d: string, h: string, mi: string, s: string, frac: string)
    requires TwoDigitFields(mo, d, h, mi, s, frac)
    ensures var z := AfterYear(mo, d, h, mi, s, frac);
      && |z| == 16 + (if frac == "" then 0 else 1 + |frac|)
      && z[0] == '-' && z[1..3] == mo && z[3] == '-' && z[4..6] == d && z[6] == 'T' && z[7..9] == h && z[9] == ':'
      && z[10..12] == mi && z[12] == ':' && z[13..15] == s
      && (frac == "" ==> z[15] == 'Z')
      && (frac != "" ==> z[15] == '.' && z[16..16 + |frac|] == frac && z[16 + |frac|] == 'Z')
  {
    DatePlaces(mo, d);
    var end := (if frac != "" then "." + frac else "") + "Z";
    var clock := h + ":" + mi + ":" + s;
    assert clock[0..2] == h && clock[2] == ':' && clock[3..5] == mi && clock[5] == ':' && clock[6..8] == s;
    var z := AfterYear(mo, d, h, mi, s, frac);
    var day := "-" + mo + "-" + d + "T";
    assert z == day + clock + end;
    assert z[7..9] == clock[0..2] && z[10..12] == clock[3..5] && z[13..15] == clock[6..8];
    assert z[1..3] == day[1..3] && z[4..6] == day[4..6];
    assert forall k :: 0 <= k < |end| ==> z[15 + k] == end[k];
    if frac != "" {
      assert end[1..1 + |frac|] == frac;
      assert z[16..16 + |frac|] == end[1..1 + |frac|];
    }
  }

  lemma DatePlaces(mo: string, d: string)
    requires |mo| == 2 && |d| == 2
    ensures var day := "-" + mo + "-" + d + "T";
      |day| == 7 && day[0] == '-' && day[1..3] == mo && day[3] == '-' && day[4..6] == d && day[6] == 'T'
  {
  }

  // The regular expression takes such a text apart into just these fields.
  lemma MatchesFields(p: string, y: string, mo: string, d: string, h: string, mi: string, s: string, frac: string)
    requires |y| == 4 && AllDigits(y) && TwoDigitFields(mo, d, h, mi, s, frac)
    ensures MatchAt(p + (y + AfterYear(mo, d, h, mi, s, frac)), |p|)
         == Some(Match(y, mo, d, Clock(h, Some(mi), Some(s), if frac == "" then None else Some(frac), Utc)))
  {
    Places(p, y, mo, d, h, mi, s, frac);
    hide AfterYear;
    var t := p + (y + AfterYear(mo, d, h, mi, s, frac));
    ClockMatch(t, |p| + 10, h, mi, s, frac);
    hide MatchClock;
    DayMatch(t, |p|, y, mo, d);
  }

  lemma DayMatch(t: string, i: nat, y: string, mo: string, d: string)
    requires i + 10 <= |t| && AllDigits(y) && AllDigits(mo) && AllDigits(d)
    requires t[i..i + 4] == y && t[i + 4] == '-' && t[i + 5..i + 7] == mo && t[i + 7] == '-' && t[i + 8..i + 10] == d
    ensures MatchAt(t, i) == Some(Match(y, mo, d, MatchClock(t, i + 10)))
  {
    hide MatchClock;
  }

  lemma ClockMatch(t: string, i: nat, h: string, mi: string, s: string, frac: string)
    requires AllDigits(h) && AllDigits(mi) && AllDigits(s) && AllDigits(frac)
    requires i + 10 <= |t| && t[i] == 'T' && t[i + 1..i + 3] == h && t[i + 3] == ':'
    requires t[i + 4..i + 6] == mi && t[i + 6] == ':' && t[i + 7..i + 9] == s
    requires frac == "" ==> t[i + 9] == 'Z'
    requires frac != "" ==> i + 10 + |frac| < |t| && t[i + 9] == '.' && t[i + 10..i + 10 + |frac|] == frac
                            && t[i + 10 + |frac|] == 'Z'
    ensures MatchClock(t, i) == Clock(h, Some(mi), Some(s), if frac == "" then None else Some(frac), Utc)
  {
    if frac != "" {
      DigitsEnd(t, i + 10, |frac|);
    }
  }

  lemma {:induction false} DigitsEnd(s: string, i: nat, n: nat)
    requires i + n < |s| && AllDigits(s[i..i + n]) && !IsDigit(s[i + n])
    ensures DigitsFrom(s, i) == n
    decreases n
  {
    if n > 0 {
      var d := s[i..i + n];
      assert d[0] == s[i] && s[i + 1..i + 1 + (n - 1)] == d[1..];
      DigitsEnd(s, i + 1, n - 1);
    }
  }

  function FracText(t: int): string {
    if MsFromTime(t) != 0 then Padded(IntText(MsFromTime(t)), 3) else ""
  }

  function RestText(t: int): string {
    AfterYear(Padded(IntText(MonthFromTime(t) + 1), 2), Padded(IntText(DateFromTime(t)), 2),
              Padded(IntText(HourFromTime(t)), 2), Padded(IntText(MinFromTime(t)), 2),
              Padded(IntText(SecFromTime(t)), 2), FracText(t))
  }

  lemma DateTextPieces(t: int)
    ensures DateText(t) == Padded(IntText(YearFromTime(t)), 4) + RestText(t)
    ensures TwoDigitFields(Padded(IntText(MonthFromTime(t) + 1), 2), Padded(IntText(DateFromTime(t)), 2),
                           Padded(IntText(HourFromTime(t)), 2), Padded(IntText(MinFromTime(t)), 2),
                           Padded(IntText(SecFromTime(t)), 2), FracText(t))
  {
    Powers();
    PaddedField(MonthFromTime(t) + 1, 2);
    PaddedField(DateFromTime(t), 2);
    PaddedField(HourFromTime(t), 2);
    PaddedField(MinFromTime(t), 2);
    PaddedField(SecFromTime(t), 2);
    PaddedField(MsFromTime(t), 3);
    if FracText(t) != "" {
      assert |FracText(t)| == 3;
    }
    YearThen(Padded(IntText(YearFromTime(t)), 4), RestText(t), t);
  }

  lemma YearThen(y: string, r: string, t: int)
    requires y == Padded(IntText(YearFromTime(t)), 4) && r == RestText(t)
    ensures DateText(t) == y + r
  {
    var frac := if MsFromTime(t) != 0 then "." + Padded(IntText(MsFromTime(t)), 3) else "";
    assert MsFromTime(t) != 0 ==> |FracText(t)| >= 3;
    RegroupDate(y, Padded(IntText(MonthFromTime(t) + 1), 2), Padded(IntText(DateFromTime(t)), 2),
                Padded(IntText(HourFromTime(t)), 2), Padded(IntText(MinFromTime(t)), 2),
                Padded(IntText(SecFromTime(t)), 2), frac);
  }

  lemma RegroupDate(y: string, mo: string, d: string, h: string, mi: string, s: string, f: string)
    ensures y + "-" + mo + "-" + d + "T" + h + ":" + mi + ":" + s + f + "Z"
         == y + ("-" + mo + "-" + d + "T" + h + ":" + mi + ":" + s + f + "Z")
  {
  }

  // What a match holding t's printed fields after some four-digit year means.
  lemma FieldsMeaning(t: int, m: Match)
    requires m.clock.Clock? && m.clock.min.Some? && m.clock.sec.Some? && m.clock.zone == Utc
    requires m.month == Padded(IntText(MonthFromTime(t) + 1), 2) && m.date == Padded(IntText(DateFromTime(t)), 2)
    requires m.clock.hour == Padded(IntText(HourFromTime(t)), 2)
    requires m.clock.min.value == Padded(IntText(MinFromTime(t)), 2)
    requires m.clock.sec.value == Padded(IntText(SecFromTime(t)), 2)
    requires m.clock.frac == if FracText(t) == "" then None else Some(FracText(t))
    ensures InstantOf(m) == MakeDate(MakeDay(FullYear(YearOf(m)), MonthFromTime(t), DateFromTime(t)), TimeWithinDay(t))
  {
    hide MakeDay, MakeTime, Padded, FullYear, IntText;
    Powers();
    ClockParts(t);
    PaddedField(MonthFromTime(t) + 1, 2);
    PaddedField(DateFromTime(t), 2);
    PaddedField(HourFromTime(t), 2);
    PaddedField(MinFromTime(t), 2);
    PaddedField(SecFromTime(t), 2);
    hide MonthFromTime, DateFromTime, HourFromTime, MinFromTime, SecFromTime, NatValue;
    PrintedMs(t, m);
  }

  lemma PrintedMs(t: int, m: Match)
    requires m.clock.Clock? && m.clock.frac == if FracText(t) == "" then None else Some(FracText(t))
    ensures MsOf(m) == MsFromTime(t)
  {
    hide Padded, NatValue, IntText;
    Powers();
    PaddedField(MsFromTime(t), 3);
    if MsFromTime(t) != 0 {
      assert |FracText(t)| == 3;
      assert RoundedMs(m.clock.frac.value) == (2000 * MsFromTime(t) + 1000) / 2000;
    }
  }

  // ----- The years -----

  // Four printed digits: the text matches at once.
  lemma FourDigits(t: int)
    requires 0 <= YearFromTime(t) <= 9999
    ensures Exec(DateText(t), 0).Some?
    ensures var m := Exec(DateText(t), 0).value;
      var y := YearFromTime(t);
      && YearOf(m) == (if y == 0 then 1970 else y)
      && InstantOf(m) == MakeDate(MakeDay(FullYear(YearOf(m)), MonthFromTime(t), DateFromTime(t)), TimeWithinDay(t))
  {
    Powers();
    DateTextPieces(t);
    var y := Padded(IntText(YearFromTime(t)), 4);
    PaddedField(YearFromTime(t), 4);
    MatchesFields("", y, Padded(IntText(MonthFromTime(t) + 1), 2), Padded(IntText(DateFromTime(t)), 2),
                  Padded(IntText(HourFromTime(t)), 2), Padded(IntText(MinFromTime(t)), 2),
                  Padded(IntText(SecFromTime(t)), 2), FracText(t));
    assert "" + (y + RestText(t)) == DateText(t);
    FieldsMeaning(t, Exec(DateText(t), 0).value);
  }

  // A day and month keep to the year they are put in.
  lemma SameYear(t: int, y: int, z: int)
    requires y <= z
    ensures DayFromYear(y) <= MakeDay(y, MonthFromTime(t), DateFromTime(t))
    ensures MakeDay(y, MonthFromTime(t), DateFromTime(t)) < DayFromYear(z + 1)
  {
    hide DayFromYear;
    YearStep(y);
    YearsIncrease(y + 1, z + 1);
    var m := MonthFromTime(t);
    assert m / 12 == 0 && m % 12 == m;
    assert DateFromTime(t) <= 31;
    assert DaysBefore(m, IsLeap(y)) <= 334 + (if IsLeap(y) then 1 else 0);
  }

  lemma Instants(t: int, d: int)
    ensures t == MakeDate(Day(t), TimeWithinDay(t)) && 0 <= TimeWithinDay(t) < 86400000
    ensures d < Day(t) ==> MakeDate(d, 86399999) < t
    ensures d > Day(t) ==> MakeDate(d, 0) > t
  {
  }

  // Five digits: the first is skipped, and the rest is read as the year.
  lemma FiveDigits(t: int, now: int)
    requires 10000 <= YearFromTime(t) <= 99999
    ensures Meaning(DateText(t), now) != Instant(t)
  {
    var m := FiveDigitMatch(t);
    FieldsMeaning(t, m);
    TwoDigits(m.year);
    SameYear(t, FullYear(YearOf(m)), 9999);
    YearsIncrease(10000, YearFromTime(t));
    Instants(t, MakeDay(FullYear(YearOf(m)), MonthFromTime(t), DateFromTime(t)));
  }

  lemma FiveDigitMatch(t: int) returns (m: Match)
    requires 10000 <= YearFromTime(t) <= 99999
    ensures Exec(DateText(t), 0) == Some(m) && |m.year| == 4
    ensures m == Match(m.year, Padded(IntText(MonthFromTime(t) + 1), 2), Padded(IntText(DateFromTime(t)), 2),
                       Clock(Padded(IntText(HourFromTime(t)), 2), Some(Padded(IntText(MinFromTime(t)), 2)),
                             Some(Padded(IntText(SecFromTime(t)), 2)),
                             if FracText(t) == "" then None else Some(FracText(t)), Utc))
  {
    Powers();
    DateTextPieces(t);
    var y := Padded(IntText(YearFromTime(t)), 4);
    NatTextLength(YearFromTime(t), 4);
    NatTextLength(YearFromTime(t), 5);
    MatchesFields(y[..1], y[1..], Padded(IntText(MonthFromTime(t) + 1), 2), Padded(IntText(DateFromTime(t)), 2),
                  Padded(IntText(HourFromTime(t)), 2), Padded(IntText(MinFromTime(t)), 2),
                  Padded(IntText(SecFromTime(t)), 2), FracText(t));
    SplitYear(y, RestText(t));
    NoMatchAtZero(y, RestText(t));
    m := MatchAt(DateText(t), 1).value;
  }

  lemma SplitYear(y: string, r: string)
    requires |y| == 5
    ensures y + r == y[..1] + (y[1..] + r)
  {
  }

  lemma NoMatchAtZero(y: string, r: string)
    requires |y| == 5 && AllDigits(y) && |r| >= 2 && r[0] == '-'
    ensures MatchAt(y + r, 0).None?
  {
    var s := y + r;
    assert s[4] == y[4] && s[5] == '-';
    assert s[4..6][1] == s[5];
    assert Skip(s, 4, '-') == 4;
  }

  // Beyond, whatever is read lies centuries away.
  lemma FarYears(t: int, now: int)
    requires YearFromTime(t) < 0 || YearFromTime(t) >= 100000
    ensures Meaning(DateText(t), now) != Instant(t)
  {
    var s := DateText(t);
    FarDays(t);
    if Exec(s, 0).Some? {
      ExecSized(s, 0);
      MatchRange(Exec(s, 0).value);
    }
  }

  lemma FarDays(t: int)
    ensures YearFromTime(t) < 0 ==> t < -700000 * 86400000
    ensures YearFromTime(t) >= 100000 ==> t >= 3000000 * 86400000
  {
    if YearFromTime(t) < 0 {
      YearsIncrease(YearFromTime(t) + 1, 0);
    } else if YearFromTime(t) >= 100000 {
      YearsIncrease(100000, YearFromTime(t));
    }
  }

  lemma TwoDigitYears(t: int, now: int)
    requires 0 <= YearFromTime(t) <= 99
    ensures Meaning(DateText(t), now) != Instant(t)
  {
    FourDigits(t);
    var y := FullYear(YearOf(Exec(DateText(t), 0).value));
    SameYear(t, y, y);
    YearsIncrease(1900, y);
    YearsIncrease(YearFromTime(t) + 1, 100);
    Instants(t, MakeDay(y, MonthFromTime(t), DateFromTime(t)));
  }

  // ISODate gives back the instant Date.prototype.tojson printed exactly when its year has four digits
  // and is not one Date.UTC moves into the twentieth century.
  lemma ReadBackDate(t: int, now: int)
    ensures var printed := DateToJson(t);
      && |printed| >= 11 && printed[..9] == "ISODate(\"" && printed[|printed| - 2..] == "\")"
      && (Meaning(printed[9..|printed| - 2], now) == Instant(t) <==> 100 <= YearFromTime(t) <= 9999)
  {
    var printed := DateToJson(t);
    assert printed[9..|printed| - 2] == DateText(t) by {
      hide DateText;
    }
    ReadBackText(t, now);
    hide DateText, Meaning;
  }

  lemma ReadBackText(t: int, now: int)
    ensures Meaning(DateText(t), now) == Instant(t) <==> 100 <= YearFromTime(t) <= 9999
  {
    var y := YearFromTime(t);
    if y < 0 || y >= 100000 {
      FarYears(t, now);
    } else if y <= 99 {
      TwoDigitYears(t, now);
    } else if y >= 10000 {
      FiveDigits(t, now);
    } else {
      FourDigits(t);
      CivilRoundTrip(t);
      ClockParts(t);
    }
  }
}
