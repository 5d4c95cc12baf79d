// BSONizer's generator of BSON timestamps for the shell's Timestamp(0, ...).
module TimestampGenerator {
  import opened JavaInts

  datatype BsonTime = BsonTime(time: Int32, inc: Int32)

  predicate Before(a: BsonTime, b: BsonTime) {
    a.time < b.time || (a.time == b.time && a.inc < b.inc)
  }

  // lastSecFromEpoch and timestampIncrementer.
  datatype Gen = Gen(lastSec: Int32, incrementer: Int32)

  function Seconds(millis: int): Int32 {
    ToInt32(Quotient(millis, 1000))
  }

  // Seconds are whole thousands of milliseconds, the fraction dropped towards 1970, as a Java int.
  lemma SecondsAre(millis: int)
    ensures var s := Quotient(millis, 1000);
      && (millis >= 0 ==> 1000 * s <= millis < 1000 * s + 1000)
      && (millis <= 0 ==> 1000 * s - 1000 < millis <= 1000 * s)
      && (s - Seconds(millis)) % 0x1_0000_0000 == 0
    ensures 0 <= millis < 0x8000_0000 * 1000 ==> 1000 * Seconds(millis) <= millis < 1000 * Seconds(millis) + 1000
  {
    CastsWrap(Quotient(millis, 1000));
  }

  // The generator after a reading of the clock; what it then holds is the timestamp handed out.
  function Advance(g: Gen, millis: int): Gen {
    var sec := Seconds(millis);
    if sec != g.lastSec then Gen(sec, 1) else Gen(g.lastSec, ToInt32(g.incrementer + 1))
  }

  // A Timestamp(t, i) converted while the clock shows `millis`.
  datatype Call = Call(t: Int64, i: Int64, millis: int)

  predicate Asks(c: Call) {
    ToInt32(c.t) == 0
  }

  function Next(g: Gen, c: Call): Gen {
    if Asks(c) then Advance(g, c.millis) else g
  }

  function Answer(g: Gen, c: Call): BsonTime {
    if Asks(c) then
      var h := Advance(g, c.millis);
      BsonTime(h.lastSec, h.incrementer)
    else BsonTime(ToInt32(c.t), ToInt32(c.i))
  }

  // The two static fields, updated in place.
  class Generator {
    var lastSecFromEpoch: Int32
    var timestampIncrementer: Int32

    constructor ()
      ensures Now() == Gen(0, 1)
    {
      lastSecFromEpoch, timestampIncrementer := 0, 1;
    }

    function Now(): Gen
      reads this
    {
      Gen(lastSecFromEpoch, timestampIncrementer)
    }

    method Convert(t: Int64, i: Int64, millis: int) returns (r: BsonTime)
      modifies this
      ensures r == Answer(old(Now()), Call(t, i, millis)) && Now() == Next(old(Now()), Call(t, i, millis))
      ensures ToInt32(t) != 0 ==> Now() == old(Now())
    {
      var newTimeInSec := ToInt32(t);
      if newTimeInSec == 0 {
        newTimeInSec := Seconds(millis);
        if newTimeInSec != lastSecFromEpoch {
          lastSecFromEpoch := newTimeInSec;
          timestampIncrementer := 1;
        } else {
          timestampIncrementer := ToInt32(timestampIncrementer + 1);
        }
        r := BsonTime(lastSecFromEpoch, timestampIncrementer);
      } else {
        r := BsonTime(newTimeInSec, ToInt32(i));
      }
    }
  }

  // The timestamps made up over a run of conversions, in order.
  function Generated(g: Gen, calls: seq<Call>): seq<BsonTime>
    decreases |calls|
  {
    if calls == [] then []
    else
      var rest := Generated(Next(g, calls[0]), calls[1..]);
      if Asks(calls[0]) then [Answer(g, calls[0])] + rest else rest
  }

  // The seconds the clock shows to the conversions that read it.
  function Readings(calls: seq<Call>): (secs: seq<Int32>)
    ensures |secs| <= |calls|
  {
    if calls == [] then []
    else if Asks(calls[0]) then [Seconds(calls[0].millis)] + Readings(calls[1..])
    else Readings(calls[1..])
  }

  // The counter has room for n more.
  predicate Room(g: Gen, n: nat) {
    g.incrementer + n < 0x8000_0000 && n < 0x8000_0000
  }

  // The ordinal of reading k: one more than the last while the second stays, else 1.
  function Ordinal(g: Gen, secs: seq<Int32>, k: nat): (i: int)
    requires k < |secs|
    ensures i <= k + 1 || i <= g.incrementer + k + 1
    ensures i >= 1 || i > g.incrementer
  {
    if secs[k] != (if k == 0 then g.lastSec else secs[k - 1]) then 1
    else if k == 0 then g.incrementer + 1
    else Ordinal(g, secs, k - 1) + 1
  }

  ghost predicate Stamps(g: Gen, secs: seq<Int32>, out: seq<BsonTime>) {
    |out| == |secs| && forall k :: 0 <= k < |secs| ==> out[k].time == secs[k] && out[k].inc == Ordinal(g, secs, k)
  }

  lemma {:induction false} OrdinalTail(g: Gen, h: Gen, secs: seq<Int32>, k: nat)
    requires 0 < k < |secs| && h.lastSec == secs[0] && h.incrementer == Ordinal(g, secs, 0)
    ensures Ordinal(g, secs, k) == Ordinal(h, secs[1..], k - 1)
  {
    if k > 1 {
      OrdinalTail(g, h, secs, k - 1);
    }
  }

  // What is generated depends on the readings alone.
  lemma {:induction false} GeneratedStamps(g: Gen, calls: seq<Call>)
    requires Room(g, |Readings(calls)|)
    ensures Stamps(g, Readings(calls), Generated(g, calls))
    decreases |calls|
  {
    if calls != [] {
      var h, rest := Next(g, calls[0]), calls[1..];
      GeneratedStamps(h, rest);
      if Asks(calls[0]) {
        var secs, out := Readings(calls), Generated(g, calls);
        assert secs[1..] == Readings(rest) && out[1..] == Generated(h, rest);
        assert h == Gen(secs[0], Ordinal(g, secs, 0)) && out[0] == BsonTime(h.lastSec, h.incrementer);
        hide Readings, Generated, Seconds, Ordinal, Next;
        StampsHead(g, h, secs, out);
      }
    }
  }

  lemma StampsHead(g: Gen, h: Gen, secs: seq<Int32>, out: seq<BsonTime>)
    requires secs != [] && out != [] && h.lastSec == secs[0] && h.incrementer == Ordinal(g, secs, 0)
    requires out[0] == BsonTime(h.lastSec, h.incrementer) && Stamps(h, secs[1..], out[1..])
    ensures Stamps(g, secs, out)
  {
    hide Ordinal;
    forall k | 0 <= k < |secs| ensures out[k].time == secs[k] && out[k].inc == Ordinal(g, secs, k) {
      if k > 0 {
        assert secs[k] == secs[1..][k - 1] && out[k] == out[1..][k - 1];
        OrdinalTail(g, h, secs, k);
      }
    }
  }

  ghost predicate Increasing(out: seq<BsonTime>) {
    forall j, k :: 0 <= j < k < |out| ==> Before(out[j], out[k])
  }

  // The clock never shows an earlier second to a conversion that reads it.
  ghost predicate NeverBack(calls: seq<Call>) {
    forall j, k :: 0 <= j < k < |calls| && Asks(calls[j]) && Asks(calls[k]) ==>
      Seconds(calls[j].millis) <= Seconds(calls[k].millis)
  }

  ghost predicate Sorted(secs: seq<Int32>) {
    forall j, k :: 0 <= j < k < |secs| ==> secs[j] <= secs[k]
  }

  lemma {:induction false} ReadingsAre(calls: seq<Call>, s: Int32)
    ensures s in Readings(calls) <==> exists k :: 0 <= k < |calls| && Asks(calls[k]) && Seconds(calls[k].millis) == s
  {
    if calls != [] {
      var rest := calls[1..];
      ReadingsAre(rest, s);
      assert forall k :: 0 <= k < |rest| ==> rest[k] == calls[k + 1];
      if k :| 0 <= k < |calls| && Asks(calls[k]) && Seconds(calls[k].millis) == s {
        assert k > 0 ==> rest[k - 1] == calls[k];
      }
    }
  }

  lemma {:induction false} SortedReadings(calls: seq<Call>)
    ensures NeverBack(calls) <==> Sorted(Readings(calls))
  {
    if calls != [] {
      var rest, secs := calls[1..], Readings(calls);
      SortedReadings(rest);
      NeverBackHead(calls);
      if Asks(calls[0]) {
        assert secs[1..] == Readings(rest);
        SortedHead(secs);
      }
    }
  }

  ghost predicate NoneBelow(s: Int32, secs: seq<Int32>) {
    forall i :: 0 <= i < |secs| ==> s <= secs[i]
  }

  // The first reading is no later than the others, and they are in order.
  lemma NeverBackHead(calls: seq<Call>)
    requires calls != []
    ensures NeverBack(calls) <==>
      && NeverBack(calls[1..])
      && (Asks(calls[0]) ==> NoneBelow(Seconds(calls[0].millis), Readings(calls[1..])))
  {
    var rest := calls[1..];
    assert forall k :: 0 <= k < |rest| ==> rest[k] == calls[k + 1];
    hide Seconds, Readings;
    if NeverBack(calls) {
      if Asks(calls[0]) {
        var secs := Readings(rest);
        forall i | 0 <= i < |secs| ensures Seconds(calls[0].millis) <= secs[i] {
          ReadingsAre(rest, secs[i]);
          var k :| 0 <= k < |rest| && Asks(rest[k]) && Seconds(rest[k].millis) == secs[i];
          assert Asks(calls[k + 1]);
        }
      }
      forall j, k | 0 <= j < k < |rest| && Asks(rest[j]) && Asks(rest[k])
        ensures Seconds(rest[j].millis) <= Seconds(rest[k].millis)
      {
        assert Asks(calls[j + 1]) && Asks(calls[k + 1]);
      }
    }
    if NeverBack(rest) && (Asks(calls[0]) ==> NoneBelow(Seconds(calls[0].millis), Readings(rest))) {
      forall j, k | 0 <= j < k < |calls| && Asks(calls[j]) && Asks(calls[k])
        ensures Seconds(calls[j].millis) <= Seconds(calls[k].millis)
      {
        assert Asks(rest[k - 1]);
        ReadingsAre(rest, Seconds(calls[k].millis));
        if j > 0 {
          assert Asks(rest[j - 1]);
        }
      }
    }
  }

  lemma SortedHead(secs: seq<Int32>)
    requires secs != []
    ensures Sorted(secs) <==> Sorted(secs[1..]) && NoneBelow(secs[0], secs[1..])
  {
    var rest := secs[1..];
    assert forall k :: 0 <= k < |rest| ==> rest[k] == secs[k + 1];
    if Sorted(secs) {
      forall j, k | 0 <= j < k < |rest| ensures rest[j] <= rest[k] {
        assert secs[j + 1] <= secs[k + 1];
      }
    }
    if Sorted(rest) && NoneBelow(secs[0], rest) {
      forall j, k | 0 <= j < k < |secs| ensures secs[j] <= secs[k] {
        assert secs[0] <= rest[k - 1] && (j > 0 ==> rest[j - 1] <= rest[k - 1]);
      }
    }
  }

  // While the second stays, the ordinal counts on.
  lemma {:induction false} OrdinalRun(g: Gen, secs: seq<Int32>, j: nat, k: nat)
    requires j <= k < |secs| && forall i :: j <= i <= k ==> secs[i] == secs[k]
    ensures Ordinal(g, secs, k) == Ordinal(g, secs, j) + (k - j)
  {
    if j < k {
      assert secs[k - 1] == secs[k];
      OrdinalRun(g, secs, j, k - 1);
    }
  }

  lemma SortedOrdinal(g: Gen, secs: seq<Int32>, j: nat, k: nat)
    requires Sorted(secs) && j < k < |secs|
    ensures secs[j] < secs[k] || (secs[j] == secs[k] && Ordinal(g, secs, j) < Ordinal(g, secs, k))
  {
    if secs[j] == secs[k] {
      OrdinalRun(g, secs, j, k);
    }
  }

  lemma IncreasingIff(g: Gen, secs: seq<Int32>, out: seq<BsonTime>)
    requires Stamps(g, secs, out)
    ensures Increasing(out) <==> Sorted(secs)
  {
    hide Ordinal;
    if Sorted(secs) {
      forall j, k | 0 <= j < k < |out| ensures Before(out[j], out[k]) {
        SortedOrdinal(g, secs, j, k);
      }
    } else {
      var j, k :| 0 <= j < k < |secs| && secs[j] > secs[k];
      assert !Before(out[j], out[k]);
    }
  }

  // Over every run for which the counter has room, the generated timestamps strictly increase if and only
  // if the clock never shows an earlier second to a conversion that reads it. Explicit timestamps in
  // between, and what the clock shows then, do not matter.
  lemma GeneratedIncreaseIff(g: Gen, calls: seq<Call>)
    requires Room(g, |Readings(calls)|)
    ensures Increasing(Generated(g, calls)) <==> NeverBack(calls)
  {
    GeneratedStamps(g, calls);
    IncreasingIff(g, Readings(calls), Generated(g, calls));
    SortedReadings(calls);
  }

  // ----- When no timestamp is handed out twice -----

  ghost predicate Distinct(out: seq<BsonTime>) {
    forall j, k :: 0 <= j < k < |out| ==> out[j] != out[k]
  }

  // How many readings at the start still show the second the generator holds.
  function Initial(g: Gen, secs: seq<Int32>): (m: nat)
    ensures m <= |secs| && (forall i :: 0 <= i < m ==> secs[i] == g.lastSec) && (m < |secs| ==> secs[m] != g.lastSec)
  {
    if secs == [] || secs[0] != g.lastSec then 0 else 1 + Initial(g, secs[1..])
  }

  // From reading m on, a second that has passed does not come back.
  ghost predicate NoneReturns(secs: seq<Int32>, m: nat) {
    forall i, j, k :: m <= i < j < k < |secs| && secs[i] == secs[k] ==> secs[i] == secs[j]
  }

  function Times(secs: seq<Int32>, s: Int32): nat {
    if secs == [] then 0 else (if secs[0] == s then 1 else 0) + Times(secs[1..], s)
  }

  // The second the generator holds at the start may come back, but only so often that the new ordinals
  // do not reach those handed out before.
  ghost predicate Fresh(g: Gen, secs: seq<Int32>) {
    var m := Initial(g, secs);
    NoneReturns(secs, m) && (m == 0 || Times(secs[m..], g.lastSec) <= g.incrementer)
  }

  lemma {:induction false} InitialOrdinal(g: Gen, secs: seq<Int32>, k: nat)
    requires k < Initial(g, secs)
    ensures Ordinal(g, secs, k) == g.incrementer + k + 1
  {
    if k > 0 {
      assert secs[k - 1] == secs[k];
      InitialOrdinal(g, secs, k - 1);
    }
  }

  // Where the run of readings that ends at k began.
  lemma {:induction false} RunStart(g: Gen, secs: seq<Int32>, k: nat) returns (p: nat)
    requires Initial(g, secs) <= k < |secs|
    ensures Initial(g, secs) <= p <= k && forall i :: p <= i <= k ==> secs[i] == secs[k]
    ensures Ordinal(g, secs, p) == 1 && Ordinal(g, secs, k) == 1 + (k - p)
  {
    if secs[k] != (if k == 0 then g.lastSec else secs[k - 1]) {
      p := k;
    } else {
      assert k > Initial(g, secs);
      p := RunStart(g, secs, k - 1);
    }
  }

  lemma {:induction false} TimesAtLeast(secs: seq<Int32>, s: Int32, a: nat, b: nat)
    requires a <= b <= |secs| && forall i :: a <= i < b ==> secs[i] == s
    ensures Times(secs, s) >= b - a
  {
    if secs != [] && b > 0 {
      var rest := secs[1..];
      assert forall i :: 0 <= i < |rest| ==> rest[i] == secs[i + 1];
      TimesAtLeast(rest, s, if a > 0 then a - 1 else 0, b - 1);
    }
  }

  // If no second returns, one that shows more than n times shows n + 1 times in a row.
  lemma {:induction false} InARow(secs: seq<Int32>, s: Int32, n: nat) returns (a: nat)
    requires NoneReturns(secs, 0) && Times(secs, s) > n
    ensures a + n < |secs| && forall i :: a <= i <= a + n ==> secs[i] == s
  {
    var rest := secs[1..];
    assert forall i :: 0 <= i < |rest| ==> rest[i] == secs[i + 1];
    assert NoneReturns(rest, 0);
    if Times(rest, s) > n {
      a := InARow(rest, s, n);
      a := a + 1;
    } else if n == 0 {
      a := 0;
    } else {
      var b := InARow(rest, s, n - 1);
      assert secs[0] == s == secs[b + 1];
      assert forall j :: 0 < j < b + 1 ==> secs[j] == s;
      assert forall i :: 0 <= i < b + n ==> rest[i] == s;
      TimesAtLeast(rest, s, 0, b + n);
      a := 0;
    }
  }

  lemma FreshDistinct(g: Gen, secs: seq<Int32>, j: nat, k: nat)
    requires Fresh(g, secs) && j < k < |secs| && secs[j] == secs[k]
    ensures Ordinal(g, secs, j) != Ordinal(g, secs, k)
  {
    var m := Initial(g, secs);
    if k < m || m <= j {
      OrdinalRun(g, secs, j, k);
    } else {
      var p := RunStart(g, secs, k);
      assert forall i :: p - m <= i < k + 1 - m ==> secs[m..][i] == g.lastSec;
      TimesAtLeast(secs[m..], g.lastSec, p - m, k + 1 - m);
      InitialOrdinal(g, secs, j);
    }
  }

  // A second that comes back starts again with 1.
  lemma ReturnRepeats(g: Gen, secs: seq<Int32>) returns (p: nat, q: nat)
    requires !NoneReturns(secs, Initial(g, secs))
    ensures p < q < |secs| && secs[p] == secs[q] && Ordinal(g, secs, p) == Ordinal(g, secs, q)
  {
    var i, j, k :| Initial(g, secs) <= i < j < k < |secs| && secs[i] == secs[k] && secs[i] != secs[j];
    p := RunStart(g, secs, i);
    q := RunStart(g, secs, k);
  }

  // And the one held at the start gets as far as the first ordinal handed out for it.
  lemma OvertakenRepeats(g: Gen, secs: seq<Int32>) returns (q: nat)
    requires var m := Initial(g, secs); m > 0 && NoneReturns(secs, m) && Times(secs[m..], g.lastSec) > g.incrementer
    requires g.incrementer >= 1
    ensures 0 < q < |secs| && secs[0] == secs[q] && Ordinal(g, secs, 0) == Ordinal(g, secs, q)
  {
    var m := Initial(g, secs);
    var late := secs[m..];
    assert forall i :: 0 <= i < |late| ==> late[i] == secs[m + i];
    var a := InARow(late, g.lastSec, g.incrementer);
    hide Ordinal, Initial, Times, NoneReturns;
    forall i | m + a <= i <= m + a + g.incrementer ensures secs[i] == g.lastSec {
      assert secs[i] == late[i - m];
    }
    InitialOrdinal(g, secs, 0);
    q := LongRunReaches(g, secs, m + a);
  }

  lemma LongRunReaches(g: Gen, secs: seq<Int32>, b: nat) returns (q: nat)
    requires Initial(g, secs) <= b && 1 <= g.incrementer && b + g.incrementer < |secs|
    requires forall i :: b <= i <= b + g.incrementer ==> secs[i] == g.lastSec
    ensures Initial(g, secs) <= q < |secs| && secs[q] == g.lastSec && Ordinal(g, secs, q) == g.incrementer + 1
  {
    hide Ordinal, Initial;
    var p := RunStart(g, secs, b);
    q := p + g.incrementer;
    OrdinalRun(g, secs, p, q);
  }

  // Over every run for which the counter has room, no timestamp is handed out twice if and only if no
  // second comes round again, save the one held at the start and that not too often. The counter is at
  // least 1 from the start on.
  lemma GeneratedDistinctIff(g: Gen, calls: seq<Call>)
    requires Room(g, |Readings(calls)|) && g.incrementer >= 1
    ensures Distinct(Generated(g, calls)) <==> Fresh(g, Readings(calls))
  {
    var secs, out := Readings(calls), Generated(g, calls);
    GeneratedStamps(g, calls);
    if Fresh(g, secs) {
      forall j, k | 0 <= j < k < |out| ensures out[j] != out[k] {
        if secs[j] == secs[k] {
          FreshDistinct(g, secs, j, k);
        }
      }
    } else if !NoneReturns(secs, Initial(g, secs)) {
      var p, q := ReturnRepeats(g, secs);
      assert out[p] == out[q];
    } else {
      var q := OvertakenRepeats(g, secs);
      assert out[0] == out[q];
    }
  }

  // So a clock that never goes back repeats nothing.
  lemma GeneratedDistinct(g: Gen, calls: seq<Call>)
    requires Room(g, |Readings(calls)|) && NeverBack(calls)
    ensures Distinct(Generated(g, calls))
  {
    GeneratedIncreaseIff(g, calls);
  }

  // A clock set back from a second it has shown, and showing it again, hands out the same timestamp twice.
  lemma SetBackRepeats()
    ensures var out := Generated(Gen(0, 1), [Call(0, 0, 5000), Call(0, 0, 4000), Call(0, 0, 5000)]);
      |out| == 3 && out[0] == out[2]
  {
    var calls := [Call(0, 0, 5000), Call(0, 0, 4000), Call(0, 0, 5000)];
    var g1, g2 := Gen(5, 1), Gen(4, 1);
    assert Next(Gen(0, 1), calls[0]) == g1 && Next(g1, calls[1]) == g2 && Next(g2, calls[2]) == g1;
    assert calls[1..] == [calls[1], calls[2]] && calls[1..][1..] == [calls[2]] && [calls[2]][1..] == [];
    assert Generated(g2, [calls[2]]) == [BsonTime(5, 1)];
    assert Generated(g1, calls[1..]) == [BsonTime(4, 1), BsonTime(5, 1)];
  }
}
