// `getLastOpTimeWritten` and `awaitReplication` of replsettest.js, against members whose oplogs move on
// between every two reads.
module Replication {
  import opened Text
  import opened Friendly
  import opened FriendlyEqualProofs
  import opened Attempt

  datatype OpTime = OpTime(t: int, i: int)

  predicate Before(a: OpTime, b: OpTime) {
    a.t < b.t || (a.t == b.t && a.i < b.i)
  }

  predicate AtLeast(a: OpTime, b: OpTime) {
    a == b || Before(b, a)
  }

  // An oplog's newest entry, None while there is no entry. It only ever moves on.
  predicate Onward(a: Option<OpTime>, b: Option<OpTime>) {
    a.Some? ==> b.Some? && AtLeast(b.value, a.value)
  }

  predicate Reached(head: Option<OpTime>, mark: Option<OpTime>) {
    Onward(mark, head)
  }

  // Timestamp.prototype.toString
  function TimestampText(x: OpTime): string {
    "Timestamp(" + IntText(x.t) + ", " + IntText(x.i) + ")"
  }

  // friendlyEqual of two distinct Timestamp objects.
  function SameTimestamp(a: OpTime, b: OpTime): bool {
    var s, t := TimestampText(a), TimestampText(b);
    if s == t then true else Clean(s) == Clean(t)
  }

  // It is equality of time and ordinal: the printed texts differ and hold nothing to clean up.
  lemma SameTimestampIff(a: OpTime, b: OpTime)
    ensures SameTimestamp(a, b) <==> a == b
  {
    var s, t := TimestampText(a), TimestampText(b);
    CleanSame(s);
    CleanSame(t);
    if s == t {
      TextParts(a);
      TextParts(b);
      CommaAt(a, b);
      IntTextInjective(a.t, b.t);
      IntTextInjective(a.i, b.i);
    }
  }

  lemma TextParts(x: OpTime)
    ensures var s := TimestampText(x);
      var n := |IntText(x.t)|;
      && |s| == 13 + n + |IntText(x.i)|
      && s[10..10 + n] == IntText(x.t) && s[10 + n] == ',' && s[12 + n..|s| - 1] == IntText(x.i)
  {
  }

  // The first comma of the text ends the time.
  lemma CommaAt(a: OpTime, b: OpTime)
    requires TimestampText(a) == TimestampText(b)
    ensures |IntText(a.t)| == |IntText(b.t)|
  {
    TextParts(a);
    TextParts(b);
    NoComma(a);
    NoComma(b);
  }

  lemma NoComma(x: OpTime)
    ensures forall i :: 10 <= i < 10 + |IntText(x.t)| ==> TimestampText(x)[i] != ','
  {
    TextParts(x);
    var n := |IntText(x.t)|;
    assert forall i :: 0 <= i < n ==> TimestampText(x)[10..10 + n][i] == IntText(x.t)[i];
    assert forall i :: 10 <= i < 10 + n ==> TimestampText(x)[i] == TimestampText(x)[10..10 + n][i - 10];
  }

  class ReplSetTest {
    // The secondaries; which of them are arbiters does not change.
    const arbiter: seq<bool>

    // The world: newest oplog entries of the primary and of every secondary.
    var primary: Option<OpTime>
    var heads: seq<Option<OpTime>>

    // this.liveNodes.slaves, and this.latest.
    var live: seq<nat>
    var latest: OpTime

    // How many queries, and searches for the primary, have failed.
    ghost var failures: nat

    ghost predicate Valid()
      reads this
    {
      |heads| == |arbiter| && forall k :: 0 <= k < |live| ==> live[k] < |heads|
    }

    // From one state of the world to a later one.
    twostate predicate Later()
      reads this
    {
      && Onward(old(primary), primary)
      && |heads| == |old(heads)|
      && forall j :: 0 <= j < |heads| ==> Onward(old(heads)[j], heads[j])
    }

    // Every live secondary that is no arbiter holds this entry.
    ghost predicate AllAt(mark: OpTime)
      requires Valid()
      reads this
    {
      forall k :: 0 <= k < |live| && !arbiter[live[k]] ==> heads[live[k]] == Some(mark)
    }

    // And has held it ever since.
    twostate predicate StillAt(mark: OpTime)
      requires Valid() && |old(heads)| == |heads|
      reads this
    {
      AllAt(mark) && forall k :: 0 <= k < |live| && !arbiter[live[k]] ==> old(heads)[live[k]] == Some(mark)
    }

    constructor (arbiter: seq<bool>, primary: Option<OpTime>, heads: seq<Option<OpTime>>)
      requires |arbiter| == |heads|
      ensures Valid() && this.arbiter == arbiter && this.primary == primary && this.heads == heads
    {
      this.arbiter, this.primary, this.heads := arbiter, primary, heads;
      this.live, this.latest, this.failures := [], OpTime(0, 0), 0;
    }

    // Between any two reads every oplog may grow.
    method Time()
      requires Valid()
      modifies this`primary, this`heads
      ensures Valid() && Later()
    {
      assert Onward(primary, primary);
      var p :| Onward(primary, p);
      assert forall j :: 0 <= j < |heads| ==> Onward(heads[j], heads[j]);
      var hs: seq<Option<OpTime>> :| |hs| == |heads| && forall j :: 0 <= j < |heads| ==> Onward(heads[j], hs[j]);
      primary, heads := p, hs;
    }

    // One query; any of them may fail.
    method Query() returns (ok: bool)
      requires Valid()
      modifies this`primary, this`heads, this`failures
      ensures Valid() && Later() && failures == old(failures) + if ok then 0 else 1
    {
      Time();
      ok := *;
      if !ok {
        failures := failures + 1;
      }
    }

    // getMaster: the primary stays the primary, and the live slaves are whichever secondaries answer.
    // Throws when no primary is found in time.
    method GetMaster() returns (ok: bool)
      requires Valid()
      modifies this`primary, this`heads, this`live, this`failures
      ensures Valid() && Later() && failures == old(failures) + if ok then 0 else 1
    {
      Time();
      var nodes: seq<nat> := [];
      var j := 0;
      while j < |heads|
        invariant 0 <= j <= |heads|
        invariant forall k :: 0 <= k < |nodes| ==> nodes[k] < |heads|
      {
        if * {
          nodes := nodes + [j];
        }
        j := j + 1;
      }
      live := nodes;
      ok := *;
      if !ok {
        failures := failures + 1;
      }
    }

    // this.latest becomes the primary's newest entry; once the primary is found, retried for 30 seconds.
    method GetLastOpTimeWritten() returns (ok: bool, tries: nat)
      requires Valid()
      modifies this
      ensures Valid() && Later()
      ensures ok ==> Reached(Some(latest), old(primary)) && Reached(primary, Some(latest))
      ensures !ok ==> latest == old(latest)
      ensures failures >= old(failures) && (failures == old(failures) && old(primary).Some? ==> ok)
      ensures tries > 0 ==> (tries - 1) * 2000 <= 30000 && (!ok ==> tries * 2000 > 30000)
      ensures !ok && tries == 0 ==> failures > old(failures)
    {
      tries := 0;
      ok := GetMaster();
      if !ok {
        return;
      }
      while true
        invariant Valid() && Later() && tries <= 15 && latest == old(latest)
        invariant failures >= old(failures)
        invariant failures == old(failures) && old(primary).Some? ==> tries == 0
        decreases 15 - tries
      {
        ok := Query();
        tries := tries + 1;
        if ok && primary.Some? {
          latest := primary.value;
          return;
        }
        if tries * 2000 > 30000 {
          return false, tries;
        }
      }
    }

    // The body of awaitReplication's try block.
    method CheckSecondaries() returns (result: Outcome<()>)
      requires Valid()
      modifies this`primary, this`heads, this`latest, this`failures
      ensures Valid() && Later()
      ensures result.Done? ==> latest == old(latest)
      // It does not end otherwise without a reason, nor move the mark without a secondary beyond it.
      ensures failures >= old(failures) && (result.Threw? ==> failures > old(failures) || old(primary).None?)
      ensures result.Failed? ==> !StillAt(old(latest))
      ensures latest != old(latest) ==>
        exists k :: 0 <= k < |live| && !arbiter[live[k]] && heads[live[k]].Some?
                    && Before(old(latest), heads[live[k]].value)
      ensures result.Done? ==>
        forall k :: 0 <= k < |live| && !arbiter[live[k]] ==> Reached(heads[live[k]], Some(latest))
      ensures latest == old(latest) || Reached(Some(latest), old(primary))
    {
      hide SameTimestamp, TimestampText;
      var i := 0;
      while i < |live|
        invariant 0 <= i <= |live| && Valid() && Later() && latest == old(latest) && failures == old(failures)
        invariant forall k :: 0 <= k < i && !arbiter[live[k]] ==> Reached(heads[live[k]], Some(latest))
      {
        var slave := live[i];
        var ok := Query();
        if !ok {
          return Threw;
        }
        if !arbiter[slave] {
          ok := Query();
          if !ok {
            return Threw;
          }
          var hasNext := heads[slave].Some?;
          if !hasNext {
            return Failed;
          }
          ok := Query();
          if !ok {
            return Threw;
          }
          var ts := heads[slave].value;
          if Before(latest, ts) {
            ok := Query();
            if !ok || primary.None? {
              return Threw;
            }
            latest := primary.value;
            return Failed;
          }
          SameTimestampIff(latest, ts);
          if !SameTimestamp(latest, ts) {
            return Failed;
          }
        }
        i := i + 1;
      }
      return Done(());
    }

    // One call of the function awaitReplication hands to jsTest.attempt.
    method Try() returns (result: Outcome<()>)
      requires Valid()
      modifies this
      ensures Valid() && Later()
      ensures result.Done? ==>
        forall k :: 0 <= k < |live| && !arbiter[live[k]] ==> Reached(heads[live[k]], Some(latest))
      ensures latest == old(latest) || Reached(Some(latest), old(primary))
      ensures failures >= old(failures) && (result.Threw? ==> failures > old(failures) || old(primary).None?)
      ensures failures == old(failures) && old(primary).Some? ==>
        live == old(live) && (StillAt(old(latest)) ==> result.Done?)
    {
      result := CheckSecondaries();
      if result.Threw? {
        label failed:
        var ok, _ := GetLastOpTimeWritten();
        result := if ok then Failed else Threw;
      }
    }

    // When awaitReplication returns, every live secondary that is no arbiter has caught up with what the
    // primary had written by the time of the call.
    method AwaitReplication(timeout: Option<nat>) returns (result: Attempted<()>, calls: nat)
      requires Valid()
      modifies this
      ensures Valid() && Later()
      ensures result.Returned? ==>
        forall k :: 0 <= k < |live| && !arbiter[live[k]] ==>
          Reached(heads[live[k]], Some(latest)) && Reached(heads[live[k]], old(primary))
      ensures result.Returned? && old(primary).Some? ==>
        forall k :: 0 <= k < |live| && !arbiter[live[k]] ==>
          var was, head := old(primary).value, heads[live[k]];
          head.Some? && (head.value.t > was.t || (head.value.t == was.t && head.value.i >= was.i))
      // It gives up by the time it was given, 30000 if that is absent or 0, and no earlier.
      ensures var limit := if timeout == None || timeout == Some(0) then 30000 else timeout.value;
        && (calls > 0 ==> (calls - 1) * 2000 <= limit)
        && (result.TimedOut? ==> calls > 0 && calls * 2000 > limit)
      ensures result.Raised? ==> failures > old(failures) || old(primary).None?
      // If nothing moves and nothing fails, secondaries that hold the primary's newest entry are seen at once.
      ensures failures == old(failures) && primary.Some? && old(primary) == primary && StillAt(primary.value) ==>
        result.Returned? && calls == 1
    {
      calls := 0;
      var limit := Given(timeout, 30000);
      var ok, _ := GetLastOpTimeWritten();
      if !ok {
        return Raised, 0;
      }
      while true
        invariant Valid() && Later() && calls < MaxCalls(limit, 2000) && calls * 2000 <= limit
        invariant Reached(Some(latest), old(primary)) && failures >= old(failures)
        invariant calls == 0 ==> Reached(primary, Some(latest))
        invariant calls > 0 && failures == old(failures) && old(primary).Some? && primary == old(primary) ==>
          !StillAt(primary.value)
        decreases MaxCalls(limit, 2000) - calls
      {
        var outcome := Try();
        calls := calls + 1;
        if outcome.Done? {
          return Returned(()), calls;
        }
        if outcome.Threw? {
          return Raised, calls;
        }
        GivesUp(calls, limit, 2000);
        if calls * 2000 > limit {
          return TimedOut, calls;
        }
      }
    }
  }
}
