// `jsTest.attempt` of utils.js: call a function until it answers something other than false, or give up.
module Attempt {
  import opened Text

  // What one call of the function comes to: false, another answer, or an exception, which passes through.
  datatype Outcome<T> = Failed | Done(value: T) | Threw

  datatype Attempted<T> = Returned(value: T) | TimedOut | Raised

  // `opts.timeout || 1000` and `opts.sleepTime || 2000`: absent and 0 both take the default.
  function Given(option: Option<nat>, default: nat): (r: nat)
    requires default > 0
    ensures r > 0
  {
    if option.None? || option.value == 0 then default else option.value
  }

  // The number of calls after which it gives up.
  function MaxCalls(timeout: nat, sleepTime: nat): (n: nat)
    requires sleepTime > 0
    ensures n > 0
  {
    QuotientNotNegative(timeout, sleepTime);
    timeout / sleepTime + 1
  }

  // Too many tries, by their sleeping time, are exactly those past the last allowed call.
  lemma GivesUp(tries: nat, timeout: nat, sleepTime: nat)
    requires sleepTime > 0
    ensures tries * sleepTime > timeout <==> tries >= MaxCalls(timeout, sleepTime)
  {
    var q := timeout / sleepTime;
    assert timeout == sleepTime * q + timeout % sleepTime;
    if tries >= q + 1 {
      Scale(q + 1, tries, sleepTime);
      assert sleepTime * (q + 1) == sleepTime * q + sleepTime;
    } else {
      Scale(tries, q, sleepTime);
    }
  }

  lemma Scale(x: nat, y: nat, d: nat)
    requires x <= y
    ensures x * d <= y * d && x * d == d * x && y * d == d * y
  {
    assert (y - x) * d >= 0;
    assert (y - x) * d == y * d - x * d;
  }

  // The first call that does not answer false, or n if none of the first n does.
  function FirstAnswer<T>(outcomes: nat -> Outcome<T>, n: nat): (k: nat)
    ensures k <= n && (forall i :: 0 <= i < k ==> outcomes(i).Failed?) && (k < n ==> !outcomes(k).Failed?)
  {
    if n == 0 then 0
    else
      var k := FirstAnswer(outcomes, n - 1);
      if k < n - 1 || !outcomes(k).Failed? then k else n
  }

  // outcomes(i) is what call i, counting from 0, comes to.
  method Attempt<T>(timeout: Option<nat>, sleepTime: Option<nat>, outcomes: nat -> Outcome<T>)
    returns (r: Attempted<T>, calls: nat)
    ensures var n := MaxCalls(Given(timeout, 1000), Given(sleepTime, 2000));
      var k := FirstAnswer(outcomes, n);
      && calls == (if k < n then k + 1 else n)
      && r == (if k == n then TimedOut else if outcomes(k).Done? then Returned(outcomes(k).value) else Raised)
    // It gives up by the times it was given, 1000 and 2000 standing for what is absent or 0, and no earlier.
    ensures var limit := if timeout == None || timeout == Some(0) then 1000 else timeout.value;
      var pause := if sleepTime == None || sleepTime == Some(0) then 2000 else sleepTime.value;
      calls > 0 && (calls - 1) * pause <= limit && (r.TimedOut? ==> calls * pause > limit)
    ensures forall i :: 0 <= i < calls - 1 ==> outcomes(i).Failed?
    ensures r.TimedOut? <==> outcomes(calls - 1).Failed?
    ensures outcomes(calls - 1).Done? ==> r == Returned(outcomes(calls - 1).value)
    ensures outcomes(calls - 1).Threw? ==> r == Raised
  {
    var limit, pause := Given(timeout, 1000), Given(sleepTime, 2000);
    ghost var n := MaxCalls(limit, pause);
    var tries := 0;
    calls := 0;
    while true
      invariant tries == calls < n && tries * pause <= limit
      invariant forall i :: 0 <= i < calls ==> outcomes(i).Failed?
      decreases n - calls
    {
      var result := outcomes(calls);
      calls := calls + 1;
      if !result.Failed? {
        return if result.Done? then Returned(result.value) else Raised, calls;
      }
      tries := tries + 1;
      GivesUp(tries, limit, pause);
      if tries * pause > limit {
        return TimedOut, calls;
      }
    }
  }
}
