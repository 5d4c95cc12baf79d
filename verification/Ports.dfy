// Port bookkeeping of MongoRunner in servers.js: usedPortMap, nextOpenPort, and the ports of
// processes started and stopped.
module Ports {
  import opened Text

  // The least port from p up that is not in used: at most |used| steps away.
  ghost function LeastFrom(used: set<int>, p: int): (r: int)
    ensures p <= r <= p + |used|
    ensures r !in used && forall q :: p <= q < r ==> q in used
    decreases |used|
  {
    if p !in used then p
    else
      var r := LeastFrom(used - {p}, p + 1);
      assert |used - {p}| == |used| - 1;
      assert r !in used - {p};
      forall q | p <= q < r ensures q in used {
        assert q != p ==> q in used - {p};
      }
      r
  }

  lemma LeastUnique(used: set<int>, p: int, r: int)
    requires p <= r && r !in used && forall q :: p <= q < r ==> q in used
    ensures LeastFrom(used, p) == r
  {
    var l := LeastFrom(used, p);
    assert l < r ==> l in used;
    assert r < l ==> r in used;
  }

  // The keys of usedPortMap for these ports.
  ghost function Keys(ports: set<int>): set<string> {
    set p | p in ports :: IntText(p)
  }

  // Distinct ports have distinct keys.
  lemma KeysExact(ports: set<int>, p: int)
    ensures IntText(p) in Keys(ports) <==> p in ports
  {
    if IntText(p) in Keys(ports) {
      var q :| q in ports && IntText(q) == IntText(p);
      IntTextInjective(p, q);
    }
  }

  ghost function PortsOf(held: multiset<int>): set<int> {
    set p | p in held
  }

  // A port option of None stands for no port or a falsy one.
  datatype Event = Start(port: Option<int>) | Stop(stopped: int)

  // The ports of the processes started and not stopped, one for each process.
  ghost function Held(events: seq<Event>): multiset<int> {
    if events == [] then multiset{}
    else After(Held(events[..|events| - 1]), events[|events| - 1])
  }

  ghost function PortFor(held: multiset<int>, port: Option<int>): int {
    if port.Some? && port.value != 0 then port.value else LeastFrom(PortsOf(held), 27000)
  }

  ghost function After(held: multiset<int>, e: Event): multiset<int> {
    match e
    case Start(port) => held + multiset{PortFor(held, port)}
    case Stop(p) => if p == 0 then held else held[p := 0]
  }

  ghost predicate OneEach(held: multiset<int>) {
    forall p :: held[p] <= 1
  }

  // An explicit port that is not held at the time.
  ghost predicate Careful(held: multiset<int>, e: Event) {
    e.Start? && e.port.Some? && e.port.value != 0 ==> e.port.value !in held
  }

  ghost predicate AlwaysOneEach(events: seq<Event>) {
    forall n :: 0 <= n <= |events| ==> OneEach(Held(events[..n]))
  }

  ghost predicate AlwaysCareful(events: seq<Event>) {
    forall i :: 0 <= i < |events| ==> Careful(Held(events[..i]), events[i])
  }

  // No two processes ever hold one port at once, if and only if no start names a port held then. In
  // particular a run with automatic ports only never gives a port twice.
  lemma {:induction false} DistinctIff(events: seq<Event>)
    ensures AlwaysOneEach(events) <==> AlwaysCareful(events)
  {
    if events == [] {
      assert events[..0] == [];
    } else {
      var n := |events| - 1;
      DistinctIff(events[..n]);
      AlwaysOneEachSnoc(events);
      AlwaysCarefulSnoc(events);
      if AlwaysOneEach(events[..n]) {
        assert events[..n][..n] == events[..n];
        Step(Held(events[..n]), events[n]);
      }
    }
  }

  lemma AlwaysOneEachSnoc(events: seq<Event>)
    requires events != []
    ensures AlwaysOneEach(events) <==> AlwaysOneEach(events[..|events| - 1]) && OneEach(Held(events))
  {
    hide Held, OneEach;
    var n := |events| - 1;
    var front := events[..n];
    assert events[..n + 1] == events;
    forall i | 0 <= i <= n ensures front[..i] == events[..i] {
    }
    if AlwaysOneEach(events) {
      assert OneEach(Held(events[..n + 1]));
      forall i | 0 <= i <= n ensures OneEach(Held(front[..i])) {
        assert OneEach(Held(events[..i]));
      }
    } else {
      var i :| 0 <= i <= n + 1 && !OneEach(Held(events[..i]));
      assert i <= n ==> !OneEach(Held(front[..i]));
    }
  }

  lemma AlwaysCarefulSnoc(events: seq<Event>)
    requires events != []
    ensures var n := |events| - 1;
      AlwaysCareful(events) <==> AlwaysCareful(events[..n]) && Careful(Held(events[..n]), events[n])
  {
    hide Held, Careful;
    var n := |events| - 1;
    var front := events[..n];
    forall i | 0 <= i <= n ensures front[..i] == events[..i] {
    }
    if AlwaysCareful(events) {
      forall i | 0 <= i < n ensures Careful(Held(front[..i]), front[i]) {
        assert Careful(Held(events[..i]), events[i]);
      }
    } else {
      var i :| 0 <= i <= n && !Careful(Held(events[..i]), events[i]);
      assert i < n ==> !Careful(Held(front[..i]), front[i]);
    }
  }

  lemma Step(held: multiset<int>, e: Event)
    requires OneEach(held)
    ensures OneEach(After(held, e)) <==> Careful(held, e)
  {
    if e.Start? {
      var p := PortFor(held, e.port);
      assert After(held, e)[p] == held[p] + 1;
    }
  }

  predicate Within(p: int, most: nat) {
    27000 <= p < 27000 + most
  }

  // Automatic ports alone stay within 27000 and the most processes there were at once.
  lemma {:induction false} AutomaticRange(events: seq<Event>, most: nat)
    requires forall i :: 0 <= i < |events| && events[i].Start? ==> events[i].port == None || events[i].port == Some(0)
    requires forall n :: 0 <= n <= |events| ==> |Held(events[..n])| <= most
    ensures forall p :: p in Held(events) ==> Within(p, most)
  {
    hide Within;
    if events != [] {
      hide Held;
      var n := |events| - 1;
      var front := events[..n];
      forall i | 0 <= i <= n ensures |Held(front[..i])| <= most {
        assert front[..i] == events[..i];
      }
      AutomaticRange(front, most);
      HeldSnoc(front, events[n]);
      assert front + [events[n]] == events[..n + 1] == events;
      AutomaticStep(Held(front), events[n], most);
    }
  }

  lemma AutomaticStep(held: multiset<int>, e: Event, most: nat)
    requires e.Start? ==> e.port == None || e.port == Some(0)
    requires |After(held, e)| <= most && forall p :: p in held ==> Within(p, most)
    ensures forall p :: p in After(held, e) ==> Within(p, most)
  {
    if e.Start? {
      hide PortsOf;
      var least := LeastFrom(PortsOf(held), 27000);
      AutomaticPort(held, least);
      assert |held + multiset{least}| == |held| + 1;
    }
  }

  lemma AutomaticPort(held: multiset<int>, least: int)
    requires least == LeastFrom(PortsOf(held), 27000)
    ensures 27000 <= least <= 27000 + |held|
  {
    forall p | 27000 <= p < least ensures p in held {
      assert p in PortsOf(held);
    }
    Crowded(held, 27000, least);
  }

  lemma {:induction false} Crowded(m: multiset<int>, lo: int, hi: int)
    requires lo <= hi && forall p :: lo <= p < hi ==> p in m
    ensures hi - lo <= |m|
    decreases hi - lo
  {
    if lo < hi {
      Crowded(m - multiset{lo}, lo + 1, hi);
    }
  }

  lemma HeldSnoc(events: seq<Event>, e: Event)
    ensures Held(events + [e]) == After(Held(events), e)
  {
    assert (events + [e])[..|events + [e]| - 1] == events;
  }

  lemma StartKeys(held: multiset<int>, p: int)
    ensures Keys(PortsOf(held + multiset{p})) == Keys(PortsOf(held)) + {IntText(p)}
  {
    assert PortsOf(held + multiset{p}) == PortsOf(held) + {p};
  }

  lemma StopKeys(held: multiset<int>, p: int)
    ensures Keys(PortsOf(held[p := 0])) == Keys(PortsOf(held)) - {IntText(p)}
  {
    var now := PortsOf(held[p := 0]);
    assert now == PortsOf(held) - {p};
    forall q | q in PortsOf(held) && q != p ensures IntText(q) != IntText(p) {
      if IntText(q) == IntText(p) {
        IntTextInjective(q, p);
      }
    }
    assert forall k :: k in Keys(now) <==> k in Keys(PortsOf(held)) - {IntText(p)};
  }

  lemma LeastFree(held: multiset<int>)
    ensures var p := LeastFrom(PortsOf(held), 27000);
      27000 <= p && p !in held && forall q :: 27000 <= q < p ==> q in held
  {
    var p := LeastFrom(PortsOf(held), 27000);
    assert p !in PortsOf(held);
    forall q | 27000 <= q < p ensures q in held {
      assert q in PortsOf(held);
    }
  }

  lemma UsedAre(held: multiset<int>)
    ensures forall p :: IntText(p) in Keys(PortsOf(held)) <==> p in held
  {
    forall p ensures IntText(p) in Keys(PortsOf(held)) <==> p in held {
      KeysExact(PortsOf(held), p);
    }
  }

  class MongoRunner {
    var usedPortMap: map<string, bool>
    ghost var history: seq<Event>

    // The ports in use are the ports held.
    ghost predicate Valid()
      reads this
    {
      && usedPortMap.Keys == Keys(PortsOf(Held(history)))
      && forall k :: k in usedPortMap ==> usedPortMap[k]
    }

    constructor ()
      ensures Valid() && history == []
    {
      usedPortMap, history := map[], [];
    }

    // The loop ends within as many steps as there are used ports.
    method NextOpenPort(ghost used: set<int>) returns (port: int)
      requires usedPortMap.Keys == Keys(used) && forall k :: k in usedPortMap ==> usedPortMap[k]
      modifies this`usedPortMap
      ensures port == LeastFrom(used, 27000)
      ensures usedPortMap == old(usedPortMap)[IntText(port) := true]
    {
      ghost var least := LeastFrom(used, 27000);
      var i := 0;
      while IntText(27000 + i) in usedPortMap && usedPortMap[IntText(27000 + i)]
        invariant 0 <= i <= least - 27000
        invariant usedPortMap == old(usedPortMap)
        invariant forall j :: 27000 <= j < 27000 + i ==> j in used
        decreases least - 27000 - i
      {
        KeysExact(used, 27000 + i);
        i := i + 1;
      }
      KeysExact(used, 27000 + i);
      LeastUnique(used, 27000, 27000 + i);
      usedPortMap := usedPortMap[IntText(27000 + i) := true];
      return 27000 + i;
    }

    // The port of mongoOptions.
    method MongoOptions(given: Option<int>, forgetPort: bool) returns (port: int)
      requires Valid()
      modifies this
      ensures Valid() && history == old(history) + [Start(given)]
      ensures port == PortFor(Held(old(history)), given)
      // A given port is taken as it is; otherwise it is the least from 27000 on that no process holds.
      ensures given.Some? && given.value != 0 ==> port == given.value
      ensures given == None || given == Some(0) ==>
        27000 <= port && port !in Held(old(history)) && forall p :: 27000 <= p < port ==> p in Held(old(history))
      ensures forall p :: Held(history)[p] == Held(old(history))[p] + if p == port then 1 else 0
      ensures forall p :: IntText(p) in usedPortMap <==> p in Held(history)
    {
      hide Held, Keys, IntText, PortsOf;
      ghost var held := Held(history);
      LeastFree(held);
      port := if given.Some? then given.value else 0;
      if !forgetPort && port == 0 {
        port := NextOpenPort(PortsOf(held));
      }
      if port == 0 {
        port := NextOpenPort(PortsOf(held));
      }
      usedPortMap := usedPortMap[IntText(port) := true];
      StartKeys(held, port);
      HeldSnoc(history, Start(given));
      history := history + [Start(given)];
      UsedAre(Held(history));
    }

    // The bookkeeping of stopMongod; a port of 0 is refused.
    method StopMongod(port: int)
      requires Valid()
      modifies this
      ensures Valid() && history == old(history) + [Stop(port)]
      ensures forall p :: Held(history)[p] == if p == port && port != 0 then 0 else Held(old(history))[p]
      ensures forall p :: IntText(p) in usedPortMap <==> p in Held(history)
    {
      hide Held, Keys, IntText, PortsOf;
      UsedAre(After(Held(history), Stop(port)));
      HeldSnoc(history, Stop(port));
      StopKeys(Held(history), port);
      history := history + [Stop(port)];
      if port == 0 {
        return;
      }
      usedPortMap := usedPortMap - {IntText(port)};
    }
  }
}
