// `Array.shuffle` of types.js, with `Random.randInt` of utils.js.
module Shuffle {

  // Math.floor(Random.rand() * n), where rand is at least 0 and below 1.
  function RandInt(r: real, n: nat): (k: nat)
    requires 0.0 <= r < 1.0 && n > 0
    ensures k < n && k as real <= r * n as real < k as real + 1.0
  {
    var x := r * n as real;
    assert 0.0 <= x < n as real;
    x.Floor
  }

  // The choices of a shuffle of n elements: one for each place but the last, from it on.
  ghost predicate Choices(n: nat, c: seq<nat>) {
    |c| == (if n == 0 then 0 else n - 1) && forall i :: 0 <= i < |c| ==> c[i] < n - i
  }

  function Swapped<T>(s: seq<T>, j: nat): (t: seq<T>)
    requires j < |s|
    ensures |t| == |s| && t[0] == s[j]
  {
    s[0 := s[j]][j := s[0]]
  }

  // The order the choices lead to: the chosen element first, then the rest shuffled.
  function Shuffled<T>(s: seq<T>, c: seq<nat>): (t: seq<T>)
    requires Choices(|s|, c)
    ensures |t| == |s|
    decreases |s|
  {
    if |s| <= 1 then s
    else
      var t := Swapped(s, c[0]);
      [t[0]] + Shuffled(t[1..], c[1..])
  }

  lemma SwappedTwice<T>(s: seq<T>, j: nat)
    requires j < |s|
    ensures Swapped(Swapped(s, j), j) == s && multiset(Swapped(s, j)) == multiset(s)
  {
  }

  lemma {:induction false} ShuffledPermutes<T>(s: seq<T>, c: seq<nat>)
    requires Choices(|s|, c)
    ensures multiset(Shuffled(s, c)) == multiset(s)
    decreases |s|
  {
    if |s| > 1 {
      hide Swapped, Shuffled;
      var t := Swapped(s, c[0]);
      SwappedTwice(s, c[0]);
      ShuffledPermutes(t[1..], c[1..]);
      ShuffleStep(s, c);
      FirstAndRest(t, Shuffled(t[1..], c[1..]));
    } else {
      ShuffledFew(s, c);
    }
  }

  lemma ShuffleStep<T>(s: seq<T>, c: seq<nat>)
    requires Choices(|s|, c) && |s| > 1
    ensures Choices(|s| - 1, c[1..])
    ensures Shuffled(s, c) == [s[c[0]]] + Shuffled(Swapped(s, c[0])[1..], c[1..])
  {
  }

  lemma ShuffledFew<T>(s: seq<T>, c: seq<nat>)
    requires Choices(|s|, c) && |s| <= 1
    ensures Shuffled(s, c) == s
  {
  }

  lemma FirstAndRest<T>(t: seq<T>, rest: seq<T>)
    requires t != [] && multiset(rest) == multiset(t[1..])
    ensures multiset([t[0]] + rest) == multiset(t)
  {
    assert t == [t[0]] + t[1..];
  }

  ghost predicate Distinct<T>(s: seq<T>) {
    forall i, j :: 0 <= i < j < |s| ==> s[i] != s[j]
  }

  lemma DistinctTail<T>(s: seq<T>, j: nat)
    requires Distinct(s) && j < |s|
    ensures Distinct(Swapped(s, j)[1..])
  {
    var t := Swapped(s, j);
    forall a, b | 0 <= a < b < |t| ensures t[a] != t[b] {
    }
  }

  // Different choices lead to different orders.
  lemma {:induction false} ShuffledInjective<T>(s: seq<T>, c: seq<nat>, d: seq<nat>)
    requires Distinct(s) && Choices(|s|, c) && Choices(|s|, d)
    requires Shuffled(s, c) == Shuffled(s, d)
    ensures c == d
    decreases |s|
  {
    if |s| > 1 {
      assert Shuffled(s, c)[0] == s[c[0]] && Shuffled(s, d)[0] == s[d[0]];
      assert c[0] == d[0];
      var t := Swapped(s, c[0]);
      DistinctTail(s, c[0]);
      assert Shuffled(s, c)[1..] == Shuffled(t[1..], c[1..]);
      assert Shuffled(s, d)[1..] == Shuffled(t[1..], d[1..]);
      ShuffledInjective(t[1..], c[1..], d[1..]);
      assert c == [c[0]] + c[1..] && d == [d[0]] + d[1..];
    }
  }

  // Every order is reached.
  lemma {:induction false} ShuffledSurjective<T>(s: seq<T>, t: seq<T>) returns (c: seq<nat>)
    requires multiset(s) == multiset(t)
    ensures Choices(|s|, c) && Shuffled(s, c) == t
    decreases |s|
  {
    assert |s| == |multiset(s)| == |multiset(t)| == |t|;
    if |s| <= 1 {
      FewSame(s, t);
      c := [];
    } else {
      hide Shuffled, Swapped;
      assert t[0] in multiset(s);
      var j :| 0 <= j < |s| && s[j] == t[0];
      var u := Swapped(s, j);
      SwappedTwice(s, j);
      SameTails(u, t);
      var rest := ShuffledSurjective(u[1..], t[1..]);
      c := [j] + rest;
      Prepend(s, t, j, rest);
    }
  }

  lemma FewSame<T>(s: seq<T>, t: seq<T>)
    requires multiset(s) == multiset(t) && |s| == |t| <= 1
    ensures s == t
  {
    if |s| == 1 {
      assert s[0] in multiset(t);
    }
  }

  lemma SameTails<T>(u: seq<T>, t: seq<T>)
    requires u != [] && t != [] && u[0] == t[0] && multiset(u) == multiset(t)
    ensures multiset(u[1..]) == multiset(t[1..])
  {
    assert u == [u[0]] + u[1..] && t == [t[0]] + t[1..];
    assert multiset(u[1..]) == multiset(u) - multiset{u[0]};
    assert multiset(t[1..]) == multiset(t) - multiset{t[0]};
  }

  lemma Prepend<T>(s: seq<T>, t: seq<T>, j: nat, rest: seq<nat>)
    requires |s| > 1 && |t| == |s| && j < |s| && s[j] == t[0] && Choices(|s| - 1, rest)
    requires Shuffled(Swapped(s, j)[1..], rest) == t[1..]
    ensures Choices(|s|, [j] + rest) && Shuffled(s, [j] + rest) == t
  {
    var c := [j] + rest;
    assert c[1..] == rest;
    ShuffleStep(s, c);
    hide Shuffled;
    assert t == [t[0]] + t[1..];
  }

  // So for distinct elements each order comes from exactly one sequence of choices, and choices made
  // uniformly make every order equally likely.
  lemma OneWayEach<T>(s: seq<T>, t: seq<T>) returns (c: seq<nat>)
    requires Distinct(s) && multiset(s) == multiset(t)
    ensures Choices(|s|, c) && Shuffled(s, c) == t
    ensures forall d :: Choices(|s|, d) && Shuffled(s, d) == t ==> d == c
  {
    c := ShuffledSurjective(s, t);
    forall d | Choices(|s|, d) && Shuffled(s, d) == t ensures d == c {
      ShuffledInjective(s, d, c);
    }
  }

  // The choices that draws from [0, 1) come to.
  function Drawn(n: nat, rand: seq<real>): (c: seq<nat>)
    requires |rand| == (if n == 0 then 0 else n - 1) && forall i :: 0 <= i < |rand| ==> 0.0 <= rand[i] < 1.0
    ensures Choices(n, c) && forall i :: 0 <= i < |rand| ==> c[i] == RandInt(rand[i], n - i)
  {
    seq(|rand|, i requires 0 <= i < |rand| => RandInt(rand[i], n - i))
  }

  // The loop swaps in place. rand[i] is the i-th draw of Random.rand.
  method ShuffleInPlace<T>(arr: array<T>, rand: seq<real>)
    requires |rand| == (if arr.Length == 0 then 0 else arr.Length - 1)
    requires forall i :: 0 <= i < |rand| ==> 0.0 <= rand[i] < 1.0
    modifies arr
    ensures arr[..] == Shuffled(old(arr[..]), Drawn(arr.Length, rand))
    ensures multiset(arr[..]) == multiset(old(arr[..]))
  {
    hide RandInt, Drawn, Shuffled;
    ghost var c := Drawn(arr.Length, rand);
    ghost var was, now := arr[..], arr[..];
    ShuffledPermutes(was, c);
    WholeRemains(was, c);
    var i := 0;
    while i < arr.Length - 1
      invariant 0 <= i && (i <= arr.Length - 1 || i == arr.Length == 0)
      invariant arr[..] == now && Remaining(now, c, i, Shuffled(was, c))
    {
      var pos := i + RandInt(rand[i], arr.Length - i);
      InPlaceStep(now, c, i, pos, Shuffled(was, c));
      var save := arr[i];
      arr[i] := arr[pos];
      arr[pos] := save;
      now := now[i := now[pos]][pos := now[i]];
      i := i + 1;
    }
    NothingRemains(now, c, i, Shuffled(was, c));
  }

  // The first i places are final; shuffling the rest gives the final order.
  ghost predicate Remaining<T>(s: seq<T>, c: seq<nat>, i: nat, final: seq<T>) {
    i <= |c| && i <= |s| && Choices(|s| - i, c[i..]) && final == s[..i] + Shuffled(s[i..], c[i..])
  }

  lemma WholeRemains<T>(s: seq<T>, c: seq<nat>)
    requires Choices(|s|, c)
    ensures Remaining(s, c, 0, Shuffled(s, c))
  {
    assert s[0..] == s && c[0..] == c && s[..0] + Shuffled(s, c) == Shuffled(s, c);
  }

  lemma NothingRemains<T>(s: seq<T>, c: seq<nat>, i: nat, final: seq<T>)
    requires Remaining(s, c, i, final) && |s| - i <= 1
    ensures s == final
  {
    assert s[..i] + s[i..] == s;
  }

  lemma InPlaceStep<T>(s: seq<T>, c: seq<nat>, i: nat, pos: nat, final: seq<T>)
    requires Remaining(s, c, i, final) && i + 1 < |s| && i < |c| && pos == i + c[i]
    ensures pos < |s| && Remaining(s[i := s[pos]][pos := s[i]], c, i + 1, final)
  {
    assert c[i..][0] == c[i] && c[i..][1..] == c[i + 1..];
    SwapStep(s, c[i..], i, pos);
  }

  lemma SwapStep<T>(s: seq<T>, c: seq<nat>, i: nat, pos: nat)
    requires i + 1 < |s| && Choices(|s| - i, c) && pos < |s| && pos == i + c[0]
    ensures Choices(|s| - i - 1, c[1..])
    ensures var t := s[i := s[pos]][pos := s[i]];
      s[..i] + Shuffled(s[i..], c) == t[..i + 1] + Shuffled(t[i + 1..], c[1..])
  {
    var t := s[i := s[pos]][pos := s[i]];
    hide Shuffled;
    ShuffleStep(s[i..], c);
    SwapTail(s, i, pos);
    assert t[..i + 1] == s[..i] + [s[pos]];
  }

  lemma SwapTail<T>(s: seq<T>, i: nat, pos: nat)
    requires i <= pos < |s|
    ensures var t := s[i := s[pos]][pos := s[i]];
      t[i..] == Swapped(s[i..], pos - i) && t[i..][1..] == t[i + 1..]
  {
  }
}
