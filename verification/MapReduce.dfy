// The shell's incremental map-reduce (mr.js): emitted values pile up in slots, `check` reduces them in
// memory or spills them to a temporary collection, and a last reduce to the collection ends the run.
module MapReduce {
  // One entry of $arr. Only the first `count` values are live; what a reduce leaves behind them is stale.
  datatype Slot<K, V> = Slot(key: K, values: seq<V>, count: nat) {
    predicate Ok() {
      0 < count <= |values|
    }

    // data.values.slice(0, data.count)
    function Live(): seq<V>
      requires Ok()
    {
      values[..count]
    }
  }

  // data.values[data.count++] = v
  function Push<K, V>(data: Slot<K, V>, v: V): (r: Slot<K, V>)
    requires data.count <= |data.values|
    ensures r.Ok() && r.key == data.key && r.count == data.count + 1
    ensures r.Live() == data.values[..data.count] + [v]
  {
    var values := if data.count < |data.values| then data.values[data.count := v] else data.values + [v];
    Slot(data.key, values, data.count + 1)
  }

  // data.values[0] = r; data.count = 1
  function Reset<K, V>(data: Slot<K, V>, v: V): (r: Slot<K, V>)
    ensures r.Ok() && r.key == data.key && r.count == 1 && r.Live() == [v]
  {
    Slot(data.key, if data.values == [] then [v] else data.values[0 := v], 1)
  }

  type Emits<K, V> = seq<(K, V)>

  // Every value emitted under k, in order.
  function AllOf<K(==), V>(k: K, emits: Emits<K, V>): seq<V> {
    if emits == [] then []
    else AllOf(k, emits[..|emits| - 1]) + (if emits[|emits| - 1].0 == k then [emits[|emits| - 1].1] else [])
  }

  // A reduce that may be fed its own results and does not care about order.
  ghost predicate OrderFree<K(!new), V(!new)>(reduce: (K, seq<V>) -> V) {
    forall k, xs, ys :: multiset(xs) == multiset(ys) ==> reduce(k, xs) == reduce(k, ys)
  }

  ghost predicate Rereduces<K(!new), V(!new)>(reduce: (K, seq<V>) -> V) {
    forall k, xs, ys :: ys != [] ==> reduce(k, xs + [reduce(k, ys)]) == reduce(k, xs + ys)
  }

  ghost predicate Lawful<K(!new), V(!new)>(reduce: (K, seq<V>) -> V) {
    OrderFree(reduce) && Rereduces(reduce)
  }

  // parts, reduced, stand for all.
  ghost predicate StandsFor<K, V>(reduce: (K, seq<V>) -> V, k: K, parts: seq<V>, all: seq<V>) {
    parts != [] && all != [] && reduce(k, parts) == reduce(k, all)
  }

  lemma Rereduce<K(!new), V(!new)>(reduce: (K, seq<V>) -> V, k: K, xs: seq<V>, ys: seq<V>)
    requires Lawful(reduce) && ys != []
    ensures reduce(k, xs + [reduce(k, ys)]) == reduce(k, xs + ys)
  {
  }

  lemma Reorder<K(!new), V(!new)>(reduce: (K, seq<V>) -> V, k: K, xs: seq<V>, ys: seq<V>)
    requires Lawful(reduce) && multiset(xs) == multiset(ys)
    ensures reduce(k, xs) == reduce(k, ys)
  {
  }

  lemma Swap<K(!new), V(!new)>(reduce: (K, seq<V>) -> V, k: K, xs: seq<V>, ys: seq<V>)
    requires Lawful(reduce)
    ensures reduce(k, xs + ys) == reduce(k, ys + xs)
  {
    assert multiset(xs + ys) == multiset(ys + xs);
    Reorder(reduce, k, xs + ys, ys + xs);
  }

  // A result stands for what it was reduced from.
  lemma ResultStands<K(!new), V(!new)>(reduce: (K, seq<V>) -> V, k: K, parts: seq<V>, all: seq<V>)
    requires Lawful(reduce) && StandsFor(reduce, k, parts, all)
    ensures StandsFor(reduce, k, [reduce(k, parts)], all) && reduce(k, [reduce(k, parts)]) == reduce(k, parts)
  {
    Rereduce(reduce, k, [], parts);
    assert [] + [reduce(k, parts)] == [reduce(k, parts)] && [] + parts == parts;
  }

  // One more value on both sides.
  lemma OneMore<K(!new), V(!new)>(reduce: (K, seq<V>) -> V, k: K, live: seq<V>, stored: seq<V>, all: seq<V>, v: V)
    requires Lawful(reduce) && StandsFor(reduce, k, live + stored, all)
    ensures StandsFor(reduce, k, live + [v] + stored, all + [v])
  {
    var parts := live + stored;
    assert multiset(live + [v] + stored) == multiset([v] + parts);
    Reorder(reduce, k, live + [v] + stored, [v] + parts);
    Rereduce(reduce, k, [v], parts);
    Rereduce(reduce, k, [v], all);
    Swap(reduce, k, [v], all);
  }

  // Reducing the live values in memory.
  lemma ReducedLive<K(!new), V(!new)>(reduce: (K, seq<V>) -> V, k: K, live: seq<V>, stored: seq<V>, all: seq<V>)
    requires Lawful(reduce) && live != [] && StandsFor(reduce, k, live + stored, all)
    ensures StandsFor(reduce, k, [reduce(k, live)] + stored, all)
  {
    Swap(reduce, k, [reduce(k, live)], stored);
    Rereduce(reduce, k, stored, live);
    Swap(reduce, k, stored, live);
  }

  // The order emits come in is of no consequence.
  lemma OrderIrrelevant<K(!new), V(!new)>(reduce: (K, seq<V>) -> V, k: K, a: Emits<K, V>, b: Emits<K, V>)
    requires Lawful(reduce) && multiset(a) == multiset(b)
    ensures reduce(k, AllOf(k, a)) == reduce(k, AllOf(k, b))
  {
    SameValues(k, a, b);
    Reorder(reduce, k, AllOf(k, a), AllOf(k, b));
  }

  lemma {:induction false} SameValues<K, V>(k: K, a: Emits<K, V>, b: Emits<K, V>)
    requires multiset(a) == multiset(b)
    ensures multiset(AllOf(k, a)) == multiset(AllOf(k, b))
    decreases |a|
  {
    if a == [] {
      assert |multiset(b)| == 0;
      assert b == [];
    } else {
      var e := a[|a| - 1];
      assert a == a[..|a| - 1] + [e];
      assert e in multiset(b);
      var i :| 0 <= i < |b| && b[i] == e;
      var rest := Without(b, i);
      var front := a[..|a| - 1];
      assert multiset(front) == multiset(a) - multiset{e};
      SameValues(k, front, rest);
      WithoutValues(k, b, i);
    }
  }

  ghost function Without<T>(b: seq<T>, i: nat): (r: seq<T>)
    requires i < |b|
    ensures multiset(r) == multiset(b) - multiset{b[i]}
  {
    assert b == b[..i] + [b[i]] + b[i + 1..];
    b[..i] + b[i + 1..]
  }

  lemma WithoutValues<K, V>(k: K, b: Emits<K, V>, i: nat)
    requires i < |b|
    ensures multiset(AllOf(k, b)) == multiset(AllOf(k, Without(b, i))) + multiset(if b[i].0 == k then [b[i].1] else [])
  {
    hide AllOf;
    var x, y := b[..i], b[i + 1..];
    assert b == x + [b[i]] + y;
    AllOfConcat(k, x, y);
    AllOfMiddle(k, x, b[i], y);
    Middle(AllOf(k, x), if b[i].0 == k then [b[i].1] else [], AllOf(k, y));
  }

  lemma AllOfMiddle<K, V>(k: K, x: Emits<K, V>, e: (K, V), y: Emits<K, V>)
    ensures AllOf(k, x + [e] + y) == AllOf(k, x) + (if e.0 == k then [e.1] else []) + AllOf(k, y)
  {
    hide AllOf;
    AllOfSnoc(k, x, e);
    AllOfConcat(k, x + [e], y);
  }

  lemma Middle<T>(a: seq<T>, e: seq<T>, b: seq<T>)
    ensures multiset(a + e + b) == multiset(a + b) + multiset(e)
  {
  }

  lemma AllOfSnoc<K, V>(k: K, a: Emits<K, V>, e: (K, V))
    ensures AllOf(k, a + [e]) == AllOf(k, a) + if e.0 == k then [e.1] else []
  {
    assert (a + [e])[..|a + [e]| - 1] == a;
  }

  lemma {:induction false} AllOfConcat<K, V>(k: K, a: Emits<K, V>, b: Emits<K, V>)
    ensures AllOf(k, a + b) == AllOf(k, a) + AllOf(k, b)
  {
    if b == [] {
      assert a + b == a;
    } else {
      var b', e := b[..|b| - 1], b[|b| - 1];
      AllOfConcat(k, a, b');
      assert a + b == (a + b') + [e] && b == b' + [e];
      AllOfSnoc(k, a + b', e);
      AllOfSnoc(k, b', e);
    }
  }

  // The interpreter's globals, the temporary collection by _id, and what has been emitted so far.
  datatype State<K, V> = State(
    arr: seq<Slot<K, V>>,
    max: nat,
    nums: map<K, nat>,
    temp: map<K, V>,
    emits: Emits<K, V>)

  // Each live key owns exactly one slot.
  ghost predicate OwnSlots<K, V>(s: State<K, V>) {
    && (forall k :: k in s.nums ==> s.nums[k] < |s.arr| && s.arr[s.nums[k]].key == k)
    && (forall i :: 0 <= i < |s.arr| ==> s.arr[i].key in s.nums && s.nums[s.arr[i].key] == i)
    && (forall i :: 0 <= i < |s.arr| ==> s.arr[i].Ok())
  }

  ghost predicate MaxIsLargest<K, V>(s: State<K, V>) {
    && (forall i :: 0 <= i < |s.arr| ==> s.arr[i].count <= s.max)
    && (s.max == 0 || exists i :: 0 <= i < |s.arr| && s.arr[i].count == s.max)
  }

  ghost function Pending<K, V>(s: State<K, V>, k: K): seq<V>
    requires OwnSlots(s)
  {
    if k in s.nums then s.arr[s.nums[k]].Live() else []
  }

  ghost function Stored<K, V>(s: State<K, V>, k: K): seq<V> {
    if k in s.temp then [s.temp[k]] else []
  }

  // What is pending and what is stored for a key stand for all that was ever emitted under it.
  ghost predicate AccountedFor<K, V>(reduce: (K, seq<V>) -> V, s: State<K, V>, k: K)
    requires OwnSlots(s)
  {
    var all := AllOf(k, s.emits);
    && (all == [] ==> k !in s.nums && k !in s.temp)
    && (all != [] ==> StandsFor(reduce, k, Pending(s, k) + Stored(s, k), all))
    && (k in s.temp ==> reduce(k, [s.temp[k]]) == s.temp[k])
  }

  ghost predicate Inv<K(!new), V(!new)>(reduce: (K, seq<V>) -> V, s: State<K, V>) {
    Lawful(reduce) && OwnSlots(s) && MaxIsLargest(s) && forall k :: AccountedFor(reduce, s, k)
  }

  lemma OwnsSlots<K(!new), V(!new)>(reduce: (K, seq<V>) -> V, s: State<K, V>)
    requires Inv(reduce, s)
    ensures OwnSlots(s)
  {
  }

  // ----- emit -----

  // v joins the pending values of k, in k's slot or a new one.
  ghost predicate EmitsOne<K, V>(s: State<K, V>, t: State<K, V>, k: K, v: V)
    requires OwnSlots(s)
  {
    && t.nums == (if k in s.nums then s.nums else s.nums[k := |s.arr|])
    && t.arr == (if k in s.nums then s.arr[s.nums[k] := Push(s.arr[s.nums[k]], v)]
                 else s.arr + [Push(Slot(k, [], 0), v)])
    && t.max == (var c := Push(if k in s.nums then s.arr[s.nums[k]] else Slot(k, [], 0), v).count;
                 if s.max < c then c else s.max)
    && t.temp == s.temp
    && t.emits == s.emits + [(k, v)]
  }

  lemma EmitOwn<K(!new), V(!new)>(s: State<K, V>, t: State<K, V>, k: K, v: V)
    requires OwnSlots(s) && EmitsOne(s, t, k, v)
    ensures OwnSlots(t) && k in t.nums
    ensures forall j :: Pending(t, j) == Pending(s, j) + if j == k then [v] else []
  {
    forall i | 0 <= i < |t.arr| ensures t.arr[i].Ok() {
      if i < |s.arr| {
        assert s.arr[i].Ok();
      }
    }
    assert OwnSlots(t);
    forall j ensures Pending(t, j) == Pending(s, j) + if j == k then [v] else [] {
      EmitPending(s, t, k, v, j);
    }
  }

  lemma EmitPending<K, V>(s: State<K, V>, t: State<K, V>, k: K, v: V, j: K)
    requires OwnSlots(s) && EmitsOne(s, t, k, v) && OwnSlots(t)
    ensures Pending(t, j) == Pending(s, j) + if j == k then [v] else []
  {
    if j != k && j in s.nums {
      assert t.arr[t.nums[j]] == s.arr[s.nums[j]];
    }
  }

  lemma EmitSlots<K(!new), V(!new)>(s: State<K, V>, t: State<K, V>, k: K, v: V)
    requires OwnSlots(s) && MaxIsLargest(s) && EmitsOne(s, t, k, v)
    ensures OwnSlots(t) && MaxIsLargest(t)
    ensures forall j :: Pending(t, j) == Pending(s, j) + if j == k then [v] else []
  {
    EmitOwn(s, t, k, v);
    EmitMax(s, t, k, v);
  }

  lemma EmitMax<K, V>(s: State<K, V>, t: State<K, V>, k: K, v: V)
    requires OwnSlots(s) && MaxIsLargest(s) && EmitsOne(s, t, k, v)
    ensures MaxIsLargest(t)
  {
    var num := t.nums[k];
    assert t.arr[num].count <= t.max;
    if s.max < t.arr[num].count {
      assert t.arr[num].count == t.max;
    } else if s.max > 0 {
      var i :| 0 <= i < |s.arr| && s.arr[i].count == s.max;
      assert t.arr[i].count == t.max;
    }
  }

  lemma EmitAccounts<K(!new), V(!new)>(reduce: (K, seq<V>) -> V, s: State<K, V>, t: State<K, V>, k: K, v: V, j: K)
    requires Lawful(reduce) && OwnSlots(s) && OwnSlots(t) && AccountedFor(reduce, s, j)
    requires t.temp == s.temp && t.emits == s.emits + [(k, v)] && (j in t.nums <==> j in s.nums || j == k)
    requires Pending(t, j) == Pending(s, j) + if j == k then [v] else []
    ensures AccountedFor(reduce, t, j)
  {
    AllOfSnoc(j, s.emits, (k, v));
    var all, live, stored := AllOf(j, s.emits), Pending(s, j), Stored(s, j);
    hide AllOf, Lawful, OwnSlots, Pending;
    if j == k {
      if all != [] {
        OneMore(reduce, k, live, stored, all, v);
      } else {
        assert live + [v] + stored == [v] && all + [v] == [v];
      }
    } else {
      assert all + [] == all && live + [] == live;
    }
  }

  lemma EmitKeeps<K(!new), V(!new)>(reduce: (K, seq<V>) -> V, s: State<K, V>, t: State<K, V>, k: K, v: V)
    requires Inv(reduce, s) && EmitsOne(s, t, k, v)
    ensures Inv(reduce, t)
    ensures forall j :: Pending(t, j) == Pending(s, j) + if j == k then [v] else []
  {
    EmitSlots(s, t, k, v);
    forall j ensures AccountedFor(reduce, t, j) {
      assert AccountedFor(reduce, s, j);
      EmitAccounts(reduce, s, t, k, v, j);
    }
  }

  // ----- doReduce -----

  // The slot's live values, and what the collection holds for its key when it is to be merged in.
  function Gathered<K, V>(data: Slot<K, V>, temp: map<K, V>, useDB: bool): seq<V>
    requires data.Ok()
  {
    data.Live() + if useDB && data.key in temp then [temp[data.key]] else []
  }

  // The first n slots reduced to one value each; with useDB the results also saved under their keys.
  ghost predicate Reduced<K(!new), V>(reduce: (K, seq<V>) -> V, s: State<K, V>, t: State<K, V>, useDB: bool, n: nat)
    requires OwnSlots(s)
  {
    && t.nums == s.nums && t.emits == s.emits
    && n <= |t.arr| == |s.arr|
    && t.max == (if n == 0 then 0 else 1)
    && (forall i :: n <= i < |s.arr| ==> t.arr[i] == s.arr[i])
    && (forall i :: 0 <= i < n ==> ReducedSlot(reduce, s, t.arr[i], s.arr[i], useDB))
    && (forall k :: SavedFor(reduce, s, t, k, useDB, n))
  }

  ghost predicate ReducedSlot<K, V>(reduce: (K, seq<V>) -> V, s: State<K, V>, after: Slot<K, V>, before: Slot<K, V>,
                                    useDB: bool)
  {
    && before.Ok() && after.Ok() && after.key == before.key
    && after.Live() == [reduce(before.key, Gathered(before, s.temp, useDB))]
  }

  ghost predicate SavedFor<K, V>(reduce: (K, seq<V>) -> V, s: State<K, V>, t: State<K, V>, k: K, useDB: bool, n: nat)
    requires OwnSlots(s)
  {
    if useDB && k in s.nums && s.nums[k] < n then
      k in t.temp && t.temp[k] == reduce(k, Gathered(s.arr[s.nums[k]], s.temp, true))
    else
      (k in t.temp <==> k in s.temp) && (k in s.temp ==> t.temp[k] == s.temp[k])
  }

  ghost predicate Reduces<K(!new), V>(reduce: (K, seq<V>) -> V, s: State<K, V>, t: State<K, V>, useDB: bool)
    requires OwnSlots(s)
  {
    Reduced(reduce, s, t, useDB, |s.arr|)
  }

  lemma NothingReduced<K(!new), V(!new)>(reduce: (K, seq<V>) -> V, s: State<K, V>, useDB: bool)
    requires OwnSlots(s)
    ensures Reduced(reduce, s, s.(max := 0), useDB, 0)
  {
    forall k ensures SavedFor(reduce, s, s.(max := 0), k, useDB, 0) {
    }
  }

  // One turn of the loop.
  lemma ReduceStep<K(!new), V(!new)>(reduce: (K, seq<V>) -> V, s: State<K, V>, t: State<K, V>, u: State<K, V>,
                                     useDB: bool, n: nat)
    requires OwnSlots(s) && Reduced(reduce, s, t, useDB, n) && n < |s.arr|
    requires u.nums == t.nums && u.emits == t.emits && u.max == 1
    requires |u.arr| == |t.arr| && forall i :: 0 <= i < |t.arr| && i != n ==> u.arr[i] == t.arr[i]
    requires ReducedSlot(reduce, s, u.arr[n], s.arr[n], useDB)
    requires u.temp == if useDB then t.temp[s.arr[n].key := u.arr[n].values[0]] else t.temp
    ensures Reduced(reduce, s, u, useDB, n + 1)
  {
    assert u.arr[n].values[0] == u.arr[n].Live()[0];
    var m := n + 1;
    forall k ensures SavedFor(reduce, s, u, k, useDB, m) {
      assert SavedFor(reduce, s, t, k, useDB, n);
    }
  }

  lemma ReducesSlot<K(!new), V(!new)>(reduce: (K, seq<V>) -> V, s: State<K, V>, data: Slot<K, V>, r: V, n: nat,
                                      useDB: bool)
    requires OwnSlots(s) && n < |s.arr| && data.Ok() && data.key == s.arr[n].key
    requires data.Live() == Gathered(s.arr[n], s.temp, useDB) && r == reduce(data.key, data.Live())
    ensures ReducedSlot(reduce, s, Reset(data, r), s.arr[n], useDB)
  {
  }

  // A slot not yet reached finds the collection as it was for its key.
  lemma Untouched<K(!new), V(!new)>(reduce: (K, seq<V>) -> V, s: State<K, V>, t: State<K, V>, useDB: bool, n: nat)
    requires OwnSlots(s) && Reduced(reduce, s, t, useDB, n) && n < |s.arr|
    ensures t.arr[n] == s.arr[n]
    ensures var k := s.arr[n].key; (k in t.temp <==> k in s.temp) && (k in s.temp ==> t.temp[k] == s.temp[k])
  {
    assert SavedFor(reduce, s, t, s.arr[n].key, useDB, n);
  }

  lemma ReduceSlots<K(!new), V(!new)>(reduce: (K, seq<V>) -> V, s: State<K, V>, t: State<K, V>, useDB: bool)
    requires OwnSlots(s) && Reduces(reduce, s, t, useDB)
    ensures OwnSlots(t) && MaxIsLargest(t) && forall i :: 0 <= i < |t.arr| ==> t.arr[i].count == 1
    ensures forall k :: Pending(t, k) == ReducedPending(reduce, s, k, useDB)
  {
    forall i | 0 <= i < |t.arr| ensures t.arr[i].Ok() && t.arr[i].key == s.arr[i].key && t.arr[i].count == 1 {
      assert ReducedSlot(reduce, s, t.arr[i], s.arr[i], useDB);
      assert |t.arr[i].Live()| == t.arr[i].count;
    }
    forall k ensures Pending(t, k) == ReducedPending(reduce, s, k, useDB) {
      if k in s.nums {
        assert ReducedSlot(reduce, s, t.arr[s.nums[k]], s.arr[s.nums[k]], useDB);
      }
    }
    if t.arr != [] {
      assert t.arr[0].count == t.max;
    }
  }

  ghost function ReducedPending<K, V>(reduce: (K, seq<V>) -> V, s: State<K, V>, k: K, useDB: bool): seq<V>
    requires OwnSlots(s)
  {
    if k in s.nums then [reduce(k, Gathered(s.arr[s.nums[k]], s.temp, useDB))] else []
  }

  lemma ReduceKeeps<K(!new), V(!new)>(reduce: (K, seq<V>) -> V, s: State<K, V>, t: State<K, V>)
    requires Inv(reduce, s) && Reduces(reduce, s, t, false)
    ensures Inv(reduce, t)
  {
    ReduceSlots(reduce, s, t, false);
    forall k ensures AccountedFor(reduce, t, k) {
      assert AccountedFor(reduce, s, k) && SavedFor(reduce, s, t, k, false, |s.arr|);
      if k in s.nums {
        assert Gathered(s.arr[s.nums[k]], s.temp, false) == Pending(s, k);
        ReducedLive(reduce, k, Pending(s, k), Stored(s, k), AllOf(k, s.emits));
      }
    }
  }

  lemma SameTemp<K(!new), V(!new)>(reduce: (K, seq<V>) -> V, s: State<K, V>, t: State<K, V>)
    requires OwnSlots(s) && Reduces(reduce, s, t, false)
    ensures t.temp == s.temp
  {
    forall k ensures (k in t.temp <==> k in s.temp) && (k in s.temp ==> t.temp[k] == s.temp[k]) {
      assert SavedFor(reduce, s, t, k, false, |s.arr|);
    }
  }

  lemma InMemory<K(!new), V(!new)>(reduce: (K, seq<V>) -> V, s: State<K, V>, t: State<K, V>)
    requires OwnSlots(s) && Reduces(reduce, s, t, false)
    ensures |t.arr| == |s.arr| && t.max <= 1 && t.temp == s.temp
    ensures forall i :: 0 <= i < |t.arr| ==> t.arr[i].count == 1
  {
    ReduceSlots(reduce, s, t, false);
    SameTemp(reduce, s, t);
  }

  // The collection holds exactly the emitted keys, each with the one reduce over all its values.
  ghost predicate Settled<K(!new), V>(reduce: (K, seq<V>) -> V, temp: map<K, V>, emits: Emits<K, V>) {
    forall k :: SettledAt(reduce, temp, emits, k)
  }

  ghost predicate SettledAt<K, V>(reduce: (K, seq<V>) -> V, temp: map<K, V>, emits: Emits<K, V>, k: K) {
    (k in temp <==> AllOf(k, emits) != []) && (k in temp ==> temp[k] == reduce(k, AllOf(k, emits)))
  }

  lemma SpillSettles<K(!new), V(!new)>(reduce: (K, seq<V>) -> V, s: State<K, V>, t: State<K, V>)
    requires Inv(reduce, s) && Reduces(reduce, s, t, true)
    ensures Settled(reduce, t.temp, t.emits)
  {
    forall k ensures k in t.temp <==> AllOf(k, t.emits) != []
      ensures k in t.temp ==> t.temp[k] == reduce(k, AllOf(k, t.emits))
    {
      assert AccountedFor(reduce, s, k) && SavedFor(reduce, s, t, k, true, |s.arr|);
      if k in s.nums {
        assert Gathered(s.arr[s.nums[k]], s.temp, true) == Pending(s, k) + Stored(s, k);
      } else if k in s.temp {
        assert Pending(s, k) + Stored(s, k) == [s.temp[k]];
      }
    }
  }

  lemma AfterReduce<K(!new), V(!new)>(reduce: (K, seq<V>) -> V, s: State<K, V>, t: State<K, V>, useDB: bool)
    requires Inv(reduce, s) && Reduced(reduce, s, t, useDB, |s.arr|)
    ensures Reduces(reduce, s, t, useDB)
    ensures if useDB then Settled(reduce, t.temp, t.emits) else Inv(reduce, t)
  {
    hide Reduced;
    if useDB {
      SpillSettles(reduce, s, t);
    } else {
      ReduceKeeps(reduce, s, t);
    }
  }

  // A second spill with the slots still in place would count everything twice, which is why `check`
  // drops them and the last doReduce(true) is not repeated.
  lemma SecondSpillDoubles<K(!new), V(!new)>(reduce: (K, seq<V>) -> V, s: State<K, V>, t: State<K, V>, u: State<K, V>,
                                             k: K)
    requires Inv(reduce, s) && Reduces(reduce, s, t, true)
    requires OwnSlots(t) && Reduces(reduce, t, u, true) && k in s.nums
    ensures k in t.temp && k in u.temp && t.temp[k] == reduce(k, AllOf(k, s.emits))
    ensures u.temp[k] == reduce(k, [t.temp[k], t.temp[k]])
    ensures u.temp[k] == reduce(k, AllOf(k, s.emits) + AllOf(k, s.emits))
  {
    SpillSettles(reduce, s, t);
    assert AccountedFor(reduce, s, k);
    assert SavedFor(reduce, s, t, k, true, |s.arr|) && SavedFor(reduce, t, u, k, true, |t.arr|);
    assert ReducedSlot(reduce, s, t.arr[s.nums[k]], s.arr[s.nums[k]], true);
    var r := t.temp[k];
    assert Gathered(t.arr[t.nums[k]], t.temp, true) == [r] + [r];
    hide Inv, Reduces, OwnSlots, Gathered, ReducedSlot, SavedFor, AccountedFor, Settled;
    TwiceOver(reduce, k, AllOf(k, s.emits), r);
  }

  // A key whose values, twice over, reduce to what they reduce to once.
  ghost predicate Idempotent<K, V>(reduce: (K, seq<V>) -> V, k: K, all: seq<V>) {
    reduce(k, all + all) == reduce(k, all)
  }

  // It is harmless if and only if that is so for every key with a slot.
  lemma SecondSpillIff<K(!new), V(!new)>(reduce: (K, seq<V>) -> V, s: State<K, V>, t: State<K, V>, u: State<K, V>)
    requires Inv(reduce, s) && Reduces(reduce, s, t, true)
    requires OwnSlots(t) && Reduces(reduce, t, u, true)
    ensures Settled(reduce, u.temp, u.emits) <==> forall k :: k in s.nums ==> Idempotent(reduce, k, AllOf(k, s.emits))
  {
    forall k
      ensures SettledAt(reduce, u.temp, u.emits, k) <==> (k in s.nums ==> Idempotent(reduce, k, AllOf(k, s.emits)))
    {
      SecondSpillAt(reduce, s, t, u, k);
    }
    hide Inv, Reduces, OwnSlots, AllOf, SettledAt, Idempotent;
  }

  lemma SecondSpillAt<K(!new), V(!new)>(reduce: (K, seq<V>) -> V, s: State<K, V>, t: State<K, V>, u: State<K, V>,
                                        k: K)
    requires Inv(reduce, s) && Reduces(reduce, s, t, true)
    requires OwnSlots(t) && Reduces(reduce, t, u, true)
    ensures SettledAt(reduce, u.temp, u.emits, k) <==> (k in s.nums ==> Idempotent(reduce, k, AllOf(k, s.emits)))
  {
    SpillSettles(reduce, s, t);
    assert SettledAt(reduce, t.temp, t.emits, k) && s.emits == t.emits == u.emits && s.nums == t.nums;
    if k in s.nums {
      hide Reduces, Inv, OwnSlots, AllOf;
      SecondSpillDoubles(reduce, s, t, u, k);
    } else {
      assert SavedFor(reduce, t, u, k, true, |t.arr|);
      hide Reduces, Inv, OwnSlots, AllOf;
    }
  }

  lemma TwiceOver<K(!new), V(!new)>(reduce: (K, seq<V>) -> V, k: K, all: seq<V>, r: V)
    requires Lawful(reduce) && all != [] && r == reduce(k, all)
    ensures [r] + [r] == [r, r] && reduce(k, [r] + [r]) == reduce(k, all + all)
  {
    Rereduce(reduce, k, [r], all);
    Swap(reduce, k, [r], all);
    Rereduce(reduce, k, all, all);
  }

  // After a spill the slots are dropped; nothing is lost.
  lemma ClearKeeps<K(!new), V(!new)>(reduce: (K, seq<V>) -> V, t: State<K, V>)
    requires Lawful(reduce) && Settled(reduce, t.temp, t.emits)
    requires t.arr == [] && t.nums == map[] && t.max == 0
    ensures Inv(reduce, t)
  {
    forall k ensures AccountedFor(reduce, t, k) {
      assert SettledAt(reduce, t.temp, t.emits, k);
      var all := AllOf(k, t.emits);
      if all != [] {
        ResultStands(reduce, k, all, all);
        assert Pending(t, k) + Stored(t, k) == [t.temp[k]];
      }
    }
  }

  // The values pending in all slots together.
  function PendingCount<K, V>(arr: seq<Slot<K, V>>): nat {
    if arr == [] then 0 else PendingCount(arr[..|arr| - 1]) + arr[|arr| - 1].count
  }

  lemma {:induction false} PendingBound<K, V>(arr: seq<Slot<K, V>>, most: nat)
    requires forall i :: 0 <= i < |arr| ==> arr[i].count <= most
    ensures PendingCount(arr) <= |arr| * most
  {
    if arr != [] {
      PendingBound(arr[..|arr| - 1], most);
      assert |arr| * most == (|arr| - 1) * most + most;
    }
  }

  // Fewer than 1000 slots of fewer than 2000 values.
  lemma FewPending<K, V>(arr: seq<Slot<K, V>>)
    requires |arr| <= 999 && forall i :: 0 <= i < |arr| ==> arr[i].count <= 1999
    ensures PendingCount(arr) <= 999 * 1999
  {
    PendingBound(arr, 1999);
  }

  datatype Op<K, V> = Emit(k: K, v: V) | Check

  // What a run emits, whatever checks come in between.
  function Emitted<K, V>(ops: seq<Op<K, V>>): Emits<K, V> {
    if ops == [] then []
    else
      var op := ops[|ops| - 1];
      Emitted(ops[..|ops| - 1]) + (if op.Emit? then [(op.k, op.v)] else [])
  }

  class MR<K(!new,==), V(!new)> {
    const reduce: (K, seq<V>) -> V
    const finalizer: (K, V) -> V

    var max: nat
    var arr: seq<Slot<K, V>>
    var numEmits: nat
    var numReduces: nat
    var numReducesToDB: nat
    // get_num_ hands out 0, 1, 2, ... to new keys until reset_num.
    var nums: map<K, nat>
    // tempcoll, by _id.
    var tempcoll: map<K, V>
    ghost var emits: Emits<K, V>

    ghost function Now(): State<K, V>
      reads this
    {
      State(arr, max, nums, tempcoll, emits)
    }

    ghost predicate Valid()
      reads this
    {
      Inv(reduce, Now())
    }

    // MR.init, on an empty temporary collection.
    constructor (reduce: (K, seq<V>) -> V, finalizer: (K, V) -> V)
      requires Lawful(reduce)
      ensures Valid() && this.reduce == reduce && this.finalizer == finalizer
      ensures Now() == State([], 0, map[], map[], [])
    {
      this.reduce, this.finalizer := reduce, finalizer;
      max, arr, numEmits, numReduces, numReducesToDB := 0, [], 0, 0, 0;
      nums, tempcoll, emits := map[], map[], [];
    }

    method Emit(k: K, v: V)
      requires Valid()
      modifies this
      ensures Valid() && emits == old(emits) + [(k, v)] && tempcoll == old(tempcoll)
      ensures forall j :: Pending(Now(), j) == Pending(old(Now()), j) + if j == k then [v] else []
      ensures numEmits == old(numEmits) + 1
    {
      numEmits := numEmits + 1;
      if k !in nums {
        nums := nums[k := |arr|];
      }
      var num := nums[k];
      var data := if num == |arr| then Slot(k, [], 0) else arr[num];
      data := Push(data, v);
      if num == |arr| {
        arr := arr + [data];
      } else {
        arr := arr[num := data];
      }
      max := if max < data.count then data.count else max;
      emits := emits + [(k, v)];
      EmitKeeps(reduce, old(Now()), Now(), k, v);
    }

    // The first i slots reduced, since the state `before`.
    ghost predicate Partly(before: State<K, V>, useDB: bool, i: nat)
      requires OwnSlots(before)
      reads this
    {
      |arr| == |before.arr| && i <= |arr| && Reduced(reduce, before, Now(), useDB, i)
    }

    method DoReduce(useDB: bool)
      requires Valid()
      modifies this
      ensures Reduces(reduce, old(Now()), Now(), useDB)
      ensures !useDB ==> Valid()
      ensures useDB ==> Settled(reduce, tempcoll, emits)
      ensures numReduces == old(numReduces) + 1 && numEmits == old(numEmits)
      ensures numReducesToDB == old(numReducesToDB) + if useDB then 1 else 0
    {
      hide Reduced, Reduces, Inv, OwnSlots, Settled, Lawful;
      ghost var before := Now();
      OwnsSlots(reduce, before);
      NothingReduced(reduce, before, useDB);
      numReduces := numReduces + 1;
      if useDB {
        numReducesToDB := numReducesToDB + 1;
      }
      max := 0;
      assert Partly(before, useDB, 0);
      var i := 0;
      while i < |arr|
        invariant i <= |arr| && Partly(before, useDB, i) && numReduces == old(numReduces) + 1
        invariant numEmits == old(numEmits) && numReducesToDB == old(numReducesToDB) + if useDB then 1 else 0
      {
        ReduceSlot(i, useDB, before);
        i := i + 1;
      }
      AfterReduce(reduce, before, Now(), useDB);
    }

    // The body of doReduce's loop, for a run of it that began in the state `before`.
    method ReduceSlot(i: nat, useDB: bool, ghost before: State<K, V>)
      requires OwnSlots(before) && i < |arr| && Partly(before, useDB, i)
      modifies this`arr, this`max, this`tempcoll
      ensures |arr| == old(|arr|) && Partly(before, useDB, i + 1)
    {
      ghost var here := Now();
      Untouched(reduce, before, here, useDB, i);
      var data := arr[i];
      if useDB && data.key in tempcoll {
        data := Push(data, tempcoll[data.key]);
      }
      assert data.Live() == Gathered(before.arr[i], before.temp, useDB);
      var r := reduce(data.key, data.Live());
      ReducesSlot(reduce, before, data, r, i, useDB);
      data := Reset(data, r);
      arr := arr[i := data];
      max := if max < data.count then data.count else max;
      assert max == 1;
      if useDB {
        tempcoll := tempcoll[data.key := data.values[0]];
      }
      hide Reduced, ReducedSlot, SavedFor, Inv, OwnSlots, Gathered;
      ReduceStep(reduce, before, here, Now(), useDB, i);
    }

    // Fewer than 1000 slots and fewer than 2000 values in each afterwards.
    method Check() returns (code: int)
      requires Valid()
      modifies this
      ensures Valid() && emits == old(emits)
      ensures max < 2000 && |arr| < 1000 && forall i :: 0 <= i < |arr| ==> arr[i].count < 2000
      ensures PendingCount(arr) <= 999 * 1999
      ensures code == 0 ==> Now() == old(Now())
      ensures code == 1 ==> tempcoll == old(tempcoll) && forall i :: 0 <= i < |arr| ==> arr[i].count == 1
      ensures code == 2 ==> arr == [] && Settled(reduce, tempcoll, emits)
      ensures code == 0 || code == 1 || code == 2
      ensures code == 0 <==> old(max < 2000 && |arr| < 1000)
      ensures code == 2 <==> old(|arr| >= 1000)
    {
      if max < 2000 && |arr| < 1000 {
        FewPending(arr);
        return 0;
      }
      DoReduce(false);
      InMemory(reduce, old(Now()), Now());
      hide Reduces, OwnSlots, MaxIsLargest, AccountedFor;
      if max < 2000 && |arr| < 1000 {
        FewPending(arr);
        return 1;
      }
      DoReduce(true);
      arr := [];
      max := 0;
      nums := map[];
      ClearKeeps(reduce, Now());
      return 2;
    }

    // Every stored value goes through finalize once.
    method Finalize()
      modifies this`tempcoll
      ensures tempcoll.Keys == old(tempcoll).Keys
      ensures forall k :: k in tempcoll ==> tempcoll[k] == finalizer(k, old(tempcoll)[k])
    {
      ghost var before := tempcoll;
      var todo := tempcoll.Keys;
      while todo != {}
        invariant todo <= tempcoll.Keys == before.Keys
        invariant forall k :: k in tempcoll ==>
          tempcoll[k] == if k in todo then before[k] else finalizer(k, before[k])
        decreases |todo|
      {
        var k :| k in todo;
        tempcoll := tempcoll[k := finalizer(k, tempcoll[k])];
        todo := todo - {k};
      }
    }
  }

  // A whole run: emits and checks in any order, a last reduce to the collection, and finalize. However
  // the checks fell, the collection ends with finalize(k, reduce(k, every value emitted for k)) for
  // exactly the emitted keys.
  method Run<K(!new,==), V(!new)>(reduce: (K, seq<V>) -> V, finalizer: (K, V) -> V, ops: seq<Op<K, V>>)
    returns (result: map<K, V>)
    requires Lawful(reduce)
    ensures forall k :: k in result <==> AllOf(k, Emitted(ops)) != []
    ensures forall k :: k in result ==> result[k] == finalizer(k, reduce(k, AllOf(k, Emitted(ops))))
  {
    var mr := new MR(reduce, finalizer);
    var i := 0;
    while i < |ops|
      invariant 0 <= i <= |ops|
      invariant mr.Valid() && mr.reduce == reduce && mr.finalizer == finalizer
      invariant mr.emits == Emitted(ops[..i])
    {
      assert ops[..i + 1][..i] == ops[..i];
      match ops[i] {
        case Emit(k, v) => mr.Emit(k, v);
        case Check => var _ := mr.Check();
      }
      i := i + 1;
    }
    assert ops[..i] == ops;
    mr.DoReduce(true);
    ghost var settled := mr.tempcoll;
    mr.Finalize();
    result := mr.tempcoll;
    hide Inv, AllOf, Emitted, Reduces;
    forall k
      ensures k in result <==> AllOf(k, Emitted(ops)) != []
      ensures k in result ==> result[k] == finalizer(k, reduce(k, AllOf(k, Emitted(ops))))
    {
      assert SettledAt(reduce, settled, Emitted(ops), k);
    }
  }
}
