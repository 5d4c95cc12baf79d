// The bucketed `Map` of types.js, for any key equivalence that its hash respects.
module HashMap {
  import opened Text

  // A stored pair. JavaScript's null, the value of an entry nothing was put into, is None.
  class Entry<K, V> {
    const key: K
    var value: Option<V>

    constructor (key: K)
      ensures this.key == key && value == None
    {
      this.key, this.value := key, None;
    }
  }

  // A use of the map that did not throw; put takes null too.
  datatype Use<K, V> = Put(key: K, value: Option<V>) | Get(key: K)

  // What a call answers: a value, or the exception of Map.hash.
  datatype Answer<V> = Found(value: Option<V>) | CannotHash

  ghost predicate Equivalence<K(!new)>(eq: (K, K) -> bool) {
    && (forall a :: eq(a, a))
    && (forall a, b :: eq(a, b) ==> eq(b, a))
    && (forall a, b, c :: eq(a, b) && eq(b, c) ==> eq(a, c))
  }

  // hash answers None where Map.hash throws.
  ghost predicate Respects<K(!new), H>(hash: K -> Option<H>, eq: (K, K) -> bool) {
    forall a, b :: eq(a, b) ==> hash(a) == hash(b)
  }

  // What an association map holds for k after these uses: nothing if k was never touched, else the
  // value last put, null if there was none.
  function Held<K, V>(eq: (K, K) -> bool, uses: seq<Use<K, V>>, k: K): Option<Option<V>> {
    if uses == [] then None
    else
      var last, before := uses[|uses| - 1], Held(eq, uses[..|uses| - 1], k);
      if !eq(k, last.key) then before
      else if last.Put? then Some(last.value)
      else if before.Some? then before
      else Some(None)
  }

  lemma HeldSnoc<K, V>(eq: (K, K) -> bool, uses: seq<Use<K, V>>, use: Use<K, V>, k: K)
    ensures Held(eq, uses + [use], k) ==
      if !eq(k, use.key) then Held(eq, uses, k)
      else if use.Put? then Some(use.value)
      else if Held(eq, uses, k).Some? then Held(eq, uses, k)
      else Some(None)
  {
    assert (uses + [use])[..|uses + [use]| - 1] == uses;
  }

  // Equivalent keys are one key.
  lemma {:induction false} HeldSame<K(!new), V>(eq: (K, K) -> bool, uses: seq<Use<K, V>>, a: K, b: K)
    requires Equivalence(eq) && eq(a, b)
    ensures Held(eq, uses, a) == Held(eq, uses, b)
  {
    if uses != [] {
      HeldSame(eq, uses[..|uses| - 1], a, b);
      var c := uses[|uses| - 1].key;
      assert eq(a, c) <==> eq(b, c);
    }
  }

  // A get of a key with an entry changes nothing.
  lemma HeldAfterGet<K(!new), V>(eq: (K, K) -> bool, uses: seq<Use<K, V>>, key: K, stored: K)
    requires Equivalence(eq) && eq(key, stored) && Held(eq, uses, stored).Some?
    ensures forall k :: Held(eq, uses + [Use.Get(key)], k) == Held(eq, uses, k)
  {
    forall k ensures Held(eq, uses + [Use.Get(key)], k) == Held(eq, uses, k) {
      HeldSnoc(eq, uses, Use.Get(key), k);
      if eq(k, key) {
        HeldSame(eq, uses, k, stored);
      }
    }
  }

  // A get of a key without one leaves null there.
  lemma HeldAfterMiss<K(!new), V>(eq: (K, K) -> bool, uses: seq<Use<K, V>>, key: K)
    requires Equivalence(eq) && Held(eq, uses, key).None?
    ensures forall k :: Held(eq, uses + [Use.Get(key)], k) == if eq(k, key) then Some(None) else Held(eq, uses, k)
    ensures forall k :: eq(k, key) || eq(key, k) ==> Held(eq, uses, k).None?
  {
    forall k
      ensures Held(eq, uses + [Use.Get(key)], k) == if eq(k, key) then Some(None) else Held(eq, uses, k)
      ensures eq(k, key) || eq(key, k) ==> Held(eq, uses, k).None?
    {
      HeldSnoc(eq, uses, Use.Get(key), k);
      if eq(k, key) {
        HeldSame(eq, uses, k, key);
      }
    }
  }

  // A put where a get was changes the value of its key only.
  lemma HeldAfterPut<K(!new), V>(eq: (K, K) -> bool, uses: seq<Use<K, V>>, key: K, value: Option<V>)
    requires Equivalence(eq)
    ensures forall k :: (
      Held(eq, uses + [Use.Put(key, value)], k)
      == if eq(k, key) then Some(value) else Held(eq, uses + [Use.Get(key)], k))
    ensures forall k :: eq(k, key) ==> Held(eq, uses + [Use.Get(key)], k).Some?
  {
    forall k
      ensures Held(eq, uses + [Use.Put(key, value)], k) ==
        if eq(k, key) then Some(value) else Held(eq, uses + [Use.Get(key)], k)
      ensures eq(k, key) ==> Held(eq, uses + [Use.Get(key)], k).Some?
    {
      HeldSnoc(eq, uses, Use.Get(key), k);
      HeldSnoc(eq, uses, Use.Put(key, value), k);
    }
  }

  predicate Puts<K, V>(eq: (K, K) -> bool, uses: seq<Use<K, V>>, k: K, i: int) {
    0 <= i < |uses| && uses[i].Put? && eq(k, uses[i].key)
  }

  // Held in plain words.
  lemma {:induction false} HeldIsLastPut<K, V>(eq: (K, K) -> bool, uses: seq<Use<K, V>>, k: K)
    ensures Held(eq, uses, k).Some? <==> exists i :: 0 <= i < |uses| && eq(k, uses[i].key)
    ensures forall i :: Puts(eq, uses, k, i) && (forall j :: i < j ==> !Puts(eq, uses, k, j)) ==>
      Held(eq, uses, k) == Some(uses[i].value)
    ensures Held(eq, uses, k).Some? && (forall i :: !Puts(eq, uses, k, i)) ==> Held(eq, uses, k) == Some(None)
  {
    if uses != [] {
      var n := |uses| - 1;
      var front := uses[..n];
      HeldIsLastPut(eq, front, k);
      assert forall i :: 0 <= i < n ==> front[i] == uses[i];
      assert forall i :: Puts(eq, front, k, i) <==> i < n && Puts(eq, uses, k, i);
      assert Puts(eq, uses, k, n) <==> uses[n].Put? && eq(k, uses[n].key);
      assert eq(k, uses[n].key) ==> exists i :: 0 <= i < |uses| && eq(k, uses[i].key);
    }
  }

  class Map<K(!new), V, H(==)> {
    const eq: (K, K) -> bool
    const hash: K -> Option<H>
    var data: map<H, seq<Entry<K, V>>>

    // Every entry, and every use so far.
    ghost var entries: set<Entry<K, V>>
    ghost var uses: seq<Use<K, V>>

    ghost predicate Valid()
      reads this, entries
    {
      Equivalence(eq) && Respects(hash, eq) && Placed() && Apart() && Faithful() && Complete()
    }

    // Each entry lies in the bucket of its key's hash.
    ghost predicate Placed()
      reads this
    {
      forall h, i :: h in data && 0 <= i < |data[h]| ==> data[h][i] in entries && hash(data[h][i].key) == Some(h)
    }

    // No two entries have equivalent keys.
    ghost predicate Apart()
      reads this
    {
      forall h, i, g, j :: h in data && 0 <= i < |data[h]| && g in data && 0 <= j < |data[g]| && (h != g || i != j) ==>
        !eq(data[h][i].key, data[g][j].key)
    }

    // An entry's value is what the uses so far call for.
    ghost predicate Faithful()
      requires Placed()
      reads this, entries
    {
      forall h, i :: h in data && 0 <= i < |data[h]| ==> Held(eq, uses, data[h][i].key) == Some(data[h][i].value)
    }

    ghost predicate Stored(k: K)
      reads this
    {
      && hash(k).Some? && hash(k).value in data
      && exists i :: 0 <= i < |data[hash(k).value]| && eq(k, data[hash(k).value][i].key)
    }

    // Every key touched has an entry.
    ghost predicate Complete()
      reads this
    {
      forall k :: Held(eq, uses, k).Some? ==> Stored(k)
    }

    constructor (eq: (K, K) -> bool, hash: K -> Option<H>)
      requires Equivalence(eq) && Respects(hash, eq)
      ensures Valid() && entries == {} && uses == [] && this.eq == eq && this.hash == hash
    {
      this.eq, this.hash := eq, hash;
      data, entries, uses := map[], {}, [];
    }

    // The entry lies in the bucket of key's hash, under an equivalent key.
    ghost predicate Holds(key: K, e: Entry<K, V>)
      reads this
    {
      && eq(key, e.key) && hash(key).Some? && hash(key).value in data
      && exists i :: 0 <= i < |data[hash(key).value]| && data[hash(key).value][i] == e
    }

    // The miss at the end of _get.
    method Add(key: K, h: H) returns (o: Entry<K, V>)
      requires Valid() && hash(key) == Some(h) && h in data && Held(eq, uses, key).None?
      modifies this
      ensures Valid() && fresh(o) && entries == old(entries) + {o}
      ensures uses == old(uses) + [Use.Get(key)] && Holds(key, o)
    {
      HeldAfterMiss(eq, uses, key);
      forall g, j | g in data && 0 <= j < |data[g]|
        ensures !eq(data[g][j].key, key) && !eq(key, data[g][j].key)
      {
        assert Held(eq, uses, data[g][j].key).Some?;
      }
      hide Equivalence, Held;
      ghost var before := data;
      o := new Entry(key);
      data := data[h := data[h] + [o]];
      entries := entries + {o};
      uses := uses + [Use.Get(key)];
      assert Placed();
      forall g, i, g', j | g in data && 0 <= i < |data[g]| && g' in data && 0 <= j < |data[g']| && (g != g' || i != j)
        ensures !eq(data[g][i].key, data[g'][j].key)
      {
        if i < |before[g]| && j < |before[g']| {
          assert before[g][i] == data[g][i] && before[g'][j] == data[g'][j];
        }
      }
      assert Faithful();
      forall k | Held(eq, uses, k).Some? ensures Stored(k) {
        if eq(k, key) {
          assert data[h][|before[h]|] == o;
        } else {
          var g := hash(k).value;
          var i :| 0 <= i < |before[g]| && eq(k, before[g][i].key);
          assert data[g][i] == before[g][i];
        }
      }
    }

    // The assignment in put, after _get.
    method Set(key: K, o: Entry<K, V>, value: Option<V>)
      requires Valid() && |uses| > 0 && uses[|uses| - 1] == Use.Get(key) && Holds(key, o) && o in entries
      modifies o, this`uses
      ensures Valid() && uses == old(uses[..|uses| - 1]) + [Use.Put(key, value)]
    {
      HeldAfterPut(eq, uses[..|uses| - 1], key, value);
      assert uses == uses[..|uses| - 1] + [Use.Get(key)];
      o.value := value;
      uses := uses[..|uses| - 1] + [Use.Put(key, value)];
      assert Complete();
      assert Faithful();
    }

    // _get: the entry for key, made on a miss; this alone is a get. None stands for the exception of Map.hash.
    method Find(key: K) returns (found: Option<Entry<K, V>>)
      requires Valid()
      modifies this
      ensures Valid() && fresh(entries - old(entries)) && old(entries) <= entries
      ensures found.None? <==> hash(key).None?
      ensures found.None? ==> data == old(data) && entries == old(entries) && uses == old(uses)
      ensures found.Some? ==> uses == old(uses) + [Use.Get(key)] && found.value in entries && Holds(key, found.value)
    {
      if hash(key).None? {
        return None;
      }
      var h := hash(key).value;
      if h !in data {
        data := data[h := []];
      }
      var i := 0;
      while i < |data[h]|
        invariant h in data && Valid() && uses == old(uses) && entries == old(entries)
        invariant 0 <= i <= |data[h]| && forall j :: 0 <= j < i ==> !eq(key, data[h][j].key)
      {
        if eq(key, data[h][i].key) {
          HeldAfterGet(eq, uses, key, data[h][i].key);
          uses := uses + [Use.Get(key)];
          return Some(data[h][i]);
        }
        i := i + 1;
      }
      assert Held(eq, uses, key).None?;
      var o := Add(key, h);
      return Some(o);
    }

    // get: what the key holds, null after a miss.
    method Get(key: K) returns (answer: Answer<V>)
      requires Valid()
      modifies this
      ensures Valid() && fresh(entries - old(entries)) && old(entries) <= entries
      ensures answer.CannotHash? <==> hash(key).None?
      ensures answer.CannotHash? ==> uses == old(uses)
      ensures answer.Found? ==> uses == old(uses) + [Use.Get(key)]
      ensures answer.Found? ==>
        answer.value == if Held(eq, old(uses), key).Some? then Held(eq, old(uses), key).value else None
    {
      var found := Find(key);
      if found.None? {
        return CannotHash;
      }
      HeldSnoc(eq, old(uses), Use.Get(key), key);
      HeldSame(eq, uses, key, found.value.key);
      return Found(found.value.value);
    }

    // put: answers what the key held, null on a miss.
    method Put(key: K, value: Option<V>) returns (answer: Answer<V>)
      requires Valid()
      modifies this, entries
      ensures Valid() && fresh(entries - old(entries)) && old(entries) <= entries
      ensures answer.CannotHash? <==> hash(key).None?
      ensures answer.CannotHash? ==> uses == old(uses)
      ensures answer.Found? ==> uses == old(uses) + [Use.Put(key, value)]
      ensures answer.Found? ==>
        answer.value == if Held(eq, old(uses), key).Some? then Held(eq, old(uses), key).value else None
    {
      var found := Find(key);
      if found.None? {
        return CannotHash;
      }
      HeldSnoc(eq, old(uses), Use.Get(key), key);
      HeldSame(eq, uses, key, found.value.key);
      var previous := found.value.value;
      Set(key, found.value, value);
      return Found(previous);
    }

    // values: one value for each key touched.
    method Values() returns (all: seq<Option<V>>, ghost keys: seq<K>)
      requires Valid()
      ensures |keys| == |all|
      ensures Listed(keys, all)
      ensures forall k :: Held(eq, uses, k).Some? ==> exists i :: 0 <= i < |all| && eq(k, keys[i])
    {
      hide Equivalence, Held;
      all, keys := [], [];
      var left := data.Keys;
      while left != {}
        invariant left <= data.Keys
        invariant |keys| == |all|
        invariant Listed(keys, all)
        invariant forall i :: 0 <= i < |keys| ==> hash(keys[i]).Some? && hash(keys[i]).value !in left
        invariant forall h, i :: h in data && h !in left && 0 <= i < |data[h]| ==> data[h][i].key in keys
        decreases left
      {
        var h :| h in left;
        left := left - {h};
        var bucket, i := data[h], 0;
        while i < |bucket|
          invariant 0 <= i <= |bucket|
          invariant |keys| == |all|
          invariant Listed(keys, all)
          invariant forall j :: 0 <= j < |keys| ==> hash(keys[j]).Some? && hash(keys[j]).value !in left
          invariant forall g, j :: g in data && g !in left && g != h && 0 <= j < |data[g]| ==> data[g][j].key in keys
          invariant forall j :: 0 <= j < i ==> bucket[j].key in keys
          invariant forall k, j :: 0 <= k < |keys| && i <= j < |bucket| ==> !eq(keys[k], bucket[j].key)
        {
          all, keys := all + [bucket[i].value], keys + [bucket[i].key];
          i := i + 1;
        }
      }
      forall k | Held(eq, uses, k).Some?
        ensures exists i :: 0 <= i < |all| && eq(k, keys[i])
      {
        assert Stored(k);
        var h := hash(k).value;
        var j :| 0 <= j < |data[h]| && eq(k, data[h][j].key);
        assert data[h][j].key in keys;
      }
    }

    // Each value belongs to its key, and no two keys are equivalent.
    ghost predicate Listed(keys: seq<K>, all: seq<Option<V>>)
      requires |keys| == |all|
      reads this
    {
      && (forall i :: 0 <= i < |all| ==> Held(eq, uses, keys[i]) == Some(all[i]))
      && (forall i, j :: 0 <= i < j < |all| ==> !eq(keys[i], keys[j]))
    }
  }
}
