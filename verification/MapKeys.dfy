// `Map.hash` of types.js, and for which keys it goes together with friendlyEqual.
module MapKeys {
  import opened Text
  import opened Json
  import opened JsonReader
  import opened JsonProofs
  import opened FlatText
  import opened Friendly
  import opened FriendlyEqualProofs
  import opened FriendlyEqualExact
  import HashMap

  // What `join` makes of an element: null and undefined leave nothing, a NumberInt names itself.
  function Joined(x: Value): string
    decreases x, 1
  {
    match x
    case Null => ""
    case Undefined => ""
    case Bool(b) => if b then "true" else "false"
    case Num(text) => text
    case NumInt(n) => NumIntText(n)
    case Str(s) => s
    case Arr(elems) => JoinedElems(elems)
    case Obj(_) => "[object Object]"
  }

  function JoinedElems(elems: seq<Value>): string
    decreases elems, 0
  {
    if elems == [] then ""
    else Joined(elems[0]) + (if |elems| == 1 then "" else ",") + JoinedElems(elems[1..])
  }

  // "" + x for a property: a NumberInt is its number here.
  function Appended(x: Value): string {
    match x
    case Null => "null"
    case Undefined => "undefined"
    case NumInt(n) => IntText(n)
    case _ => Joined(x)
  }

  // The elements of an array from index i on, each after its index.
  function ElemsHash(elems: seq<Value>, i: nat): string {
    if elems == [] then "" else NatText(i) + Appended(elems[0]) + ElemsHash(elems[1..], i + 1)
  }

  function FieldsHash(fields: seq<Field>): string {
    if fields == [] then "" else fields[0].key + Appended(fields[0].val) + FieldsHash(fields[1..])
  }

  // Map.hash; None is its exception. A NumberInt has the property floatApprox, and after it the text of
  // what its prototype adds.
  function Hash(x: Value, added: string): Option<string> {
    match x
    case Null => Some("null")
    case Undefined => Some("undefined")
    case Bool(b) => if b then None else Some("false")
    case Num(text) => Some(text)
    case NumInt(n) => Some("floatApprox" + IntText(n) + added)
    case Str(s) => Some(s)
    case Arr(elems) => Some(ElemsHash(elems, 0))
    case Obj(fields) => Some(FieldsHash(fields))
  }

  // The loop over a value's properties.
  method MapHash(x: Value, added: string) returns (r: Option<string>)
    ensures r == Hash(x, added)
  {
    match x {
      case Null => r := Some("null");
      case Undefined => r := Some("undefined");
      case Bool(b) => r := if b then None else Some("false");
      case Num(text) => r := Some(text);
      case Str(text) => r := Some(text);
      case NumInt(n) => r := Some("floatApprox" + IntText(n) + added);
      case Arr(elems) =>
        var s := "";
        for i := 0 to |elems|
          invariant s + ElemsHash(elems[i..], i) == ElemsHash(elems, 0)
        {
          assert elems[i..][1..] == elems[i + 1..];
          Regroup(s, NatText(i) + Appended(elems[i]), ElemsHash(elems[i + 1..], i + 1));
          s := s + (NatText(i) + Appended(elems[i]));
        }
        assert elems[|elems|..] == [] && s + "" == s;
        r := Some(s);
      case Obj(fields) =>
        var s := "";
        for i := 0 to |fields|
          invariant s + FieldsHash(fields[i..]) == FieldsHash(fields)
        {
          assert fields[i..][1..] == fields[i + 1..];
          Regroup(s, fields[i].key + Appended(fields[i].val), FieldsHash(fields[i + 1..]));
          s := s + (fields[i].key + Appended(fields[i].val));
        }
        assert fields[|fields|..] == [] && s + "" == s;
        r := Some(s);
    }
  }

  // It throws for true and for nothing else.
  lemma HashThrowsIff(x: Value, added: string)
    ensures Hash(x, added) == None <==> x == Bool(true)
  {
  }

  // A value without properties of its own hashes to its text, and a NumberInt to its one property.
  lemma LeafHash(x: Value, added: string)
    requires !x.Arr? && !x.Obj? && x != Bool(true)
    ensures Hash(x, added) ==
      if x.NumInt? then Some(FieldsHash([Field("floatApprox", x)]) + added) else Some(Appended(x))
  {
    Alone(Field("floatApprox", x));
  }

  // The text of one property is its name and what it holds.
  lemma OneProperty(k: string, t: string, n: int)
    ensures FieldsHash([Field(k, Str(t))]) == FieldsHash([Field(k, Num(t))]) == k + t
    ensures FieldsHash([Field(k, NumInt(n))]) == k + IntText(n)
    ensures FieldsHash([Field(k, Null)]) == k + "null" && FieldsHash([Field(k, Undefined)]) == k + "undefined"
    ensures FieldsHash([Field(k, Bool(true))]) == k + "true" && FieldsHash([Field(k, Bool(false))]) == k + "false"
    ensures FieldsHash([Field(k, Obj([]))]) == k + "[object Object]"
  {
    Alone(Field(k, Str(t)));
    Alone(Field(k, Num(t)));
    Alone(Field(k, NumInt(n)));
    Alone(Field(k, Null));
    Alone(Field(k, Undefined));
    Alone(Field(k, Bool(true)));
    Alone(Field(k, Bool(false)));
    Alone(Field(k, Obj([])));
  }

  lemma Alone(f: Field)
    ensures FieldsHash([f]) == f.key + Appended(f.val)
  {
    assert [f][1..] == [] && FieldsHash([]) == "";
  }

  // Objects hash property by property, arrays like objects whose keys are the indices.
  lemma {:induction false} HashSplit(fs: seq<Field>, gs: seq<Field>)
    ensures FieldsHash(fs + gs) == FieldsHash(fs) + FieldsHash(gs)
  {
    if fs == [] {
      assert fs + gs == gs;
    } else {
      assert (fs + gs)[0] == fs[0] && (fs + gs)[1..] == fs[1..] + gs;
      HashSplit(fs[1..], gs);
    }
  }

  function ByIndex(elems: seq<Value>, i: nat): seq<Field> {
    seq(|elems|, j requires 0 <= j < |elems| => Field(NatText(i + j), elems[j]))
  }

  lemma {:induction false} HashByIndex(elems: seq<Value>, i: nat)
    ensures ElemsHash(elems, i) == FieldsHash(ByIndex(elems, i))
  {
    if elems != [] {
      assert ByIndex(elems, i)[1..] == ByIndex(elems[1..], i + 1);
      HashByIndex(elems[1..], i + 1);
    }
  }

  // An array as a property is its elements with commas between them, null and undefined as nothing and
  // NumberInts by name.
  lemma {:induction false} JoinedSplit(xs: seq<Value>, ys: seq<Value>)
    requires xs != [] && ys != []
    ensures JoinedElems(xs + ys) == JoinedElems(xs) + "," + JoinedElems(ys)
  {
    var all := xs + ys;
    assert all[0] == xs[0] && all[1..] == xs[1..] + ys;
    if |xs| > 1 {
      JoinedSplit(xs[1..], ys);
    } else {
      assert xs[1..] + ys == ys && JoinedElems(xs[1..]) == "";
    }
  }

  lemma JoinedOne(x: Value, t: string, n: int)
    ensures JoinedElems([x]) == Joined(x)
    ensures Joined(Null) == Joined(Undefined) == "" && Joined(NumInt(n)) == "NumberInt(" + IntText(n) + ")"
    ensures Joined(Str(t)) == Joined(Num(t)) == t
  {
    assert [x][1..] == [] && JoinedElems([]) == "";
  }

  // No NumberInt is reached through arrays alone.
  predicate NoneJoined(x: Value) {
    match x
    case NumInt(_) => false
    case Arr(elems) => forall i :: 0 <= i < |elems| ==> NoneJoined(elems[i])
    case _ => true
  }

  predicate Appendable(x: Value) {
    x.NumInt? || NoneJoined(x)
  }

  // A NumberInt only as a property, not as the key itself nor in an array within it.
  predicate Hashable(x: Value) {
    match x
    case NumInt(_) => false
    case Arr(elems) => forall i :: 0 <= i < |elems| ==> Appendable(elems[i])
    case Obj(fields) => forall i :: 0 <= i < |fields| ==> Appendable(fields[i].val)
    case _ => true
  }

  // Reading its NumberInts as numbers shortens a joined text, unless there are none in it.
  lemma {:induction false} JoinedShorter(x: Value)
    ensures |Joined(ReadInts(x))| <= |Joined(x)|
    ensures |Joined(ReadInts(x))| == |Joined(x)| ==> NoneJoined(x)
    ensures NoneJoined(x) ==> Joined(ReadInts(x)) == Joined(x)
    decreases x, 1
  {
    if x.Arr? {
      ElemsShorter(x.elems, ReadInts(x).elems);
    }
  }

  lemma {:induction false} ElemsShorter(xs: seq<Value>, ys: seq<Value>)
    requires |ys| == |xs| && forall i :: 0 <= i < |xs| ==> ys[i] == ReadInts(xs[i])
    ensures |JoinedElems(ys)| <= |JoinedElems(xs)|
    ensures |JoinedElems(ys)| == |JoinedElems(xs)| ==> forall i :: 0 <= i < |xs| ==> NoneJoined(xs[i])
    ensures (forall i :: 0 <= i < |xs| ==> NoneJoined(xs[i])) ==> JoinedElems(ys) == JoinedElems(xs)
    decreases xs, 0
  {
    if xs != [] {
      JoinedShorter(xs[0]);
      ElemsShorter(xs[1..], ys[1..]);
      assert forall i :: 1 <= i < |xs| ==> xs[i] == xs[1..][i - 1];
    }
  }

  lemma AppendedShorter(x: Value)
    ensures |Appended(ReadInts(x))| <= |Appended(x)|
    ensures |Appended(ReadInts(x))| == |Appended(x)| ==> Appendable(x)
    ensures Appendable(x) ==> Appended(ReadInts(x)) == Appended(x)
  {
    JoinedShorter(x);
  }

  lemma {:induction false} ElemsHashShorter(xs: seq<Value>, ys: seq<Value>, i: nat)
    requires |ys| == |xs| && forall k :: 0 <= k < |xs| ==> ys[k] == ReadInts(xs[k])
    ensures |ElemsHash(ys, i)| <= |ElemsHash(xs, i)|
    ensures |ElemsHash(ys, i)| == |ElemsHash(xs, i)| ==> forall k :: 0 <= k < |xs| ==> Appendable(xs[k])
    ensures (forall k :: 0 <= k < |xs| ==> Appendable(xs[k])) ==> ElemsHash(ys, i) == ElemsHash(xs, i)
  {
    if xs != [] {
      hide Appended, Appendable;
      AppendedShorter(xs[0]);
      ElemsHashShorter(xs[1..], ys[1..], i + 1);
      assert forall k :: 1 <= k < |xs| ==> xs[k] == xs[1..][k - 1];
    }
  }

  lemma {:induction false} FieldsHashShorter(fs: seq<Field>, gs: seq<Field>)
    requires |gs| == |fs| && forall k :: 0 <= k < |fs| ==> gs[k] == Field(fs[k].key, ReadInts(fs[k].val))
    ensures |FieldsHash(gs)| <= |FieldsHash(fs)|
    ensures |FieldsHash(gs)| == |FieldsHash(fs)| ==> forall k :: 0 <= k < |fs| ==> Appendable(fs[k].val)
    ensures (forall k :: 0 <= k < |fs| ==> Appendable(fs[k].val)) ==> FieldsHash(gs) == FieldsHash(fs)
  {
    if fs != [] {
      hide Appended, Appendable;
      AppendedShorter(fs[0].val);
      FieldsHashShorter(fs[1..], gs[1..]);
      assert forall k :: 1 <= k < |fs| ==> fs[k] == fs[1..][k - 1];
    }
  }

  // A value and the same with its NumberInts read as numbers hash alike if and only if NumberInts are in
  // it as properties only.
  lemma HashIff(x: Value, added: string)
    ensures Hash(x, added) == Hash(ReadInts(x), added) <==> Hashable(x)
  {
    match x {
      case Arr(elems) => ElemsHashShorter(elems, ReadInts(x).elems, 0);
      case Obj(fields) => FieldsHashShorter(fields, ReadInts(x).fields);
      case NumInt(n) => assert |"floatApprox" + IntText(n) + added| > |IntText(n)|;
      case _ =>
    }
  }

  // ----- Two values that are alike once their NumberInts are read as numbers -----

  // Where one has a NumberInt that names itself in a joined text, so does the other.
  predicate SameCalls(x: Value, y: Value) {
    match (x, y)
    case (Arr(xs), Arr(ys)) => |xs| == |ys| && forall i :: 0 <= i < |xs| ==> SameCalls(xs[i], ys[i])
    case _ => x.NumInt? <==> y.NumInt?
  }

  predicate SameAppended(x: Value, y: Value) {
    x.NumInt? || y.NumInt? || SameCalls(x, y)
  }

  // NumberInts in arrays that are properties stand at the same places.
  predicate HashedAlike(a: Value, b: Value) {
    match (a, b)
    case (Arr(xs), Arr(ys)) => |xs| == |ys| && forall i :: 0 <= i < |xs| ==> SameAppended(xs[i], ys[i])
    case (Obj(fs), Obj(gs)) => |fs| == |gs| && forall i :: 0 <= i < |fs| ==> SameAppended(fs[i].val, gs[i].val)
    case _ => false
  }

  lemma IntFirst(n: int)
    ensures IntText(n)[0] != 'N' && Diverge(NumIntText(n), IntText(n)) && Diverge(IntText(n), NumIntText(n))
  {
    assert NumIntText(n)[0] == 'N';
  }

  lemma {:induction false} JoinedCompare(x: Value, y: Value)
    requires ReadInts(x) == ReadInts(y)
    ensures if SameCalls(x, y) then Joined(x) == Joined(y) else Diverge(Joined(x), Joined(y))
    decreases x, 1
  {
    if x.NumInt? {
      IntFirst(x.n);
      if y.NumInt? {
        IntTextInjective(x.n, y.n);
      }
    } else if y.NumInt? {
      IntFirst(y.n);
    } else if x.Arr? {
      SameReads(x.elems, y.elems);
      JoinedElemsCompare(x.elems, y.elems);
    }
  }

  lemma SameReads(xs: seq<Value>, ys: seq<Value>)
    requires ReadInts(Arr(xs)) == ReadInts(Arr(ys))
    ensures |xs| == |ys| && forall i :: 0 <= i < |xs| ==> ReadInts(xs[i]) == ReadInts(ys[i])
  {
    var rs, ts := ReadInts(Arr(xs)).elems, ReadInts(Arr(ys)).elems;
    assert |rs| == |xs| && |ts| == |ys|;
    assert forall i :: 0 <= i < |xs| ==> rs[i] == ReadInts(xs[i]) && ts[i] == ReadInts(ys[i]);
  }

  lemma SameFieldReads(fs: seq<Field>, gs: seq<Field>)
    requires ReadInts(Obj(fs)) == ReadInts(Obj(gs))
    ensures |fs| == |gs|
    ensures forall i :: 0 <= i < |fs| ==> fs[i].key == gs[i].key && ReadInts(fs[i].val) == ReadInts(gs[i].val)
  {
    var rs, ts := ReadInts(Obj(fs)).fields, ReadInts(Obj(gs)).fields;
    assert |rs| == |fs| && |ts| == |gs|;
    assert forall i :: 0 <= i < |fs| ==>
      rs[i] == Field(fs[i].key, ReadInts(fs[i].val)) && ts[i] == Field(gs[i].key, ReadInts(gs[i].val));
  }

  lemma {:induction false} JoinedElemsCompare(xs: seq<Value>, ys: seq<Value>)
    requires |xs| == |ys| && forall i :: 0 <= i < |xs| ==> ReadInts(xs[i]) == ReadInts(ys[i])
    ensures if forall i :: 0 <= i < |xs| ==> SameCalls(xs[i], ys[i])
            then JoinedElems(xs) == JoinedElems(ys)
            else Diverge(JoinedElems(xs), JoinedElems(ys))
    decreases xs, 0
  {
    if xs != [] {
      hide Diverge, Joined, SameCalls, ReadInts;
      var sep := if |xs| == 1 then "" else ",";
      JoinedCompare(xs[0], ys[0]);
      JoinedElemsCompare(xs[1..], ys[1..]);
      AllSame(xs, ys, SameCalls);
      DivergeDiffers(Joined(xs[0]), Joined(ys[0]));
      DivergeDiffers(JoinedElems(xs[1..]), JoinedElems(ys[1..]));
      Follow("", Joined(xs[0]), Joined(ys[0]), sep, JoinedElems(xs[1..]), JoinedElems(ys[1..]));
      assert "" + Joined(xs[0]) == Joined(xs[0]) && "" + Joined(ys[0]) == Joined(ys[0]);
    }
  }

  lemma AllSame<T>(xs: seq<T>, ys: seq<T>, same: (T, T) -> bool)
    requires |xs| == |ys| > 0
    ensures (forall i :: 0 <= i < |xs| ==> same(xs[i], ys[i])) <==>
      same(xs[0], ys[0]) && forall i :: 0 <= i < |xs[1..]| ==> same(xs[1..][i], ys[1..][i])
  {
    assert forall i :: 0 <= i < |xs[1..]| ==> xs[1..][i] == xs[i + 1] && ys[1..][i] == ys[i + 1];
    if same(xs[0], ys[0]) && forall i :: 0 <= i < |xs[1..]| ==> same(xs[1..][i], ys[1..][i]) {
      forall i | 0 <= i < |xs| ensures same(xs[i], ys[i]) {
        assert i > 0 ==> same(xs[1..][i - 1], ys[1..][i - 1]);
      }
    }
  }

  // Texts that are each the same or diverge, put together.
  lemma Follow(p: string, s: string, t: string, sep: string, y: string, z: string)
    requires s == t || Diverge(s, t)
    requires y == z || Diverge(y, z)
    ensures s == t && y == z ==> p + s + sep + y == p + t + sep + z
    ensures s != t || y != z ==> Diverge(p + s + sep + y, p + t + sep + z)
  {
    hide Diverge;
    if s != t {
      DivergeInside(p, s, t, sep + y, sep + z);
      Regroup(p + s, sep, y);
      Regroup(p + t, sep, z);
    } else if y != z {
      DivergeAfter(p + s + sep, y, z);
    }
  }

  lemma DivergeDiffers(s: string, t: string)
    ensures Diverge(s, t) ==> s != t
  {
  }

  lemma AppendedCompare(x: Value, y: Value)
    requires ReadInts(x) == ReadInts(y)
    ensures if SameAppended(x, y) then Appended(x) == Appended(y) else Diverge(Appended(x), Appended(y))
  {
    if !x.NumInt? && !y.NumInt? {
      JoinedCompare(x, y);
    }
  }

  lemma {:induction false} ElemsHashCompare(xs: seq<Value>, ys: seq<Value>, i: nat)
    requires |xs| == |ys| && forall k :: 0 <= k < |xs| ==> ReadInts(xs[k]) == ReadInts(ys[k])
    ensures if forall k :: 0 <= k < |xs| ==> SameAppended(xs[k], ys[k])
            then ElemsHash(xs, i) == ElemsHash(ys, i)
            else Diverge(ElemsHash(xs, i), ElemsHash(ys, i))
  {
    if xs != [] {
      hide Diverge, Appended, SameAppended, ReadInts, NatText;
      var r, t := ElemsHash(xs[1..], i + 1), ElemsHash(ys[1..], i + 1);
      AppendedCompare(xs[0], ys[0]);
      ElemsHashCompare(xs[1..], ys[1..], i + 1);
      AllSame(xs, ys, SameAppended);
      DivergeDiffers(Appended(xs[0]), Appended(ys[0]));
      DivergeDiffers(r, t);
      Follow(NatText(i), Appended(xs[0]), Appended(ys[0]), "", r, t);
      assert NatText(i) + Appended(xs[0]) + "" == NatText(i) + Appended(xs[0]);
      assert NatText(i) + Appended(ys[0]) + "" == NatText(i) + Appended(ys[0]);
    }
  }

  predicate SameField(f: Field, g: Field) {
    SameAppended(f.val, g.val)
  }

  lemma {:induction false} FieldsHashCompare(fs: seq<Field>, gs: seq<Field>)
    requires |fs| == |gs|
    requires forall k :: 0 <= k < |fs| ==> fs[k].key == gs[k].key && ReadInts(fs[k].val) == ReadInts(gs[k].val)
    ensures if forall k :: 0 <= k < |fs| ==> SameField(fs[k], gs[k])
            then FieldsHash(fs) == FieldsHash(gs)
            else Diverge(FieldsHash(fs), FieldsHash(gs))
  {
    if fs != [] {
      hide Diverge, Appended, SameAppended, ReadInts;
      var k, r, t := fs[0].key, FieldsHash(fs[1..]), FieldsHash(gs[1..]);
      AppendedCompare(fs[0].val, gs[0].val);
      FieldsHashCompare(fs[1..], gs[1..]);
      AllSame(fs, gs, SameField);
      DivergeDiffers(Appended(fs[0].val), Appended(gs[0].val));
      DivergeDiffers(r, t);
      Follow(k, Appended(fs[0].val), Appended(gs[0].val), "", r, t);
      assert k + Appended(fs[0].val) + "" == k + Appended(fs[0].val);
      assert k + Appended(gs[0].val) + "" == k + Appended(gs[0].val);
    }
  }

  // Two arrays, or two objects, alike once their NumberInts are read as numbers hash alike if and only if
  // the NumberInts in arrays that are properties stand at the same places in both.
  lemma HashAlikeIff(a: Value, b: Value, added: string)
    requires (a.Arr? || a.Obj?) && ReadInts(a) == ReadInts(b)
    ensures Hash(a, added) == Hash(b, added) <==> HashedAlike(a, b)
  {
    if a.Arr? {
      SameReads(a.elems, b.elems);
      ElemsHashCompare(a.elems, b.elems, 0);
      DivergeDiffers(ElemsHash(a.elems, 0), ElemsHash(b.elems, 0));
    } else {
      SameFieldReads(a.fields, b.fields);
      FieldsHashCompare(a.fields, b.fields);
      DivergeDiffers(FieldsHash(a.fields), FieldsHash(b.fields));
      assert forall i :: 0 <= i < |a.fields| ==>
        (SameField(a.fields[i], b.fields[i]) <==> SameAppended(a.fields[i].val, b.fields[i].val));
    }
  }

  // Keys that friendlyEqual equates lie in one bucket if and only if that is so.
  lemma EqualKeysIff(a: Value, b: Value, added: string)
    requires a.Arr? || a.Obj?
    requires NumbersOk(a) && SafeKeys(a) && NoMention(a) && NumbersOk(b) && SafeKeys(b) && NoMention(b)
    requires FriendlyEqual(a, b, false)
    ensures Hash(a, added) == Hash(b, added) <==> HashedAlike(a, b)
  {
    FriendlyEqualSound(a, b, false);
    HashAlikeIff(a, b, added);
  }

  // ----- Keys the map works for -----

  // Arrays and objects only: between those `==` is identity.
  ghost predicate IsKey(x: Value) {
    (x.Arr? || x.Obj?) && NumbersOk(x) && SafeKeys(x) && NoMention(x) && Hashable(x)
  }

  type Key = x: Value | IsKey(x) witness Arr([])

  // friendlyEqual of two keys that are not one object; for one and the same the answer is true as well.
  function Same(a: Key, b: Key): bool {
    FriendlyEqual(a, b, false)
  }

  lemma SameIff(a: Key, b: Key)
    ensures Same(a, b) <==> Fold(a) == Fold(b) && SameBreaks(a, b)
  {
    FriendlyEqualIff(a, b, false);
  }

  lemma {:induction false} SameBreaksChain(a: Value, b: Value, c: Value)
    requires Fold(a) == Fold(b) == Fold(c) && SameBreaks(a, b)
    ensures SameBreaks(b, a) && (SameBreaks(b, c) ==> SameBreaks(a, c))
  {
    if a.Obj? && b.Obj? && c.Obj? {
      forall i | 0 <= i < |a.fields|
        ensures SameBreaks(b.fields[i].val, a.fields[i].val)
        ensures SameBreaks(b.fields[i].val, c.fields[i].val) ==> SameBreaks(a.fields[i].val, c.fields[i].val)
      {
        assert FoldFields(a.fields)[i] == FoldFields(b.fields)[i] == FoldFields(c.fields)[i];
        SameBreaksChain(a.fields[i].val, b.fields[i].val, c.fields[i].val);
      }
    }
  }

  lemma SameEquivalence(a: Key, b: Key, c: Key)
    ensures Same(a, a)
    ensures Same(a, b) ==> Same(b, a)
    ensures Same(a, b) && Same(b, c) ==> Same(a, c)
  {
    hide Same, Fold, SameBreaks, IsKey;
    SameIff(a, a);
    SameIff(a, b);
    SameIff(b, a);
    SameIff(b, c);
    SameIff(a, c);
    SameBreaksSelf(a);
    if Same(a, b) {
      SameBreaksChain(a, b, a);
      if Same(b, c) {
        SameBreaksChain(a, b, c);
      }
    }
  }

  lemma SameHash(a: Key, b: Key, added: string)
    requires Same(a, b)
    ensures Hash(a, added) == Hash(b, added)
  {
    SameIff(a, b);
    FoldIsReadInts(a);
    FoldIsReadInts(b);
    HashIff(a, added);
    HashIff(b, added);
  }

  // For such keys friendlyEqual is an equivalence that Map.hash respects.
  lemma ShellKeys(added: string)
    ensures HashMap.Equivalence((a: Key, b: Key) => Same(a, b))
    ensures HashMap.Respects((k: Key) => Hash(k, added), (a: Key, b: Key) => Same(a, b))
  {
    hide Same, Hash, IsKey;
    forall a: Key, b: Key, c: Key
      ensures Same(a, a) && (Same(a, b) ==> Same(b, a)) && (Same(a, b) && Same(b, c) ==> Same(a, c))
    {
      SameEquivalence(a, b, c);
    }
    forall a: Key, b: Key | Same(a, b) ensures Hash(a, added) == Hash(b, added) {
      SameHash(a, b, added);
    }
  }

  // ----- Inputs for which it does not -----

  lemma {:induction false} ReadTwice(x: Value)
    ensures ReadInts(ReadInts(x)) == ReadInts(x)
    ensures NoMention(x) ==> NoMention(ReadInts(x))
  {
    match x {
      case Arr(elems) =>
        var rs := ReadInts(x).elems;
        forall i | 0 <= i < |elems|
          ensures ReadInts(rs[i]) == rs[i] && (NoMention(elems[i]) ==> NoMention(rs[i]))
        {
          ReadTwice(elems[i]);
        }
        assert ReadInts(Arr(rs)).elems == rs;
      case Obj(fields) =>
        var rs := ReadInts(x).fields;
        forall i | 0 <= i < |fields|
          ensures ReadInts(rs[i].val) == rs[i].val && (NoMention(fields[i].val) ==> NoMention(rs[i].val))
        {
          ReadTwice(fields[i].val);
        }
        assert ReadInts(Obj(rs)).fields == rs;
      case _ =>
    }
  }

  lemma {:induction false} ReadsSafe(x: Value)
    requires NumbersOk(x) && SafeKeys(x)
    ensures NumbersOk(ReadInts(x)) && SafeKeys(ReadInts(x)) && !ReadInts(x).NumInt?
  {
    match x {
      case NumInt(n) => WordLengthIs(IntText(n), |IntText(n)|);
      case Arr(elems) =>
        var rs := ReadInts(x).elems;
        forall i | 0 <= i < |elems| ensures NumbersOk(rs[i]) && SafeKeys(rs[i]) {
          ReadsSafe(elems[i]);
        }
      case Obj(fields) =>
        var rs := ReadInts(x).fields;
        forall i | 0 <= i < |fields|
          ensures NumbersOk(rs[i].val) && SafeKeys(rs[i].val) && !rs[i].val.NumInt? && rs[i].key == fields[i].key
        {
          ReadsSafe(fields[i].val);
        }
        NoBorrow(rs);
      case _ =>
    }
  }

  // friendlyEqual equates a value with the same without NumberInts, and the hash does just when NumberInts
  // are in it as properties only.
  lemma HashSeparatesIff(x: Value, added: string)
    requires NumbersOk(x) && SafeKeys(x) && NoMention(x) && SameBreaks(x, ReadInts(x))
    ensures FriendlyEqual(x, ReadInts(x), false)
    ensures Hash(x, added) == Hash(ReadInts(x), added) <==> Hashable(x)
  {
    ReadTwice(x);
    ReadsSafe(x);
    FoldIsReadInts(x);
    FoldIsReadInts(ReadInts(x));
    HashIff(x, added);
    FriendlyEqualIff(x, ReadInts(x), false);
  }

  // Where `==` coerces, friendlyEqual answers true: of null and undefined, of 0 and the empty string, of 5
  // and [5]. They hash apart.
  lemma CoercionSeparates(added: string)
    ensures FriendlyEqual(Null, Undefined, true) && Hash(Null, added) != Hash(Undefined, added)
    ensures FriendlyEqual(Num("0"), Str(""), true) && Hash(Num("0"), added) != Hash(Str(""), added)
    ensures var five := Num("5");
      FriendlyEqual(five, Arr([five]), true) && Hash(five, added) != Hash(Arr([five]), added)
  {
    assert |"null"| != |"undefined"|;
    var elems := [Num("5")];
    assert elems[1..] == [] && ElemsHash(elems[1..], 1) == "";
    assert |ElemsHash(elems, 0)| == |NatText(0)| + 1;
  }

  // For example, [[NumberInt(n)]] and [[n]] are answered equal, and lie in different buckets.
  lemma HashSeparates(n: int, added: string)
    requires |IntText(n)| < 40
    ensures var a, b := Arr([Arr([NumInt(n)])]), Arr([Arr([Num(IntText(n))])]);
      FriendlyEqual(a, b, false) && Hash(a, added) != Hash(b, added)
  {
    var x, y := NumInt(n), Num(IntText(n));
    var a, b := Arr([Arr([x])]), Arr([Arr([y])]);
    NestedReads(n);
    NotHashable(n);
    HashIff(a, added);
    hide Hash, Hashable, ReadInts, Fold, SameBreaks, ArrayText, JsonText;
    FoldIsReadInts(a);
    FoldIsReadInts(b);
    NestedShort(x);
    NestedShort(y);
    LeafLengths(n);
    WordLengthIs(IntText(n), |IntText(n)|);
    assert SameBreaks(a, b) by { ShortSame([Arr([x])], [Arr([y])]); }
    FriendlyEqualIff(a, b, false);
  }

  lemma NestedReads(n: int)
    ensures var a, b := Arr([Arr([NumInt(n)])]), Arr([Arr([Num(IntText(n))])]);
      ReadInts(a) == b == ReadInts(b) && NoMention(a) && NoMention(b)
  {
    var x, y := NumInt(n), Num(IntText(n));
    ReadsOne(x, y);
    ReadsOne(y, y);
    ReadsOne(Arr([x]), Arr([y]));
    ReadsOne(Arr([y]), Arr([y]));
    MentionsOne(x);
    MentionsOne(y);
    MentionsOne(Arr([x]));
    MentionsOne(Arr([y]));
  }

  lemma ReadsOne(x: Value, y: Value)
    requires ReadInts(x) == y
    ensures ReadInts(Arr([x])) == Arr([y])
  {
    var elems := ReadInts(Arr([x])).elems;
    assert |elems| == 1 && elems[0] == y;
    assert elems == [y];
  }

  lemma MentionsOne(x: Value)
    requires NoMention(x)
    ensures NoMention(Arr([x]))
  {
  }

  lemma NotHashable(n: int)
    ensures !Hashable(Arr([Arr([NumInt(n)])]))
  {
    var inner := Arr([NumInt(n)]);
    assert !NoneJoined(inner.elems[0]);
    assert !NoneJoined(inner);
    assert !Appendable(Arr([inner]).elems[0]);
  }

  lemma SingleLength(x: Value, indent: string)
    ensures |ArrayText([x], indent, On)| == |JsonText(x, "\t", On)| + 5
  {
    ArrayPieces([x], indent, On);
    LastElem(x);
  }

  lemma NestedShort(x: Value)
    ensures |ArrayText([Arr([x])], "", On)| == |JsonText(x, "\t", On)| + 10
  {
    hide ArrayText;
    SingleLength(x, "\t");
    SingleLength(Arr([x]), "");
    InnerArray(x);
  }

  lemma InnerArray(x: Value)
    ensures JsonText(Arr([x]), "\t", On) == ArrayText([x], "\t", On)
  {
    hide ArrayText;
  }

  lemma LeafLengths(n: int)
    ensures |JsonText(NumInt(n), "\t", On)| == |IntText(n)| + 11
    ensures |JsonText(Num(IntText(n)), "\t", On)| == |IntText(n)|
  {
  }

  lemma ShortSame(xs: seq<Value>, ys: seq<Value>)
    requires |ArrayText(xs, "", On)| < 80 && |ArrayText(ys, "", On)| < 80
    ensures SameBreaks(Arr(xs), Arr(ys))
  {
  }
}
