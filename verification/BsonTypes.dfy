// What convertJStoBSON sends, told by a reading of BSON that keeps the type of every value.
module BsonTypes {
  import opened JavaInts
  import opened TimestampGenerator
  import opened Bson
  import opened BsonRoundTrip

  // ----- Reading BSON with its types -----

  // The value of the shell that a BSON value stands for: an int32 is a NumberInt, an int64 a NumberLong,
  // a double a plain number, code a function.
  function Typed(b: Bson): Js
    decreases b, 1
  {
    match b
    case BList(elems) => JArray(TypedElems(elems))
    case BDocument(fields) => JObject(TypedFields(fields))
    case BPattern(source, flags) => JRegExp(source, flags)
    case BObjectId(oid) => JObjectId(oid)
    case BBinary(subtype, data) => JBinData(if subtype < 0 then subtype + 0x100 else subtype, data)
    case BBytes(data) => JBinData(0, data)
    case BUuid(most, least) => JBinData(3, PutLong(most) + PutLong(least))
    case BMinKey => JMinKey
    case BMaxKey => JMaxKey
    case BInteger(n) => JNumberInt(n)
    case BLong(n) => JNumberLong(n)
    case BDBRef(ns, id) => JDBRef(ns, Typed(id))
    case BDBPointer(ns, oid) => JDBPointer(ns, oid)
    case BTimestamp(ts) => JTimestamp(ts.time, ts.inc)
    case BCode(code) => JFunction(code)
    case BSymbol(symbol) => JString(symbol)
    case BDate(millis) => JDate(millis)
    case BString(s) => JString(s)
    case BUndefined => JUndefined
    case BNull => JNull
    case BBool(v) => JBool(v)
    case BDouble(d) => JDouble(d)
  }

  function TypedElems(elems: seq<Bson>): (r: seq<Js>)
    ensures |r| == |elems|
    decreases elems, 0
  {
    if elems == [] then [] else [Typed(elems[0])] + TypedElems(elems[1..])
  }

  function TypedFields(fields: seq<BsonField>): (r: seq<JsField>)
    ensures |r| == |fields|
    decreases fields, 0
  {
    if fields == [] then [] else [JsField(fields[0].key, Typed(fields[0].val))] + TypedFields(fields[1..])
  }

  // ----- What of a value is kept -----

  // A Timestamp whose seconds are none as a Java int is given a time when it is sent.
  predicate Unstamped(js: Js) {
    js.JTimestamp? && ToInt32(js.t) == 0
  }

  // How many there are in a value.
  function Unset(js: Js): nat
    decreases js, 1
  {
    match js
    case JArray(elems) => UnsetElems(elems)
    case JObject(fields) => UnsetFields(fields)
    case JDBRef(_, id) => Unset(id)
    case _ => if Unstamped(js) then 1 else 0
  }

  function UnsetElems(elems: seq<Js>): nat
    decreases elems, 0
  {
    if elems == [] then 0 else Unset(elems[0]) + UnsetElems(elems[1..])
  }

  function UnsetFields(fields: seq<JsField>): nat
    decreases fields, 0
  {
    if fields == [] then 0 else Unset(fields[0].val) + UnsetFields(fields[1..])
  }

  // The generator and the clock after k more readings, and the timestamp made of reading k.
  function After(w: World, clock: nat -> int, k: nat): World {
    if k == 0 then w
    else
      var before := After(w, clock, k - 1);
      World(Advance(before.gen, clock(before.readings)), before.readings + 1)
  }

  function Stamp(w: World, clock: nat -> int, k: nat): BsonTime {
    var gen := After(w, clock, k + 1).gen;
    BsonTime(gen.lastSec, gen.incrementer)
  }

  // The value as it is sent, the first of its unset timestamps being the one made of reading k: a plain
  // integer is a double, a bare MinKey or MaxKey an instance, a UUID has 16 bytes, a timestamp is of ints,
  // and the unset ones are stamped in document order. Nothing else changes.
  function Kept(js: Js, w: World, clock: nat -> int, k: nat): Js
    decreases js, 1
  {
    match js
    case JArray(elems) => JArray(KeptElems(elems, w, clock, k))
    case JObject(fields) => JObject(KeptFields(fields, w, clock, k))
    case JDBRef(ns, id) => JDBRef(ns, Kept(id, w, clock, k))
    case JInteger(n) => JDouble(n as real)
    case JLong(n) => JDouble(n as real)
    case JKeyClass(min) => if min then JMinKey else JMaxKey
    case JBinData(subtype, data) => JBinData(subtype, if subtype == 3 && |data| > 16 then data[..16] else data)
    case JTimestamp(t, i) =>
      if Unstamped(js) then
        var ts := Stamp(w, clock, k);
        JTimestamp(ts.time, ts.inc)
      else JTimestamp(ToInt32(t), ToInt32(i))
    case _ => js
  }

  function KeptElems(elems: seq<Js>, w: World, clock: nat -> int, k: nat): (r: seq<Js>)
    ensures |r| == |elems|
    decreases elems, 0
  {
    if elems == [] then []
    else [Kept(elems[0], w, clock, k)] + KeptElems(elems[1..], w, clock, k + Unset(elems[0]))
  }

  function KeptFields(fields: seq<JsField>, w: World, clock: nat -> int, k: nat): (r: seq<JsField>)
    ensures |r| == |fields|
    decreases fields, 0
  {
    if fields == [] then []
    else
      [JsField(fields[0].key, Kept(fields[0].val, w, clock, k))]
      + KeptFields(fields[1..], w, clock, k + Unset(fields[0].val))
  }

  // ----- Which values convert -----

  // No object of another class, and no UUID of fewer than 16 bytes, at any depth.
  predicate Converts(js: Js)
    decreases js, 1
  {
    match js
    case JArray(elems) => ElemsConvert(elems)
    case JObject(fields) => FieldsConvert(fields)
    case JDBRef(_, id) => Converts(id)
    case JBinData(subtype, data) => subtype == 3 ==> |data| >= 16
    case JOther(_) => false
    case _ => true
  }

  predicate ElemsConvert(elems: seq<Js>)
    decreases elems, 0
  {
    elems == [] || (Converts(elems[0]) && ElemsConvert(elems[1..]))
  }

  predicate FieldsConvert(fields: seq<JsField>)
    decreases fields, 0
  {
    fields == [] || (Converts(fields[0].val) && FieldsConvert(fields[1..]))
  }

  // ----- The law -----

  ghost predicate SentFrom(js: Js, w: World, clock: nat -> int, k: nat) {
    match ToBson(js, After(w, clock, k), clock)
    case Thrown => !Converts(js)
    case Ok((b, w')) =>
      Converts(js) && Plain(b) && Typed(b) == Kept(js, w, clock, k) && w' == After(w, clock, k + Unset(js))
  }

  ghost predicate ElemsSentFrom(elems: seq<Js>, w: World, clock: nat -> int, k: nat) {
    match ElemsToBson(elems, After(w, clock, k), clock)
    case Thrown => !ElemsConvert(elems)
    case Ok((bs, w')) =>
      && ElemsConvert(elems) && PlainElems(bs) && TypedElems(bs) == KeptElems(elems, w, clock, k)
      && w' == After(w, clock, k + UnsetElems(elems))
  }

  ghost predicate FieldsSentFrom(fields: seq<JsField>, w: World, clock: nat -> int, k: nat) {
    match FieldsToBson(fields, After(w, clock, k), clock)
    case Thrown => !FieldsConvert(fields)
    case Ok((bs, w')) =>
      && FieldsConvert(fields) && PlainFields(bs) && TypedFields(bs) == KeptFields(fields, w, clock, k)
      && w' == After(w, clock, k + UnsetFields(fields))
  }

  lemma {:induction false} ToBsonFrom(js: Js, w: World, clock: nat -> int, k: nat)
    ensures SentFrom(js, w, clock, k)
    decreases js, 1
  {
    match js {
      case JArray(elems) =>
        ElemsToBsonFrom(elems, w, clock, k);
        ArraySent(elems, w, clock, k);
      case JObject(fields) =>
        FieldsToBsonFrom(fields, w, clock, k);
        ObjectSent(fields, w, clock, k);
      case JDBRef(ns, id) =>
        ToBsonFrom(id, w, clock, k);
        RefSent(ns, id, w, clock, k);
      case JBinData(subtype, data) => BinDataSent(subtype, data, w, clock, k);
      case JTimestamp(t, i) => TimestampSent(t, i, w, clock, k);
      case _ => LeafSent(js, w, clock, k);
    }
    hide SentFrom;
  }

  lemma ArraySent(elems: seq<Js>, w: World, clock: nat -> int, k: nat)
    requires ElemsSentFrom(elems, w, clock, k)
    ensures SentFrom(JArray(elems), w, clock, k)
  {
    hide After, ElemsToBson, TypedElems, KeptElems, ElemsConvert, PlainElems, UnsetElems;
  }

  lemma ObjectSent(fields: seq<JsField>, w: World, clock: nat -> int, k: nat)
    requires FieldsSentFrom(fields, w, clock, k)
    ensures SentFrom(JObject(fields), w, clock, k)
  {
    hide After, FieldsToBson, TypedFields, KeptFields, FieldsConvert, PlainFields, UnsetFields;
  }

  lemma RefSent(ns: string, id: Js, w: World, clock: nat -> int, k: nat)
    requires SentFrom(id, w, clock, k)
    ensures SentFrom(JDBRef(ns, id), w, clock, k)
  {
    hide After, ElemsToBson, TypedElems, KeptElems, ElemsConvert, PlainElems, UnsetElems;
    hide FieldsToBson, TypedFields, KeptFields, FieldsConvert, PlainFields, UnsetFields, GetLong, PutLong;
  }

  lemma LeafSent(js: Js, w: World, clock: nat -> int, k: nat)
    requires IsLeaf(js)
    ensures SentFrom(js, w, clock, k)
  {
    if IsMongo(js) {
      MongoLeafSent(js, w, clock, k);
    } else {
      PlainLeafSent(js, w, clock, k);
    }
    hide SentFrom;
  }

  lemma MongoLeafSent(js: Js, w: World, clock: nat -> int, k: nat)
    requires IsMongo(js)
    ensures SentFrom(js, w, clock, k)
  {
    hide After, ElemsToBson, FieldsToBson, TypedElems, TypedFields, KeptElems, KeptFields, PutLong, GetLong;
    hide PlainElems, PlainFields, ElemsConvert, FieldsConvert, UnsetElems, UnsetFields;
  }

  lemma PlainLeafSent(js: Js, w: World, clock: nat -> int, k: nat)
    requires IsLeaf(js) && !IsMongo(js)
    ensures SentFrom(js, w, clock, k)
  {
    hide After, ElemsToBson, FieldsToBson, TypedElems, TypedFields, KeptElems, KeptFields, PutLong, GetLong;
    hide PlainElems, PlainFields, ElemsConvert, FieldsConvert, UnsetElems, UnsetFields;
  }

  lemma BinDataSent(subtype: Byte, data: seq<Byte>, w: World, clock: nat -> int, k: nat)
    ensures SentFrom(JBinData(subtype, data), w, clock, k)
  {
    ByteAsInt8(subtype);
    hide ToInt8, GetLong, PutLong, After;
    hide ElemsToBson, FieldsToBson, TypedElems, TypedFields;
    if subtype == 3 && |data| >= 16 {
      UuidBytes(data[..16]);
      assert data[..16][..8] == data[..8] && data[..16][8..16] == data[8..16];
      assert |data| == 16 ==> data[..16] == data;
    }
  }

  lemma TimestampSent(t: Int64, i: Int64, w: World, clock: nat -> int, k: nat)
    ensures SentFrom(JTimestamp(t, i), w, clock, k)
  {
    hide ToInt32, Advance, ElemsToBson, FieldsToBson, TypedElems, TypedFields;
  }

  lemma {:induction false} ElemsToBsonFrom(elems: seq<Js>, w: World, clock: nat -> int, k: nat)
    ensures ElemsSentFrom(elems, w, clock, k)
    decreases elems, 0
  {
    if elems != [] {
      ToBsonFrom(elems[0], w, clock, k);
      ElemsToBsonFrom(elems[1..], w, clock, k + Unset(elems[0]));
      ElemsCons(elems, w, clock, k);
    }
    hide ToBson, Kept, Unset, After;
  }

  lemma ElemsCons(elems: seq<Js>, w: World, clock: nat -> int, k: nat)
    requires elems != [] && SentFrom(elems[0], w, clock, k)
    requires ElemsSentFrom(elems[1..], w, clock, k + Unset(elems[0]))
    ensures ElemsSentFrom(elems, w, clock, k)
  {
    hide After, ToBson, Typed, Kept, Converts, Unset, Plain;
    if Converts(elems[0]) && ElemsConvert(elems[1..]) {
      var b := ToBson(elems[0], After(w, clock, k), clock).value.0;
      var bs := ElemsToBson(elems[1..], After(w, clock, k + Unset(elems[0])), clock).value.0;
      SameHeadTail(b, bs, b, bs);
    }
  }

  lemma {:induction false} FieldsToBsonFrom(fields: seq<JsField>, w: World, clock: nat -> int, k: nat)
    ensures FieldsSentFrom(fields, w, clock, k)
    decreases fields, 0
  {
    if fields != [] {
      ToBsonFrom(fields[0].val, w, clock, k);
      FieldsToBsonFrom(fields[1..], w, clock, k + Unset(fields[0].val));
      FieldsCons(fields, w, clock, k);
    }
    hide ToBson, Kept, Unset, After;
  }

  lemma FieldsCons(fields: seq<JsField>, w: World, clock: nat -> int, k: nat)
    requires fields != [] && SentFrom(fields[0].val, w, clock, k)
    requires FieldsSentFrom(fields[1..], w, clock, k + Unset(fields[0].val))
    ensures FieldsSentFrom(fields, w, clock, k)
  {
    hide After, ToBson, Typed, Kept, Converts, Unset, Plain;
    var js := fields[0].val;
    if Converts(js) && FieldsConvert(fields[1..]) {
      var b := BsonField(fields[0].key, ToBson(js, After(w, clock, k), clock).value.0);
      var bs := FieldsToBson(fields[1..], After(w, clock, k + Unset(js)), clock).value.0;
      SameHeadTail(b, bs, b, bs);
    }
  }

  // convertJStoBSON refuses exactly the values that do not convert. Of the others it sends what, read with
  // its types, is the value itself up to the changes Kept makes, and it reads the clock once for every
  // unset timestamp and no more.
  lemma ToBsonTyped(js: Js, w: World, clock: nat -> int)
    ensures ToBson(js, w, clock).Ok? <==> Converts(js)
    ensures Converts(js) ==>
              var (b, w') := ToBson(js, w, clock).value;
              && Typed(b) == Kept(js, w, clock, 0)
              && w' == After(w, clock, Unset(js)) && w'.readings == w.readings + Unset(js)
  {
    hide ToBson, Kept, Converts, Typed, Plain, Unset;
    ToBsonFrom(js, w, clock, 0);
    Readings(w, clock, Unset(js));
  }

  lemma {:induction false} Readings(w: World, clock: nat -> int, k: nat)
    ensures After(w, clock, k).readings == w.readings + k
  {
    if k > 0 {
      Readings(w, clock, k - 1);
    }
  }

  // ----- Nothing else is lost -----

  // BSON as convertJStoBSON builds it: no symbols or raw bytes, and UUIDs as such.
  predicate Plain(b: Bson)
    decreases b, 1
  {
    match b
    case BList(elems) => PlainElems(elems)
    case BDocument(fields) => PlainFields(fields)
    case BDBRef(_, id) => Plain(id)
    case BBinary(subtype, _) => subtype != 3
    case BBytes(_) => false
    case BSymbol(_) => false
    case _ => true
  }

  predicate PlainElems(elems: seq<Bson>)
    decreases elems, 0
  {
    elems == [] || (Plain(elems[0]) && PlainElems(elems[1..]))
  }

  predicate PlainFields(fields: seq<BsonField>)
    decreases fields, 0
  {
    fields == [] || (Plain(fields[0].val) && PlainFields(fields[1..]))
  }

  lemma {:induction false} TypedInjective(b: Bson, c: Bson)
    requires Plain(b) && Plain(c) && Typed(b) == Typed(c)
    ensures b == c
    decreases b, 1
  {
    match b {
      case BList(elems) => TypedElemsInjective(elems, c.elems);
      case BDocument(fields) => TypedFieldsInjective(fields, c.fields);
      case BDBRef(_, id) => TypedInjective(id, c.id);
      case BUuid(most, least) => UuidLongs(most, least); UuidLongs(c.mostSig, c.leastSig);
      case _ =>
    }
  }

  lemma {:induction false} TypedElemsInjective(bs: seq<Bson>, cs: seq<Bson>)
    requires PlainElems(bs) && PlainElems(cs) && TypedElems(bs) == TypedElems(cs)
    ensures bs == cs
    decreases bs, 0
  {
    assert |bs| == |cs|;
    if bs != [] {
      SameHeadTail(Typed(bs[0]), TypedElems(bs[1..]), Typed(cs[0]), TypedElems(cs[1..]));
      TypedInjective(bs[0], cs[0]);
      TypedElemsInjective(bs[1..], cs[1..]);
    }
  }

  lemma {:induction false} TypedFieldsInjective(bs: seq<BsonField>, cs: seq<BsonField>)
    requires PlainFields(bs) && PlainFields(cs) && TypedFields(bs) == TypedFields(cs)
    ensures bs == cs
    decreases bs, 0
  {
    assert |bs| == |cs|;
    if bs != [] {
      SameHeadTail(JsField(bs[0].key, Typed(bs[0].val)), TypedFields(bs[1..]),
                   JsField(cs[0].key, Typed(cs[0].val)), TypedFields(cs[1..]));
      TypedInjective(bs[0].val, cs[0].val);
      TypedFieldsInjective(bs[1..], cs[1..]);
    }
  }

  // Two values are sent alike exactly when they are the same up to what Kept changes.
  lemma SentAlikeIff(x: Js, y: Js, w: World, clock: nat -> int)
    requires Converts(x) && Converts(y)
    ensures ToBson(x, w, clock).Ok? && ToBson(y, w, clock).Ok?
    ensures ToBson(x, w, clock).value.0 == ToBson(y, w, clock).value.0
       <==> Kept(x, w, clock, 0) == Kept(y, w, clock, 0)
  {
    hide *;
    var b := Sent(x, w, clock);
    var c := Sent(y, w, clock);
    if Kept(x, w, clock, 0) == Kept(y, w, clock, 0) {
      TypedInjective(b, c);
    }
  }

  lemma Sent(js: Js, w: World, clock: nat -> int) returns (b: Bson)
    requires Converts(js)
    ensures ToBson(js, w, clock).Ok? && b == ToBson(js, w, clock).value.0
    ensures Plain(b) && Typed(b) == Kept(js, w, clock, 0)
  {
    hide ToBson, Kept, Converts, Typed, Plain, Unset;
    ToBsonFrom(js, w, clock, 0);
    b := ToBson(js, w, clock).value.0;
  }
}
