// BSONizer.java: the two converters between the shell's JavaScript values and the driver's BSON values.
module Bson {
  import opened JavaInts
  import opened TimestampGenerator

  type Flags = set<char>

  // A JavaScript value as Rhino holds it. JInteger and JLong are numbers Rhino keeps as java.lang.Integer
  // and java.lang.Long, JKeyClass the bare MinKey or MaxKey function, JOther any other scriptable object.
  datatype Js =
    | JArray(elems: seq<Js>)
    | JRegExp(source: string, flags: Flags)
    | JObject(fields: seq<JsField>)
    | JObjectId(oid: string)
    | JBinData(subtype: Byte, data: seq<Byte>)
    | JMinKey
    | JMaxKey
    | JNumberInt(int32: Int32)
    | JNumberLong(int64: Int64)
    | JDBRef(ns: string, id: Js)
    | JDBPointer(ns: string, oid: string)
    | JTimestamp(t: Int64, i: Int64)
    | JFunction(code: string)
    | JKeyClass(min: bool)
    | JDate(millis: int)
    | JOther(className: string)
    | JString(s: string)
    | JUndefined
    | JNull
    | JBool(b: bool)
    | JDouble(d: real)
    | JInteger(int32: Int32)
    | JLong(int64: Int64)

  datatype JsField = JsField(key: string, val: Js)

  datatype Bson =
    | BList(elems: seq<Bson>)
    | BPattern(source: string, flags: Flags)
    | BDocument(fields: seq<BsonField>)
    | BObjectId(oid: string)
    | BBinary(subtype: Int8, data: seq<Byte>)
    | BBytes(data: seq<Byte>)
    | BUuid(mostSig: Int64, leastSig: Int64)
    | BMinKey
    | BMaxKey
    | BInteger(int32: Int32)
    | BLong(int64: Int64)
    | BDBRef(ns: string, id: Bson)
    | BDBPointer(ns: string, oid: string)
    | BTimestamp(ts: BsonTime)
    | BCode(code: string)
    | BSymbol(symbol: string)
    | BDate(millis: int)
    | BString(s: string)
    | BUndefined
    | BNull
    | BBool(b: bool)
    | BDouble(d: real)

  datatype BsonField = BsonField(key: string, val: Bson)

  // A value, or an exception thrown on the way.
  datatype Result<+T> = Ok(value: T) | Thrown

  const UUID_SUBTYPE := 3

  // The timestamp generator and how often the clock has been read; clock(n) is what reading n shows.
  datatype World = World(gen: Gen, readings: nat)

  type Converted<T> = Result<(T, World)>

  // ----- convertJStoBSON and convertScriptableMongoToBSON -----

  function ToBson(js: Js, w: World, clock: nat -> int): Converted<Bson>
    decreases js, 1
  {
    match js
    case JArray(elems) =>
      (match ElemsToBson(elems, w, clock)
       case Thrown => Thrown
       case Ok((bs, w')) => Ok((BList(bs), w')))
    case JRegExp(source, flags) => Ok((BPattern(source, flags), w))
    case JObject(fields) =>
      (match FieldsToBson(fields, w, clock)
       case Thrown => Thrown
       case Ok((fs, w')) => Ok((BDocument(fs), w')))
    case JObjectId(oid) => Ok((BObjectId(oid), w))
    case JBinData(subtype, data) =>
      var kind := ToInt8(subtype);
      if kind == UUID_SUBTYPE then
        if |data| < 16 then Thrown else Ok((BUuid(GetLong(data[..8]), GetLong(data[8..16])), w))
      else Ok((BBinary(kind, data), w))
    case JMinKey => Ok((BMinKey, w))
    case JMaxKey => Ok((BMaxKey, w))
    case JNumberInt(n) => Ok((BInteger(n), w))
    case JNumberLong(n) => Ok((BLong(n), w))
    case JDBRef(ns, id) =>
      (match ToBson(id, w, clock)
       case Thrown => Thrown
       case Ok((b, w')) => Ok((BDBRef(ns, b), w')))
    case JDBPointer(ns, oid) => Ok((BDBPointer(ns, oid), w))
    case JTimestamp(t, i) =>
      var call := Call(t, i, clock(w.readings));
      Ok((BTimestamp(Answer(w.gen, call)), World(Next(w.gen, call), if Asks(call) then w.readings + 1 else w.readings)))
    case JFunction(code) => Ok((BCode(code), w))
    case JKeyClass(min) => Ok((if min then BMinKey else BMaxKey, w))
    case JDate(millis) => Ok((BDate(millis), w))
    case JOther(_) => Thrown
    case JString(s) => Ok((BString(s), w))
    case JUndefined => Ok((BUndefined, w))
    case JNull => Ok((BNull, w))
    case JBool(b) => Ok((BBool(b), w))
    case JDouble(d) => Ok((BDouble(d), w))
    case JInteger(n) => Ok((BDouble(n as real), w))
    case JLong(n) => Ok((BDouble(n as real), w))
  }

  function ElemsToBson(elems: seq<Js>, w: World, clock: nat -> int): (r: Converted<seq<Bson>>)
    ensures r.Ok? ==> |r.value.0| == |elems|
    decreases elems, 0
  {
    if elems == [] then Ok(([], w))
    else match ToBson(elems[0], w, clock)
      case Thrown => Thrown
      case Ok((b, w')) =>
        match ElemsToBson(elems[1..], w', clock)
        case Thrown => Thrown
        case Ok((bs, w'')) => Ok(([b] + bs, w''))
  }

  function FieldsToBson(fields: seq<JsField>, w: World, clock: nat -> int): (r: Converted<seq<BsonField>>)
    ensures r.Ok? ==> |r.value.0| == |fields|
    decreases fields, 0
  {
    if fields == [] then Ok(([], w))
    else match ToBson(fields[0].val, w, clock)
      case Thrown => Thrown
      case Ok((b, w')) =>
        match FieldsToBson(fields[1..], w', clock)
        case Thrown => Thrown
        case Ok((bs, w'')) => Ok(([BsonField(fields[0].key, b)] + bs, w''))
  }

  // ----- convertBSONtoJS -----

  // BinData.setValues refuses a subtype outside 0 to 255.
  function NewBinData(subtype: int, data: seq<Byte>): Result<Js> {
    if subtype < 0 || subtype > 255 then Thrown else Ok(JBinData(subtype, data))
  }

  // The DBRef constructor refuses an undefined id.
  function NewDBRef(ns: string, id: Js): Result<Js> {
    if id.JUndefined? then Thrown else Ok(JDBRef(ns, id))
  }

  function ToJs(b: Bson): Result<Js>
    decreases b, 1
  {
    match b
    case BList(elems) =>
      (match ElemsToJs(elems)
       case Thrown => Thrown
       case Ok(js) => Ok(JArray(js)))
    case BDocument(fields) =>
      (match FieldsToJs(fields)
       case Thrown => Thrown
       case Ok(fs) => Ok(JObject(fs)))
    case BSymbol(symbol) => Ok(JString(symbol))
    case BDate(millis) => Ok(JDate(millis))
    case BPattern(source, flags) => Ok(JRegExp(source, flags))
    case BObjectId(oid) => Ok(JObjectId(oid))
    case BMinKey => Ok(JMinKey)
    case BMaxKey => Ok(JMaxKey)
    case BDBRef(ns, id) =>
      (match ToJs(id)
       case Thrown => Thrown
       case Ok(j) => NewDBRef(ns, j))
    case BDBPointer(ns, oid) => Ok(JDBPointer(ns, oid))
    case BTimestamp(ts) => Ok(JTimestamp(ts.time, ts.inc))
    case BLong(n) => Ok(JNumberLong(n))
    case BInteger(n) => Ok(JDouble(n as real))
    case BCode(code) => Ok(JString(code))
    case BBytes(data) => NewBinData(0, data)
    case BBinary(subtype, data) => NewBinData(subtype, data)
    case BUuid(most, least) => NewBinData(UUID_SUBTYPE, PutLong(most) + PutLong(least))
    case BString(s) => Ok(JString(s))
    case BUndefined => Ok(JUndefined)
    case BNull => Ok(JNull)
    case BBool(v) => Ok(JBool(v))
    case BDouble(d) => Ok(JDouble(d))
  }

  function ElemsToJs(elems: seq<Bson>): (r: Result<seq<Js>>)
    ensures r.Ok? ==> |r.value| == |elems|
    decreases elems, 0
  {
    if elems == [] then Ok([])
    else match (ToJs(elems[0]), ElemsToJs(elems[1..]))
      case (Ok(j), Ok(js)) => Ok([j] + js)
      case _ => Thrown
  }

  function FieldsToJs(fields: seq<BsonField>): (r: Result<seq<JsField>>)
    ensures r.Ok? ==> |r.value| == |fields|
    decreases fields, 0
  {
    if fields == [] then Ok([])
    else match (ToJs(fields[0].val), FieldsToJs(fields[1..]))
      case (Ok(j), Ok(js)) => Ok([JsField(fields[0].key, j)] + js)
      case _ => Thrown
  }
}

module BsonRoundTrip {
  import opened JavaInts
  import opened TimestampGenerator
  import opened Bson

  // There and back again.
  function ThereAndBack(js: Js, w: World, clock: nat -> int): Result<Js> {
    match ToBson(js, w, clock)
    case Thrown => Thrown
    case Ok((b, _)) => ToJs(b)
  }

  function BackAndThere(b: Bson, w: World, clock: nat -> int): Result<Bson> {
    match ToJs(b)
    case Thrown => Thrown
    case Ok(js) =>
      match ToBson(js, w, clock)
      case Thrown => Thrown
      case Ok((c, _)) => Ok(c)
  }

  // What JavaScript keeps of a value: every number but a NumberLong is a double, a function is its
  // source, a bare MinKey or MaxKey is an instance; order, keys and the rest stay.
  function NormalJs(js: Js): Js
    decreases js, 1
  {
    match js
    case JArray(elems) => JArray(NormalElems(elems))
    case JObject(fields) => JObject(NormalFields(fields))
    case JNumberInt(n) => JDouble(n as real)
    case JInteger(n) => JDouble(n as real)
    case JLong(n) => JDouble(n as real)
    case JDBRef(ns, id) => JDBRef(ns, NormalJs(id))
    case JFunction(code) => JString(code)
    case JKeyClass(min) => if min then JMinKey else JMaxKey
    case _ => js
  }

  function NormalElems(elems: seq<Js>): (r: seq<Js>)
    ensures |r| == |elems| && forall k :: 0 <= k < |r| ==> r[k] == NormalJs(elems[k])
    decreases elems, 0
  {
    if elems == [] then [] else [NormalJs(elems[0])] + NormalElems(elems[1..])
  }

  function NormalFields(fields: seq<JsField>): (r: seq<JsField>)
    ensures |r| == |fields|
    ensures forall k :: 0 <= k < |r| ==> r[k] == JsField(fields[k].key, NormalJs(fields[k].val))
    decreases fields, 0
  {
    if fields == [] then []
    else [JsField(fields[0].key, NormalJs(fields[0].val))] + NormalFields(fields[1..])
  }

  // The values that survive the trip: known classes, subtypes up to 127, UUIDs of 16 bytes, explicit
  // timestamps within Java's int, references to something.
  predicate Portable(js: Js) {
    match js
    case JArray(elems) => forall k :: 0 <= k < |elems| ==> Portable(elems[k])
    case JObject(fields) => forall k :: 0 <= k < |fields| ==> Portable(fields[k].val)
    case JBinData(subtype, data) => subtype <= 127 && (subtype == UUID_SUBTYPE ==> |data| == 16)
    case JDBRef(_, id) => Portable(id) && !id.JUndefined?
    case JTimestamp(t, i) =>
      t != 0 && -0x8000_0000 <= t < 0x8000_0000 && -0x8000_0000 <= i < 0x8000_0000
    case JOther(_) => false
    case _ => true
  }

  // The clock shows some time after the first second of 1970.
  ghost predicate Running(clock: nat -> int) {
    forall n: nat :: Seconds(clock(n)) != 0
  }

  lemma UuidBytes(data: seq<Byte>)
    requires |data| == 16
    ensures PutLong(GetLong(data[..8])) + PutLong(GetLong(data[8..16])) == data
  {
    hide PutLong, GetLong;
    PutGet(data[..8]);
    PutGet(data[8..16]);
    assert data[..8] + data[8..16] == data;
  }

  lemma NormalUndefined(js: Js)
    ensures NormalJs(js).JUndefined? <==> js.JUndefined?
  {
  }

  // JavaScript to BSON to JavaScript gives the normal form, for exactly the portable values.
  lemma {:induction false} JsRoundTrip(js: Js, w: World, clock: nat -> int)
    requires Running(clock)
    ensures ThereAndBack(js, w, clock) == Ok(NormalJs(js)) <==> Portable(js)
    ensures Portable(js) ==> ToBson(js, w, clock).value.1 == w
    decreases js, 1
  {
    match js {
      case JArray(elems) =>
        ElemsRoundTrip(elems, w, clock);
        ArrayRoundTrip(elems, w, clock);
      case JObject(fields) =>
        FieldsRoundTrip(fields, w, clock);
        ObjectRoundTrip(fields, w, clock);
      case JDBRef(ns, id) =>
        JsRoundTrip(id, w, clock);
        RefRoundTrip(ns, id, w, clock);
      case JBinData(subtype, data) => BinDataRoundTrip(subtype, data, w, clock);
      case JTimestamp(t, i) => TimestampRoundTrip(t, i, w, clock);
      case _ => LeafRoundTrip(js, w, clock);
    }
    hide ToBson, ToJs, ThereAndBack, NormalJs;
  }

  ghost predicate IsLeaf(js: Js) {
    !js.JArray? && !js.JObject? && !js.JDBRef? && !js.JBinData? && !js.JTimestamp?
  }

  // Objects of the shell's own classes, and the rest.
  ghost predicate IsMongo(js: Js) {
    js.JObjectId? || js.JMinKey? || js.JMaxKey? || js.JNumberInt? || js.JNumberLong? || js.JDBPointer?
  }

  lemma LeafRoundTrip(js: Js, w: World, clock: nat -> int)
    requires IsLeaf(js)
    ensures ThereAndBack(js, w, clock) == Ok(NormalJs(js)) <==> Portable(js)
    ensures Portable(js) ==> ToBson(js, w, clock).value.1 == w
  {
    if IsMongo(js) {
      MongoLeafRoundTrip(js, w, clock);
    } else if IsNumber(js) {
      NumberRoundTrip(js, w, clock);
    } else if !js.JOther? {
      PlainLeafRoundTrip(js, w, clock);
    }
    hide ToBson, ToJs, NormalJs;
  }

  ghost predicate IsNumber(js: Js) {
    js.JDouble? || js.JInteger? || js.JLong? || js.JDate?
  }

  lemma NumberRoundTrip(js: Js, w: World, clock: nat -> int)
    requires IsNumber(js)
    ensures ThereAndBack(js, w, clock) == Ok(NormalJs(js)) && Portable(js) && ToBson(js, w, clock).value.1 == w
  {
    hide ElemsToBson, FieldsToBson, ElemsToJs, FieldsToJs, NormalElems, NormalFields, NewBinData, NewDBRef;
  }

  lemma MongoLeafRoundTrip(js: Js, w: World, clock: nat -> int)
    requires IsMongo(js)
    ensures ThereAndBack(js, w, clock) == Ok(NormalJs(js)) && Portable(js) && ToBson(js, w, clock).value.1 == w
  {
    hide ElemsToBson, FieldsToBson, ElemsToJs, FieldsToJs, NormalElems, NormalFields, NewBinData, NewDBRef;
  }

  lemma PlainLeafRoundTrip(js: Js, w: World, clock: nat -> int)
    requires IsLeaf(js) && !IsMongo(js) && !IsNumber(js) && !js.JOther?
    ensures ThereAndBack(js, w, clock) == Ok(NormalJs(js)) && Portable(js) && ToBson(js, w, clock).value.1 == w
  {
    hide ElemsToBson, FieldsToBson, ElemsToJs, FieldsToJs, NormalElems, NormalFields, NewBinData, NewDBRef;
    hide GetLong, PutLong, ToInt8, Answer, Next;
  }

  lemma ArrayRoundTrip(elems: seq<Js>, w: World, clock: nat -> int)
    requires ElemsBack(elems, w, clock) == Ok(NormalElems(elems)) <==> AllPortable(elems)
    requires AllPortable(elems) ==> ElemsToBson(elems, w, clock).value.1 == w
    ensures var js := JArray(elems);
      && (ThereAndBack(js, w, clock) == Ok(NormalJs(js)) <==> Portable(js))
      && (Portable(js) ==> ToBson(js, w, clock).value.1 == w)
  {
    hide ElemsToBson, ElemsToJs, NormalElems;
  }

  lemma ObjectRoundTrip(fields: seq<JsField>, w: World, clock: nat -> int)
    requires FieldsBack(fields, w, clock) == Ok(NormalFields(fields)) <==> FieldsPortable(fields)
    requires FieldsPortable(fields) ==> FieldsToBson(fields, w, clock).value.1 == w
    ensures var js := JObject(fields);
      && (ThereAndBack(js, w, clock) == Ok(NormalJs(js)) <==> Portable(js))
      && (Portable(js) ==> ToBson(js, w, clock).value.1 == w)
  {
    hide FieldsToBson, FieldsToJs, NormalFields;
  }

  lemma RefRoundTrip(ns: string, id: Js, w: World, clock: nat -> int)
    requires ThereAndBack(id, w, clock) == Ok(NormalJs(id)) <==> Portable(id)
    requires Portable(id) ==> ToBson(id, w, clock).value.1 == w
    ensures var js := JDBRef(ns, id);
      && (ThereAndBack(js, w, clock) == Ok(NormalJs(js)) <==> Portable(js))
      && (Portable(js) ==> ToBson(js, w, clock).value.1 == w)
  {
    NormalUndefined(id);
    hide ElemsToBson, FieldsToBson, ElemsToJs, FieldsToJs, NormalElems, NormalFields, NewBinData, GetLong, PutLong;
  }

  lemma BinDataRoundTrip(subtype: Byte, data: seq<Byte>, w: World, clock: nat -> int)
    ensures var js := JBinData(subtype, data);
      && (ThereAndBack(js, w, clock) == Ok(NormalJs(js)) <==> Portable(js))
      && (Portable(js) ==> ToBson(js, w, clock).value.1 == w)
  {
    hide ToInt8, GetLong, PutLong, NewDBRef;
    hide ElemsToBson, FieldsToBson, ElemsToJs, FieldsToJs, NormalElems, NormalFields;
    ByteAsInt8(subtype);
    if subtype == UUID_SUBTYPE {
      UuidDataRoundTrip(data, w, clock);
    } else {
      assert ToBson(JBinData(subtype, data), w, clock) == Ok((BBinary(ToInt8(subtype), data), w));
    }
  }

  lemma ByteAsInt8(n: Byte)
    ensures ToInt8(n) == if n <= 127 then n else n - 0x100
  {
  }

  lemma UuidDataRoundTrip(data: seq<Byte>, w: World, clock: nat -> int)
    ensures var js := JBinData(UUID_SUBTYPE, data);
      && (ThereAndBack(js, w, clock) == Ok(NormalJs(js)) <==> Portable(js))
      && (Portable(js) ==> ToBson(js, w, clock).value.1 == w)
  {
    hide ToInt8, GetLong, PutLong, NewDBRef;
    hide ElemsToBson, FieldsToBson, ElemsToJs, FieldsToJs, NormalElems, NormalFields;
    ByteAsInt8(UUID_SUBTYPE);
    var js := JBinData(UUID_SUBTYPE, data);
    if |data| < 16 {
      assert ToBson(js, w, clock) == Thrown;
    } else {
      var most, least := GetLong(data[..8]), GetLong(data[8..16]);
      var back := PutLong(most) + PutLong(least);
      assert ToBson(js, w, clock) == Ok((BUuid(most, least), w));
      assert ToJs(BUuid(most, least)) == Ok(JBinData(UUID_SUBTYPE, back));
      hide ToBson, ToJs;
      assert |back| == 16;
      if |data| == 16 {
        UuidBytes(data);
      }
    }
  }

  lemma TimestampRoundTrip(t: Int64, i: Int64, w: World, clock: nat -> int)
    requires Running(clock)
    ensures var js := JTimestamp(t, i);
      && (ThereAndBack(js, w, clock) == Ok(NormalJs(js)) <==> Portable(js))
      && (Portable(js) ==> ToBson(js, w, clock).value.1 == w)
  {
    assert Seconds(clock(w.readings)) != 0;
    ToInt32Keeps(t);
    ToInt32Keeps(i);
    hide ToInt32, Seconds;
  }

  lemma ToInt32Keeps(n: Int64)
    ensures ToInt32(n) == n <==> -0x8000_0000 <= n < 0x8000_0000
  {
  }

  predicate AllPortable(elems: seq<Js>) {
    forall k :: 0 <= k < |elems| ==> Portable(elems[k])
  }

  predicate FieldsPortable(fields: seq<JsField>) {
    forall k :: 0 <= k < |fields| ==> Portable(fields[k].val)
  }

  lemma SplitPortable(elems: seq<Js>)
    requires elems != []
    ensures AllPortable(elems) <==> Portable(elems[0]) && AllPortable(elems[1..])
  {
    assert forall k :: 1 <= k < |elems| ==> elems[k] == elems[1..][k - 1];
    if AllPortable(elems[1..]) && Portable(elems[0]) {
      forall k | 0 <= k < |elems| ensures Portable(elems[k]) {
        assert k > 0 ==> elems[k] == elems[1..][k - 1];
      }
    }
  }

  lemma SplitFields(fields: seq<JsField>)
    requires fields != []
    ensures FieldsPortable(fields) <==> Portable(fields[0].val) && FieldsPortable(fields[1..])
  {
    if FieldsPortable(fields[1..]) && Portable(fields[0].val) {
      forall k | 0 <= k < |fields| ensures Portable(fields[k].val) {
        assert k > 0 ==> fields[k] == fields[1..][k - 1];
      }
    }
  }

  lemma SameHeadTail<T>(x: T, xs: seq<T>, y: T, ys: seq<T>)
    ensures [x] + xs == [y] + ys <==> x == y && xs == ys
    ensures ([x] + xs)[0] == x && ([x] + xs)[1..] == xs
  {
    if [x] + xs == [y] + ys {
      assert ([x] + xs)[0] == ([y] + ys)[0];
      assert ([x] + xs)[1..] == xs && ([y] + ys)[1..] == ys;
    }
  }

  function ElemsBack(elems: seq<Js>, w: World, clock: nat -> int): Result<seq<Js>> {
    match ElemsToBson(elems, w, clock)
    case Thrown => Thrown
    case Ok((bs, _)) => ElemsToJs(bs)
  }

  function FieldsBack(fields: seq<JsField>, w: World, clock: nat -> int): Result<seq<JsField>> {
    match FieldsToBson(fields, w, clock)
    case Thrown => Thrown
    case Ok((fs, _)) => FieldsToJs(fs)
  }

  lemma {:induction false} ElemsRoundTrip(elems: seq<Js>, w: World, clock: nat -> int)
    requires Running(clock)
    ensures ElemsBack(elems, w, clock) == Ok(NormalElems(elems)) <==> AllPortable(elems)
    ensures AllPortable(elems) ==> ElemsToBson(elems, w, clock).value.1 == w
    decreases elems, 0
  {
    if elems != [] {
      SplitPortable(elems);
      JsRoundTrip(elems[0], w, clock);
      var first := ToBson(elems[0], w, clock);
      if first.Ok? {
        var (b, w') := first.value;
        ElemsRoundTrip(elems[1..], w', clock);
        ConsBack(elems, b, w, w', clock);
      }
    }
  }

  // The trip of a list is the trip of its head and of its tail.
  lemma ConsBack(elems: seq<Js>, b: Bson, w: World, w': World, clock: nat -> int)
    requires elems != [] && ToBson(elems[0], w, clock) == Ok((b, w'))
    ensures ElemsBack(elems, w, clock) == Ok(NormalElems(elems)) <==>
      ToJs(b) == Ok(NormalJs(elems[0])) && ElemsBack(elems[1..], w', clock) == Ok(NormalElems(elems[1..]))
  {
    hide ToBson, ToJs, NormalJs;
    var rest := ElemsToBson(elems[1..], w', clock);
    if rest.Ok? {
      SameHeadTail(b, rest.value.0, b, rest.value.0);
      if ToJs(b).Ok? && ElemsToJs(rest.value.0).Ok? {
        SameHeadTail(ToJs(b).value, ElemsToJs(rest.value.0).value, NormalJs(elems[0]), NormalElems(elems[1..]));
      }
    }
  }

  lemma {:induction false} FieldsRoundTrip(fields: seq<JsField>, w: World, clock: nat -> int)
    requires Running(clock)
    ensures FieldsBack(fields, w, clock) == Ok(NormalFields(fields)) <==> FieldsPortable(fields)
    ensures FieldsPortable(fields) ==> FieldsToBson(fields, w, clock).value.1 == w
    decreases fields, 0
  {
    if fields != [] {
      SplitFields(fields);
      JsRoundTrip(fields[0].val, w, clock);
      var first := ToBson(fields[0].val, w, clock);
      if first.Ok? {
        var (b, w') := first.value;
        FieldsRoundTrip(fields[1..], w', clock);
        ConsFieldBack(fields, b, w, w', clock);
      }
    }
  }

  lemma ConsFieldBack(fields: seq<JsField>, b: Bson, w: World, w': World, clock: nat -> int)
    requires fields != [] && ToBson(fields[0].val, w, clock) == Ok((b, w'))
    ensures FieldsBack(fields, w, clock) == Ok(NormalFields(fields)) <==>
      ToJs(b) == Ok(NormalJs(fields[0].val)) && FieldsBack(fields[1..], w', clock) == Ok(NormalFields(fields[1..]))
  {
    hide ToBson, ToJs, NormalJs;
    var key := fields[0].key;
    var rest := FieldsToBson(fields[1..], w', clock);
    if rest.Ok? {
      SameHeadTail(BsonField(key, b), rest.value.0, BsonField(key, b), rest.value.0);
      if ToJs(b).Ok? && FieldsToJs(rest.value.0).Ok? {
        SameHeadTail(JsField(key, ToJs(b).value), FieldsToJs(rest.value.0).value,
                     JsField(key, NormalJs(fields[0].val)), NormalFields(fields[1..]));
      }
    }
  }

  // A further trip changes nothing.
  lemma {:induction false} NormalJsOnce(js: Js)
    ensures NormalJs(NormalJs(js)) == NormalJs(js)
    ensures Portable(js) ==> Portable(NormalJs(js))
  {
    match js {
      case JArray(elems) =>
        forall k | 0 <= k < |elems|
          ensures NormalElems(NormalElems(elems))[k] == NormalElems(elems)[k]
          ensures Portable(js) ==> Portable(NormalElems(elems)[k])
        {
          NormalJsOnce(elems[k]);
        }
        assert NormalElems(NormalElems(elems)) == NormalElems(elems);
      case JObject(fields) =>
        forall k | 0 <= k < |fields|
          ensures NormalFields(NormalFields(fields))[k] == NormalFields(fields)[k]
          ensures Portable(js) ==> Portable(NormalFields(fields)[k].val)
        {
          NormalJsOnce(fields[k].val);
        }
        assert NormalFields(NormalFields(fields)) == NormalFields(fields);
      case JDBRef(_, id) =>
        NormalJsOnce(id);
        NormalUndefined(id);
      case _ =>
    }
  }

  lemma JsSecondTrip(js: Js, w: World, clock: nat -> int)
    requires Running(clock) && Portable(js)
    ensures ThereAndBack(js, w, clock) == ThereAndBack(NormalJs(js), w, clock) == Ok(NormalJs(js))
  {
    JsRoundTrip(js, w, clock);
    NormalJsOnce(js);
    JsRoundTrip(NormalJs(js), w, clock);
  }

  // ----- The other direction -----

  // What BSON keeps: an Integer comes back a Double, Code and Symbol a String, a byte array a general
  // Binary, and a Binary holding a UUID the UUID.
  function NormalBson(b: Bson): Bson
    decreases b, 1
  {
    match b
    case BList(elems) => BList(NormalBsonElems(elems))
    case BDocument(fields) => BDocument(NormalBsonFields(fields))
    case BInteger(n) => BDouble(n as real)
    case BCode(code) => BString(code)
    case BSymbol(symbol) => BString(symbol)
    case BBytes(data) => BBinary(0, data)
    case BBinary(subtype, data) =>
      if subtype == UUID_SUBTYPE && |data| == 16 then BUuid(GetLong(data[..8]), GetLong(data[8..16])) else b
    case BDBRef(ns, id) => BDBRef(ns, NormalBson(id))
    case _ => b
  }

  function NormalBsonElems(elems: seq<Bson>): (r: seq<Bson>)
    ensures |r| == |elems| && forall k :: 0 <= k < |r| ==> r[k] == NormalBson(elems[k])
    decreases elems, 0
  {
    if elems == [] then [] else [NormalBson(elems[0])] + NormalBsonElems(elems[1..])
  }

  function NormalBsonFields(fields: seq<BsonField>): (r: seq<BsonField>)
    ensures |r| == |fields|
    ensures forall k :: 0 <= k < |r| ==> r[k] == BsonField(fields[k].key, NormalBson(fields[k].val))
    decreases fields, 0
  {
    if fields == [] then []
    else [BsonField(fields[0].key, NormalBson(fields[0].val))] + NormalBsonFields(fields[1..])
  }

  predicate PortableBson(b: Bson) {
    match b
    case BList(elems) => forall k :: 0 <= k < |elems| ==> PortableBson(elems[k])
    case BDocument(fields) => forall k :: 0 <= k < |fields| ==> PortableBson(fields[k].val)
    case BBinary(subtype, data) => subtype >= 0 && (subtype == UUID_SUBTYPE ==> |data| == 16)
    case BDBRef(_, id) => PortableBson(id) && !id.BUndefined?
    case BTimestamp(ts) => ts.time != 0
    case _ => true
  }

  lemma UuidLongs(most: Int64, least: Int64)
    ensures var data := PutLong(most) + PutLong(least);
      |data| == 16 && GetLong(data[..8]) == most && GetLong(data[8..16]) == least
  {
    hide GetLong, PutLong;
    Halves(PutLong(most), PutLong(least));
    GetPut(most);
    GetPut(least);
  }

  lemma Halves(a: seq<Byte>, b: seq<Byte>)
    requires |a| == 8 && |b| == 8
    ensures |a + b| == 16 && (a + b)[..8] == a && (a + b)[8..16] == b
  {
  }

  // Only undefined becomes undefined.
  lemma ToJsUndefined(b: Bson)
    ensures ToJs(b).Ok? ==> (ToJs(b).value.JUndefined? <==> b.BUndefined?)
  {
  }

  // BSON to JavaScript to BSON gives the normal form, for exactly the portable values.
  lemma {:induction false} BsonRoundTrips(b: Bson, w: World, clock: nat -> int)
    requires Running(clock)
    ensures BackAndThere(b, w, clock) == Ok(NormalBson(b)) <==> PortableBson(b)
    ensures PortableBson(b) ==> ToBson(ToJs(b).value, w, clock).value.1 == w
    decreases b, 1
  {
    match b {
      case BList(elems) =>
        ListRoundTrips(elems, w, clock);
        BListRoundTrips(elems, w, clock);
      case BDocument(fields) =>
        DocumentRoundTrips(fields, w, clock);
        BDocumentRoundTrips(fields, w, clock);
      case BDBRef(ns, id) =>
        BsonRoundTrips(id, w, clock);
        BRefRoundTrips(ns, id, w, clock);
      case BUuid(most, least) => UuidRoundTrips(most, least, w, clock);
      case BBinary(subtype, data) => BinaryRoundTrips(subtype, data, w, clock);
      case BTimestamp(ts) => TimestampRoundTrips(ts, w, clock);
      case _ => LeafRoundTrips(b, w, clock);
    }
    hide ToBson, ToJs, BackAndThere, NormalBson;
  }

  ghost predicate IsBsonLeaf(b: Bson) {
    !b.BList? && !b.BDocument? && !b.BDBRef? && !b.BUuid? && !b.BBinary? && !b.BTimestamp?
  }

  // What comes back in another form.
  ghost predicate Changes(b: Bson) {
    b.BInteger? || b.BCode? || b.BSymbol? || b.BBytes?
  }

  ghost predicate IsMongoBson(b: Bson) {
    b.BObjectId? || b.BMinKey? || b.BMaxKey? || b.BLong? || b.BDBPointer?
  }

  lemma LeafRoundTrips(b: Bson, w: World, clock: nat -> int)
    requires IsBsonLeaf(b)
    ensures BackAndThere(b, w, clock) == Ok(NormalBson(b)) && PortableBson(b)
    ensures ToBson(ToJs(b).value, w, clock).value.1 == w
  {
    if Changes(b) {
      ChangedLeafRoundTrips(b, w, clock);
    } else if IsMongoBson(b) {
      MongoLeafRoundTrips(b, w, clock);
    } else {
      PlainLeafRoundTrips(b, w, clock);
    }
    hide ToBson, ToJs, NormalBson;
  }

  lemma ChangedLeafRoundTrips(b: Bson, w: World, clock: nat -> int)
    requires Changes(b)
    ensures BackAndThere(b, w, clock) == Ok(NormalBson(b)) && PortableBson(b)
    ensures ToBson(ToJs(b).value, w, clock).value.1 == w
  {
    Int8Stays(0);
    hide ToInt8, GetLong, PutLong, ElemsToBson, FieldsToBson, ElemsToJs, FieldsToJs, NormalBsonElems, NormalBsonFields;
  }

  lemma MongoLeafRoundTrips(b: Bson, w: World, clock: nat -> int)
    requires IsMongoBson(b)
    ensures BackAndThere(b, w, clock) == Ok(NormalBson(b)) && PortableBson(b)
    ensures ToBson(ToJs(b).value, w, clock).value.1 == w
  {
    hide ToInt8, GetLong, PutLong, ElemsToBson, FieldsToBson, ElemsToJs, FieldsToJs, NormalBsonElems, NormalBsonFields;
  }

  lemma PlainLeafRoundTrips(b: Bson, w: World, clock: nat -> int)
    requires IsBsonLeaf(b) && !Changes(b) && !IsMongoBson(b)
    ensures BackAndThere(b, w, clock) == Ok(NormalBson(b)) && PortableBson(b)
    ensures ToBson(ToJs(b).value, w, clock).value.1 == w
  {
    hide ToInt8, GetLong, PutLong, ElemsToBson, FieldsToBson, ElemsToJs, FieldsToJs, NormalBsonElems, NormalBsonFields;
  }

  lemma BRefRoundTrips(ns: string, id: Bson, w: World, clock: nat -> int)
    requires BackAndThere(id, w, clock) == Ok(NormalBson(id)) <==> PortableBson(id)
    requires PortableBson(id) ==> ToBson(ToJs(id).value, w, clock).value.1 == w
    ensures var b := BDBRef(ns, id);
      && (BackAndThere(b, w, clock) == Ok(NormalBson(b)) <==> PortableBson(b))
      && (PortableBson(b) ==> ToBson(ToJs(b).value, w, clock).value.1 == w)
  {
    ToJsUndefined(id);
    hide NewBinData, GetLong, PutLong;
    hide ElemsToBson, FieldsToBson, ElemsToJs, FieldsToJs, NormalBsonElems, NormalBsonFields;
  }

  lemma BListRoundTrips(elems: seq<Bson>, w: World, clock: nat -> int)
    requires ElemsThere(elems, w, clock) == Ok(NormalBsonElems(elems)) <==> AllPortableBson(elems)
    requires AllPortableBson(elems) ==> ElemsToBson(ElemsToJs(elems).value, w, clock).value.1 == w
    ensures var b := BList(elems);
      && (BackAndThere(b, w, clock) == Ok(NormalBson(b)) <==> PortableBson(b))
      && (PortableBson(b) ==> ToBson(ToJs(b).value, w, clock).value.1 == w)
  {
    hide ElemsToBson, ElemsToJs, NormalBsonElems;
  }

  lemma BDocumentRoundTrips(fields: seq<BsonField>, w: World, clock: nat -> int)
    requires FieldsThere(fields, w, clock) == Ok(NormalBsonFields(fields)) <==> FieldsPortableBson(fields)
    requires FieldsPortableBson(fields) ==> FieldsToBson(FieldsToJs(fields).value, w, clock).value.1 == w
    ensures var b := BDocument(fields);
      && (BackAndThere(b, w, clock) == Ok(NormalBson(b)) <==> PortableBson(b))
      && (PortableBson(b) ==> ToBson(ToJs(b).value, w, clock).value.1 == w)
  {
    hide FieldsToBson, FieldsToJs, NormalBsonFields;
  }

  lemma UuidRoundTrips(most: Int64, least: Int64, w: World, clock: nat -> int)
    ensures var b := BUuid(most, least);
      BackAndThere(b, w, clock) == Ok(NormalBson(b)) && ToBson(ToJs(b).value, w, clock).value.1 == w
  {
    hide ToInt8, GetLong, PutLong, ElemsToBson, FieldsToBson, ElemsToJs, FieldsToJs, NormalBsonElems, NormalBsonFields;
    UuidLongs(most, least);
    ByteAsInt8(UUID_SUBTYPE);
    var js := JBinData(UUID_SUBTYPE, PutLong(most) + PutLong(least));
    assert ToJs(BUuid(most, least)) == Ok(js);
    assert ToBson(js, w, clock) == Ok((BUuid(most, least), w));
  }

  lemma Int8Stays(n: Int8)
    ensures ToInt8(n) == n
  {
  }

  lemma BinaryRoundTrips(subtype: Int8, data: seq<Byte>, w: World, clock: nat -> int)
    ensures var b := BBinary(subtype, data);
      && (BackAndThere(b, w, clock) == Ok(NormalBson(b)) <==> PortableBson(b))
      && (PortableBson(b) ==> ToBson(ToJs(b).value, w, clock).value.1 == w)
  {
    hide ToInt8, GetLong, PutLong, ElemsToBson, FieldsToBson, ElemsToJs, FieldsToJs, NormalBsonElems, NormalBsonFields;
    Int8Stays(subtype);
  }

  lemma TimestampRoundTrips(ts: BsonTime, w: World, clock: nat -> int)
    requires Running(clock)
    ensures var b := BTimestamp(ts);
      && (BackAndThere(b, w, clock) == Ok(NormalBson(b)) <==> ts.time != 0)
      && (ts.time != 0 ==> ToBson(ToJs(b).value, w, clock).value.1 == w)
  {
    assert Seconds(clock(w.readings)) != 0;
    ToInt32Keeps(ts.time);
    ToInt32Keeps(ts.inc);
    hide ToInt32, Seconds;
  }

  predicate AllPortableBson(elems: seq<Bson>) {
    forall k :: 0 <= k < |elems| ==> PortableBson(elems[k])
  }

  predicate FieldsPortableBson(fields: seq<BsonField>) {
    forall k :: 0 <= k < |fields| ==> PortableBson(fields[k].val)
  }

  lemma SplitPortableBson(elems: seq<Bson>)
    requires elems != []
    ensures AllPortableBson(elems) <==> PortableBson(elems[0]) && AllPortableBson(elems[1..])
  {
    if AllPortableBson(elems[1..]) && PortableBson(elems[0]) {
      forall k | 0 <= k < |elems| ensures PortableBson(elems[k]) {
        assert k > 0 ==> elems[k] == elems[1..][k - 1];
      }
    }
  }

  lemma SplitFieldsBson(fields: seq<BsonField>)
    requires fields != []
    ensures FieldsPortableBson(fields) <==> PortableBson(fields[0].val) && FieldsPortableBson(fields[1..])
  {
    if FieldsPortableBson(fields[1..]) && PortableBson(fields[0].val) {
      forall k | 0 <= k < |fields| ensures PortableBson(fields[k].val) {
        assert k > 0 ==> fields[k] == fields[1..][k - 1];
      }
    }
  }

  function ElemsThere(elems: seq<Bson>, w: World, clock: nat -> int): Result<seq<Bson>> {
    match ElemsToJs(elems)
    case Thrown => Thrown
    case Ok(js) =>
      match ElemsToBson(js, w, clock)
      case Thrown => Thrown
      case Ok((bs, _)) => Ok(bs)
  }

  function FieldsThere(fields: seq<BsonField>, w: World, clock: nat -> int): Result<seq<BsonField>> {
    match FieldsToJs(fields)
    case Thrown => Thrown
    case Ok(js) =>
      match FieldsToBson(js, w, clock)
      case Thrown => Thrown
      case Ok((fs, _)) => Ok(fs)
  }

  lemma {:induction false} ListRoundTrips(elems: seq<Bson>, w: World, clock: nat -> int)
    requires Running(clock)
    ensures ElemsThere(elems, w, clock) == Ok(NormalBsonElems(elems)) <==> AllPortableBson(elems)
    ensures AllPortableBson(elems) ==> ElemsToBson(ElemsToJs(elems).value, w, clock).value.1 == w
    decreases elems, 0
  {
    if elems != [] {
      SplitPortableBson(elems);
      BsonRoundTrips(elems[0], w, clock);
      if ToJs(elems[0]).Ok? && ToBson(ToJs(elems[0]).value, w, clock).Ok? {
        var w' := ToBson(ToJs(elems[0]).value, w, clock).value.1;
        ListRoundTrips(elems[1..], w', clock);
        ConsThere(elems, w, w', clock);
      } else if ToJs(elems[0]).Ok? && ElemsToJs(elems[1..]).Ok? {
        var head, tail := ToJs(elems[0]).value, ElemsToJs(elems[1..]).value;
        SameHeadTail(head, tail, head, tail);
      }
    }
  }

  lemma ConsThere(elems: seq<Bson>, w: World, w': World, clock: nat -> int)
    requires elems != [] && ToJs(elems[0]).Ok? && ToBson(ToJs(elems[0]).value, w, clock).Ok?
    requires w' == ToBson(ToJs(elems[0]).value, w, clock).value.1
    ensures ElemsThere(elems, w, clock) == Ok(NormalBsonElems(elems)) <==>
      ToBson(ToJs(elems[0]).value, w, clock).value.0 == NormalBson(elems[0])
      && ElemsThere(elems[1..], w', clock) == Ok(NormalBsonElems(elems[1..]))
    ensures ElemsToJs(elems[1..]).Ok? && ElemsToBson(ElemsToJs(elems[1..]).value, w', clock).Ok? ==>
      ElemsToJs(elems).Ok? && ElemsToBson(ElemsToJs(elems).value, w, clock).Ok?
      && ElemsToBson(ElemsToJs(elems).value, w, clock).value.1
         == ElemsToBson(ElemsToJs(elems[1..]).value, w', clock).value.1
  {
    hide ToBson, ToJs, NormalBson;
    var j := ToJs(elems[0]).value;
    var b := ToBson(j, w, clock).value.0;
    var rest := ElemsToJs(elems[1..]);
    if rest.Ok? {
      SameHeadTail(j, rest.value, j, rest.value);
      var back := ElemsToBson(rest.value, w', clock);
      if back.Ok? {
        SameHeadTail(b, back.value.0, NormalBson(elems[0]), NormalBsonElems(elems[1..]));
      }
    }
  }

  lemma {:induction false} DocumentRoundTrips(fields: seq<BsonField>, w: World, clock: nat -> int)
    requires Running(clock)
    ensures FieldsThere(fields, w, clock) == Ok(NormalBsonFields(fields)) <==> FieldsPortableBson(fields)
    ensures FieldsPortableBson(fields) ==> FieldsToBson(FieldsToJs(fields).value, w, clock).value.1 == w
    decreases fields, 0
  {
    if fields != [] {
      SplitFieldsBson(fields);
      var v := fields[0].val;
      BsonRoundTrips(v, w, clock);
      if ToJs(v).Ok? && ToBson(ToJs(v).value, w, clock).Ok? {
        var w' := ToBson(ToJs(v).value, w, clock).value.1;
        DocumentRoundTrips(fields[1..], w', clock);
        ConsFieldThere(fields, w, w', clock);
      } else if ToJs(v).Ok? && FieldsToJs(fields[1..]).Ok? {
        var f := JsField(fields[0].key, ToJs(v).value);
        SameHeadTail(f, FieldsToJs(fields[1..]).value, f, FieldsToJs(fields[1..]).value);
      }
    }
  }

  lemma ConsFieldThere(fields: seq<BsonField>, w: World, w': World, clock: nat -> int)
    requires fields != [] && ToJs(fields[0].val).Ok? && ToBson(ToJs(fields[0].val).value, w, clock).Ok?
    requires w' == ToBson(ToJs(fields[0].val).value, w, clock).value.1
    ensures FieldsThere(fields, w, clock) == Ok(NormalBsonFields(fields)) <==>
      ToBson(ToJs(fields[0].val).value, w, clock).value.0 == NormalBson(fields[0].val)
      && FieldsThere(fields[1..], w', clock) == Ok(NormalBsonFields(fields[1..]))
    ensures FieldsToJs(fields[1..]).Ok? && FieldsToBson(FieldsToJs(fields[1..]).value, w', clock).Ok? ==>
      FieldsToJs(fields).Ok? && FieldsToBson(FieldsToJs(fields).value, w, clock).Ok?
      && FieldsToBson(FieldsToJs(fields).value, w, clock).value.1
         == FieldsToBson(FieldsToJs(fields[1..]).value, w', clock).value.1
  {
    hide ToBson, ToJs, NormalBson;
    var key, j := fields[0].key, ToJs(fields[0].val).value;
    var b := ToBson(j, w, clock).value.0;
    var rest := FieldsToJs(fields[1..]);
    if rest.Ok? {
      SameHeadTail(JsField(key, j), rest.value, JsField(key, j), rest.value);
      var back := FieldsToBson(rest.value, w', clock);
      if back.Ok? {
        var normal := BsonField(key, NormalBson(fields[0].val));
        SameHeadTail(BsonField(key, b), back.value.0, normal, NormalBsonFields(fields[1..]));
      }
    }
  }

  lemma {:induction false} NormalBsonOnce(b: Bson)
    ensures NormalBson(NormalBson(b)) == NormalBson(b)
    ensures PortableBson(b) ==> PortableBson(NormalBson(b))
  {
    hide GetLong;
    match b {
      case BList(elems) =>
        forall k | 0 <= k < |elems|
          ensures NormalBsonElems(NormalBsonElems(elems))[k] == NormalBsonElems(elems)[k]
          ensures PortableBson(b) ==> PortableBson(NormalBsonElems(elems)[k])
        {
          NormalBsonOnce(elems[k]);
        }
        assert NormalBsonElems(NormalBsonElems(elems)) == NormalBsonElems(elems);
      case BDocument(fields) =>
        forall k | 0 <= k < |fields|
          ensures NormalBsonFields(NormalBsonFields(fields))[k] == NormalBsonFields(fields)[k]
          ensures PortableBson(b) ==> PortableBson(NormalBsonFields(fields)[k].val)
        {
          NormalBsonOnce(fields[k].val);
        }
        assert NormalBsonFields(NormalBsonFields(fields)) == NormalBsonFields(fields);
      case BDBRef(_, id) =>
        NormalBsonOnce(id);
      case _ =>
        NormalLeafOnce(b);
    }
  }

  lemma NormalLeafOnce(b: Bson)
    requires !b.BList? && !b.BDocument? && !b.BDBRef?
    ensures NormalBson(NormalBson(b)) == NormalBson(b)
    ensures PortableBson(b) ==> PortableBson(NormalBson(b))
  {
  }

  lemma BsonSecondTrip(b: Bson, w: World, clock: nat -> int)
    requires Running(clock) && PortableBson(b)
    ensures BackAndThere(b, w, clock) == BackAndThere(NormalBson(b), w, clock) == Ok(NormalBson(b))
  {
    BsonRoundTrips(b, w, clock);
    NormalBsonOnce(b);
    BsonRoundTrips(NormalBson(b), w, clock);
  }
}
