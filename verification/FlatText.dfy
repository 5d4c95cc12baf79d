// Values printed on one line, with every run of tabs and line breaks collapsed. Different values have
// different texts under a weaker condition on keys than reading them back takes.
module FlatText {
  import opened Text
  import opened Json
  import opened JsonReader
  import opened JsonProofs
  import opened JsonConverse

  // A key is printed raw; a quote would end it, and a tab or line break could be collapsed.
  predicate SafeChar(c: char) {
    c != '"' && !IsBreak(c)
  }

  predicate SafeKey(k: string) {
    forall i :: 0 <= i < |k| ==> SafeChar(k[i])
  }

  // Keys that leave the texts of different values different.
  predicate SafeKeys(x: Value) {
    match x
    case Arr(elems) => forall i :: 0 <= i < |elems| ==> SafeKeys(elems[i])
    case Obj(fields) =>
      && BorrowedInt(fields).None? && !HasKey(fields, "toString")
      && forall i :: 0 <= i < |fields| ==> SafeKey(fields[i].key) && SafeKeys(fields[i].val)
    case _ => true
  }

  predicate NoInts(x: Value) {
    match x
    case NumInt(_) => false
    case Arr(elems) => forall i :: 0 <= i < |elems| ==> NoInts(elems[i])
    case Obj(fields) => forall i :: 0 <= i < |fields| ==> NoInts(fields[i].val)
    case _ => true
  }

  ghost predicate Tellable(x: Value) {
    NumbersOk(x) && SafeKeys(x) && NoInts(x)
  }

  // The text of a value asked for at the indentation `gap`, already collapsed.
  function Flat(x: Value, gap: string): string
    decreases x, 1
  {
    match x
    case Arr(elems) => if elems == [] then "[ ]" else "[ " + (FlatElems(elems) + " ]")
    case Obj(fields) => "{ " + (if fields == [] then gap + " }" else FlatFields(fields, gap) + "}")
    case _ => JsonText(x, "", On)
  }

  function FlatElems(elems: seq<Value>): string
    requires elems != []
    decreases elems, 0
  {
    " " + (Flat(elems[0], " ") + if |elems| == 1 then "" else ", " + FlatElems(elems[1..]))
  }

  function FlatFields(fields: seq<Field>, gap: string): string
    requires fields != []
    decreases fields, 0
  {
    gap + ("\"" + (fields[0].key + ("\" : "
    + (Flat(fields[0].val, gap) + if |fields| == 1 then " " else ", " + FlatFields(fields[1..], gap)))))
  }

  // ----- Different values have different texts -----

  lemma StripPrefix(p: string, a: string, b: string)
    ensures p + a == p + b <==> a == b
  {
    if p + a == p + b {
      assert (p + a)[|p|..] == a && (p + b)[|p|..] == b;
    }
  }

  predicate IsWord(x: Value) {
    !x.Arr? && !x.Obj? && !x.Str? && !x.NumInt?
  }

  lemma WordText(x: Value)
    requires IsWord(x) && NumbersOk(x)
    ensures var w := JsonText(x, "", On);
      w != "" && WordLength(w) == |w| && forall i :: 0 <= i < |w| ==> IsWordChar(w[i])
  {
    var w := JsonText(x, "", On);
    assert forall i :: 0 <= i < |w| ==> IsWordChar(w[i]);
    WordLengthIs(w, |w|);
  }

  lemma WordInjective(x: Value, y: Value)
    requires IsWord(x) && IsWord(y) && NumbersOk(x) && NumbersOk(y)
    requires JsonText(x, "", On) == JsonText(y, "", On)
    ensures x == y
  {
    assert x.Num? ==> x.text[0] != 'n' && x.text[0] != 'u' && x.text[0] != 't' && x.text[0] != 'f';
    assert y.Num? ==> y.text[0] != 'n' && y.text[0] != 'u' && y.text[0] != 't' && y.text[0] != 'f';
  }

  lemma LeafFlat(x: Value, gap: string)
    ensures IsWord(x) ==> Flat(x, gap) == JsonText(x, "", On)
    ensures x.Str? ==> Flat(x, gap) == StringText(x.s)
  {
  }

  // The first character tells the kind of value.
  lemma FirstChar(x: Value, gap: string, r: string)
    requires NumbersOk(x) && !x.NumInt?
    ensures var t := Flat(x, gap) + r;
      && t != ""
      && (x.Arr? <==> t[0] == '[') && (x.Obj? <==> t[0] == '{') && (x.Str? <==> t[0] == '"')
      && (IsWord(x) <==> IsWordChar(t[0]))
  {
    if IsWord(x) {
      WordText(x);
    }
  }

  predicate Stops(r: string) {
    r == "" || !IsWordChar(r[0])
  }

  lemma WordsApart(x: Value, y: Value, r: string, s: string)
    requires IsWord(x) && IsWord(y) && NumbersOk(x) && NumbersOk(y) && Stops(r) && Stops(s)
    requires JsonText(x, "", On) + r == JsonText(y, "", On) + s
    ensures x == y && r == s
  {
    var v, w := JsonText(x, "", On), JsonText(y, "", On);
    WordText(x);
    WordText(y);
    WordLengthConcat(v, r);
    WordLengthConcat(w, s);
    assert (v + r)[..|v|] == v && (w + s)[..|w|] == w;
    WordInjective(x, y);
    StripPrefix(v, r, s);
  }

  lemma StringsApart(a: string, b: string, r: string, s: string)
    requires StringText(a) + r == StringText(b) + s
    ensures a == b && r == s
  {
    hide Escape, LexString;
    LexEscaped(a, r);
    LexEscaped(b, s);
    StringStart(a, r);
    StringStart(b, s);
    StripPrefix("\"", Escape(a) + "\"" + r, Escape(b) + "\"" + s);
  }

  lemma StringStart(a: string, r: string)
    ensures StringText(a) + r == "\"" + (Escape(a) + "\"" + r)
  {
    hide Escape;
    Regroup("\"", Escape(a), "\"");
    Regroup("\"", Escape(a) + "\"", r);
  }

  lemma {:induction false} KeysApart(j: string, k: string, r: string, s: string)
    requires SafeKey(j) && SafeKey(k) && j + ("\"" + r) == k + ("\"" + s)
    ensures j == k && r == s
  {
    var t, u := j + ("\"" + r), k + ("\"" + s);
    if j == "" || k == "" {
      assert t[0] == u[0];
      assert j != "" ==> SafeChar(j[0]);
      assert k != "" ==> SafeChar(k[0]);
      assert t[1..] == r && u[1..] == s;
    } else {
      assert t[0] == j[0] && u[0] == k[0] && t[1..] == j[1..] + ("\"" + r) && u[1..] == k[1..] + ("\"" + s);
      KeysApart(j[1..], k[1..], r, s);
      assert j == [j[0]] + j[1..] && k == [k[0]] + k[1..];
    }
  }

  // Texts that begin alike, up to where a value ends, begin with the same value.
  lemma {:induction false} FlatInjective(x: Value, y: Value, gap: string, r: string, s: string)
    requires Tellable(x) && Tellable(y) && Stops(r) && Stops(s)
    requires Flat(x, gap) + r == Flat(y, gap) + s
    ensures x == y && r == s
    decreases x, 1
  {
    FirstChar(x, gap, r);
    FirstChar(y, gap, s);
    LeafFlat(x, gap);
    LeafFlat(y, gap);
    hide Flat, FlatElems, FlatFields, JsonText, StringText;
    if IsWord(x) {
      WordsApart(x, y, r, s);
    } else if x.Str? {
      StringsApart(x.s, y.s, r, s);
    } else if x.Arr? {
      ArraysApart(x.elems, y.elems, gap, r, s);
      if x.elems != [] && y.elems != [] {
        ElemsInjective(x.elems, y.elems, " ]" + r, " ]" + s);
        StripPrefix(" ]", r, s);
      }
    } else {
      ObjectsApart(x.fields, y.fields, gap, r, s);
      if x.fields != [] && y.fields != [] {
        FieldsInjective(x.fields, y.fields, gap, "}" + r, "}" + s);
        StripPrefix("}", r, s);
      }
    }
  }

  lemma ArraysApart(xs: seq<Value>, ys: seq<Value>, gap: string, r: string, s: string)
    requires Flat(Arr(xs), gap) + r == Flat(Arr(ys), gap) + s
    ensures xs == [] <==> ys == []
    ensures xs == [] ==> r == s
    ensures xs != [] && ys != [] ==> FlatElems(xs) + (" ]" + r) == FlatElems(ys) + (" ]" + s)
  {
    ArrayStart(xs, gap, r);
    ArrayStart(ys, gap, s);
    hide Flat, FlatElems;
    var t, u := Flat(Arr(xs), gap) + r, Flat(Arr(ys), gap) + s;
    assert t[2] == (if xs == [] then ']' else ' ') && u[2] == (if ys == [] then ']' else ' ');
    if xs == [] {
      StripPrefix("[ ]", r, s);
    } else {
      StripPrefix("[ ", FlatElems(xs) + (" ]" + r), FlatElems(ys) + (" ]" + s));
    }
  }

  lemma ArrayStart(xs: seq<Value>, gap: string, r: string)
    ensures xs == [] ==> Flat(Arr(xs), gap) + r == "[ ]" + r
    ensures xs != [] ==> FlatElems(xs) != "" && FlatElems(xs)[0] == ' '
    ensures xs != [] ==> Flat(Arr(xs), gap) + r == "[ " + (FlatElems(xs) + (" ]" + r))
  {
    if xs != [] {
      var es := FlatElems(xs);
      Regroup("[ ", es + " ]", r);
      Regroup(es, " ]", r);
    }
  }

  lemma ObjectsApart(fs: seq<Field>, gs: seq<Field>, gap: string, r: string, s: string)
    requires Flat(Obj(fs), gap) + r == Flat(Obj(gs), gap) + s
    ensures fs == [] <==> gs == []
    ensures fs == [] ==> r == s
    ensures fs != [] && gs != [] ==> FlatFields(fs, gap) + ("}" + r) == FlatFields(gs, gap) + ("}" + s)
  {
    ObjectStart(fs, gap, r);
    ObjectStart(gs, gap, s);
    hide Flat, FlatFields;
    var t, u := Flat(Obj(fs), gap) + r, Flat(Obj(gs), gap) + s;
    var n := 2 + |gap|;
    assert t[n] == (if fs == [] then ' ' else '"') && u[n] == (if gs == [] then ' ' else '"');
    if fs == [] {
      StripPrefix("{ " + (gap + " }"), r, s);
    } else {
      StripPrefix("{ ", FlatFields(fs, gap) + ("}" + r), FlatFields(gs, gap) + ("}" + s));
    }
  }

  lemma ObjectStart(fs: seq<Field>, gap: string, r: string)
    ensures fs == [] ==> Flat(Obj(fs), gap) + r == "{ " + (gap + " }") + r
    ensures fs != [] ==> |FlatFields(fs, gap)| > |gap| && FlatFields(fs, gap)[|gap|] == '"'
    ensures fs != [] ==> Flat(Obj(fs), gap) + r == "{ " + (FlatFields(fs, gap) + ("}" + r))
  {
    if fs != [] {
      var text := FlatFields(fs, gap);
      Regroup("{ ", text + "}", r);
      Regroup(text, "}", r);
    }
  }

  // What follows the first element.
  function ElemsTail(xs: seq<Value>, r: string): string
    requires xs != []
  {
    if |xs| == 1 then r else ", " + (FlatElems(xs[1..]) + r)
  }

  lemma ElemsStart(xs: seq<Value>, r: string)
    requires xs != []
    ensures FlatElems(xs) + r == " " + (Flat(xs[0], " ") + ElemsTail(xs, r))
  {
    var v := Flat(xs[0], " ");
    var tail := if |xs| == 1 then "" else ", " + FlatElems(xs[1..]);
    assert FlatElems(xs) == " " + (v + tail);
    hide Flat, FlatElems;
    Regroup(" ", v + tail, r);
    Regroup(v, tail, r);
    if |xs| > 1 {
      Regroup(", ", FlatElems(xs[1..]), r);
    }
  }

  lemma {:induction false} ElemsInjective(xs: seq<Value>, ys: seq<Value>, r: string, s: string)
    requires xs != [] && ys != [] && r != "" && s != "" && r[0] == s[0] == ' '
    requires forall i :: 0 <= i < |xs| ==> Tellable(xs[i])
    requires forall i :: 0 <= i < |ys| ==> Tellable(ys[i])
    requires FlatElems(xs) + r == FlatElems(ys) + s
    ensures xs == ys && r == s
    decreases xs, 0
  {
    hide Flat, FlatElems, Tellable;
    ElemsStart(xs, r);
    ElemsStart(ys, s);
    var v, w := ElemsTail(xs, r), ElemsTail(ys, s);
    StripPrefix(" ", Flat(xs[0], " ") + v, Flat(ys[0], " ") + w);
    FlatInjective(xs[0], ys[0], " ", v, w);
    assert v[0] == (if |xs| == 1 then ' ' else ',') && w[0] == (if |ys| == 1 then ' ' else ',');
    if |xs| > 1 {
      StripPrefix(", ", FlatElems(xs[1..]) + r, FlatElems(ys[1..]) + s);
      ElemsInjective(xs[1..], ys[1..], r, s);
    }
    assert xs == [xs[0]] + xs[1..] && ys == [ys[0]] + ys[1..];
  }

  lemma {:induction false} FieldsInjective(fs: seq<Field>, gs: seq<Field>, gap: string, r: string, s: string)
    requires fs != [] && gs != [] && r != "" && s != "" && r[0] == s[0] == '}'
    requires forall i :: 0 <= i < |fs| ==> SafeKey(fs[i].key) && Tellable(fs[i].val)
    requires forall i :: 0 <= i < |gs| ==> SafeKey(gs[i].key) && Tellable(gs[i].val)
    requires FlatFields(fs, gap) + r == FlatFields(gs, gap) + s
    ensures fs == gs && r == s
    decreases fs, 0
  {
    hide Flat, FlatFields, Tellable, SafeKey, FieldsTail;
    var f, g, v, w := fs[0], gs[0], FieldsTail(fs, gap, r), FieldsTail(gs, gap, s);
    FirstFields(fs, gs, gap, r, s);
    FlatInjective(f.val, g.val, gap, v, w);
    FieldsTails(fs, gs, gap, r, s);
    if |fs| > 1 {
      FieldsInjective(fs[1..], gs[1..], gap, r, s);
    }
    assert fs == [fs[0]] + fs[1..] && gs == [gs[0]] + gs[1..];
  }

  lemma FirstFields(fs: seq<Field>, gs: seq<Field>, gap: string, r: string, s: string)
    requires fs != [] && gs != [] && SafeKey(fs[0].key) && SafeKey(gs[0].key)
    requires FlatFields(fs, gap) + r == FlatFields(gs, gap) + s
    ensures fs[0].key == gs[0].key
    ensures Flat(fs[0].val, gap) + FieldsTail(fs, gap, r) == Flat(gs[0].val, gap) + FieldsTail(gs, gap, s)
    ensures Stops(FieldsTail(fs, gap, r)) && Stops(FieldsTail(gs, gap, s))
  {
    hide Flat, FlatFields, SafeKey;
    FieldsStart(fs, gap, r);
    FieldsStart(gs, gap, s);
    var a, b := Flat(fs[0].val, gap) + FieldsTail(fs, gap, r), Flat(gs[0].val, gap) + FieldsTail(gs, gap, s);
    StripPrefix(gap + "\"", fs[0].key + ("\"" + (" : " + a)), gs[0].key + ("\"" + (" : " + b)));
    KeysApart(fs[0].key, gs[0].key, " : " + a, " : " + b);
    StripPrefix(" : ", a, b);
  }

  lemma FieldsTails(fs: seq<Field>, gs: seq<Field>, gap: string, r: string, s: string)
    requires fs != [] && gs != [] && FieldsTail(fs, gap, r) == FieldsTail(gs, gap, s)
    ensures |fs| == 1 <==> |gs| == 1
    ensures |fs| == 1 ==> r == s
    ensures |fs| > 1 && |gs| > 1 ==> FlatFields(fs[1..], gap) + r == FlatFields(gs[1..], gap) + s
  {
    hide FlatFields;
    var v, w := FieldsTail(fs, gap, r), FieldsTail(gs, gap, s);
    assert v[0] == (if |fs| == 1 then ' ' else ',') && w[0] == (if |gs| == 1 then ' ' else ',');
    if |fs| == 1 {
      StripPrefix(" ", r, s);
    } else {
      StripPrefix(", ", FlatFields(fs[1..], gap) + r, FlatFields(gs[1..], gap) + s);
    }
  }

  // What follows the first field's value.
  function FieldsTail(fs: seq<Field>, gap: string, r: string): string
    requires fs != []
  {
    if |fs| == 1 then " " + r else ", " + (FlatFields(fs[1..], gap) + r)
  }

  lemma FieldsStart(fs: seq<Field>, gap: string, r: string)
    requires fs != []
    ensures FlatFields(fs, gap) + r
         == (gap + "\"") + (fs[0].key + ("\"" + (" : " + (Flat(fs[0].val, gap) + FieldsTail(fs, gap, r)))))
  {
    var k, v := fs[0].key, Flat(fs[0].val, gap);
    var tail := if |fs| == 1 then " " else ", " + FlatFields(fs[1..], gap);
    assert FlatFields(fs, gap) == gap + ("\"" + (k + ("\" : " + (v + tail))));
    hide Flat, FlatFields;
    RegroupFlatField(gap, k, v, tail, r);
    if |fs| > 1 {
      Regroup(", ", FlatFields(fs[1..], gap), r);
    }
  }

  lemma RegroupFlatField(gap: string, k: string, v: string, tail: string, r: string)
    ensures gap + ("\"" + (k + ("\" : " + (v + tail)))) + r
         == (gap + "\"") + (k + ("\"" + (" : " + (v + (tail + r)))))
  {
    Regroup(gap, "\"", k + ("\" : " + (v + tail)));
    Regroup(gap + "\"", k + ("\" : " + (v + tail)), r);
    Regroup(k, "\" : " + (v + tail), r);
    assert "\" : " == "\"" + " : ";
    Regroup("\"", " : ", v + tail);
    Regroup("\"", " : " + (v + tail), r);
    Regroup(" : ", v + tail, r);
    Regroup(v, tail, r);
  }

  // ----- What collapsing the printer's text gives -----

  predicate Unbroken(s: string) {
    forall i :: 0 <= i < |s| ==> !IsBreak(s[i])
  }

  lemma UnbrokenSame(s: string)
    requires Unbroken(s)
    ensures Collapse(s) == s
  {
    CollapseTake(s, |s|);
    assert s[..|s|] == s && s[|s|..] == "";
  }

  lemma {:induction false} EscapeUnbroken(s: string)
    ensures Unbroken(Escape(s))
  {
    if s != "" {
      EscapeUnbroken(s[..|s| - 1]);
    }
  }

  lemma CollapseLeaf(x: Value)
    requires NumbersOk(x) && NoInts(x) && !x.Arr? && !x.Obj?
    ensures Unbroken(JsonText(x, "", On)) && Collapse(JsonText(x, "", On)) == JsonText(x, "", On)
  {
    var s := JsonText(x, "", On);
    if x.Str? {
      EscapeUnbroken(x.s);
    } else {
      WordText(x);
      assert forall i :: 0 <= i < |s| ==> IsWordChar(s[i]) && !IsBreak(s[i]);
    }
    UnbrokenSame(s);
  }

  lemma {:induction false} CollapseInner(x: Value)
    requires Tellable(x)
    ensures Collapse(JsonText(x, "\t", On)) == Flat(x, " ")
    decreases x, 2
  {
    match x {
      case Arr(elems) => CollapseArray(elems, "\t");
      case Obj(fields) => CollapseObject(fields);
      case _ => CollapseLeaf(x);
    }
  }

  lemma {:induction false} CollapseArray(elems: seq<Value>, indent: string)
    requires forall i :: 0 <= i < |elems| ==> Tellable(elems[i])
    ensures Collapse(ArrayText(elems, indent, On)) == Flat(Arr(elems), " ")
    decreases elems, 1
  {
    if elems == [] {
      UnbrokenSame("[ ]");
    } else {
      CollapseElems(elems);
      ArrayPieces(elems, indent, On);
      hide ArrayText, ElemsText, Collapse, FlatElems;
      var es := ElemsText(elems, "\t", On);
      assert "[" + " " == "[ " && " " + Pop("\t") + "]" == " ]";
      CollapseWithin("[ ", es, " ]");
      Regroup("[ ", Collapse(es), " ]");
    }
  }

  // Spaces on both sides keep a text's runs of breaks to itself.
  lemma CollapseWithin(a: string, s: string, z: string)
    requires Unbroken(a) && Unbroken(z) && a != "" && z != ""
    ensures Collapse(a + s + z) == a + Collapse(s) + z
  {
    hide Collapse;
    CollapseSplit(a + s, z);
    CollapseSplit(a, s);
    UnbrokenSame(a);
    UnbrokenSame(z);
  }

  lemma {:induction false} CollapseElems(elems: seq<Value>)
    requires elems != [] && forall i :: 0 <= i < |elems| ==> Tellable(elems[i])
    ensures Collapse(ElemsText(elems, "\t", On)) == FlatElems(elems)
    decreases elems, 0
  {
    var v, last := JsonText(elems[0], "\t", On), |elems| == 1;
    var rest := ElemsText(elems[1..], "\t", On);
    var tail := if last then "" else ", " + rest;
    assert ElemsText(elems, "\t", On) == "\t" + v + tail by {
      ElemsJoin(v, last, rest);
      assert last ==> elems[1..] == [];
    }
    CollapseInner(elems[0]);
    SolidText(elems[0], "\t", On);
    if !last {
      CollapseElems(elems[1..]);
    }
    hide ElemsText, JsonText, Flat;
    CollapseAround(true, "\t", v, tail);
    CollapseTab();
    CollapseTail(last, rest);
    Regroup(" ", Collapse(v), Collapse(tail));
  }

  lemma ElemsJoin(v: string, last: bool, rest: string)
    requires last ==> rest == ""
    ensures "\t" + v + (if last then "" else "," + " ") + rest == "\t" + v + if last then "" else ", " + rest
  {
    if last {
      assert "\t" + v + "" == "\t" + v && "\t" + v + "" + rest == "\t" + v;
    } else {
      assert "," + " " == ", ";
      Regroup("\t" + v, ", ", rest);
    }
  }

  lemma CollapseTab()
    ensures Collapse("\t") == " " && Collapse("") == ""
  {
    assert "\t"[1..] == "";
  }

  lemma CollapseTail(last: bool, rest: string)
    ensures Collapse(if last then "" else ", " + rest) == if last then "" else ", " + Collapse(rest)
  {
    CollapseSplit(", ", rest);
    UnbrokenSame(", ");
  }

  lemma {:induction false} CollapseObject(fields: seq<Field>)
    requires Tellable(Obj(fields))
    ensures Collapse(JsonText(Obj(fields), "\t", On)) == Flat(Obj(fields), " ")
    decreases fields, 1
  {
    assert "\t" + TabSpace(On) == "\t";
    if fields == [] {
      assert "{" + " " + ("\t" + " ") + Pop("\t") + "}" == "{ " + "\t" + " }";
      CollapseWithin("{ ", "\t", " }");
      CollapseTab();
      Regroup("{ ", " ", " }");
    } else {
      CollapseFields(fields);
      ObjectJoin(fields);
      hide JsonText, FieldsText, Collapse, FlatFields;
      var text := FieldsText(fields, "\t", On);
      CollapseWithin("{ ", text, "}");
      Regroup("{ ", Collapse(text), "}");
    }
  }

  lemma ObjectJoin(fields: seq<Field>)
    requires fields != [] && BorrowedInt(fields).None? && !HasKey(fields, "toString")
    ensures JsonText(Obj(fields), "\t", On) == "{ " + FieldsText(fields, "\t", On) + "}"
  {
    assert "\t" + TabSpace(On) == "\t" && "{" + " " == "{ ";
    hide FieldsText, HasKey, BorrowedInt;
    var text := FieldsText(fields, "\t", On);
    assert ObjectText(fields, "\t", On) == "{ " + text + Pop("\t") + "}";
    assert "{ " + text + "" == "{ " + text;
  }

  lemma {:induction false} CollapseFields(fields: seq<Field>)
    requires fields != [] && forall i :: 0 <= i < |fields| ==> SafeKey(fields[i].key) && Tellable(fields[i].val)
    ensures Collapse(FieldsText(fields, "\t", On)) == FlatFields(fields, " ")
    decreases fields, 0
  {
    var f, last := fields[0], |fields| == 1;
    CollapseInner(f.val);
    FieldPieces(f, last, "\t", On);
    SolidText(f.val, "\t", On);
    var rest := FieldsText(fields[1..], "\t", On);
    CollapseField("\t", f.key, JsonText(f.val, "\t", On), last, rest);
    CollapseTab();
    if !last {
      CollapseFields(fields[1..]);
    }
    hide FieldPiece, JsonText, Flat;
  }

  // A field whose value is printed as v, and what follows it.
  lemma CollapseField(gap: string, key: string, v: string, last: bool, rest: string)
    requires (gap == "" || gap == "\t") && SafeKey(key) && Solid(v) && (last ==> rest == "")
    ensures Collapse(FieldPiece(key, v, last, gap, " ") + rest)
         == Collapse(gap) + ("\"" + (key + ("\" : " + (Collapse(v) + if last then " " else ", " + Collapse(rest)))))
  {
    var head, after := "\"" + key + "\" : ", (if last then "" else ",") + " ";
    hide Collapse, SafeKey;
    HeadUnbroken(key);
    Regroup(gap + head + v, after, rest);
    CollapseAround(true, gap + head, v, after + rest);
    CollapseSplit(gap, head);
    UnbrokenSame(head);
    CollapseSplit(after, rest);
    UnbrokenSame(after);
    UnbrokenSame("");
    FieldJoin(Collapse(gap), key, Collapse(v), last, Collapse(rest));
  }

  lemma HeadUnbroken(key: string)
    requires SafeKey(key)
    ensures Unbroken("\"" + key + "\" : ")
  {
    forall i | 0 <= i < |key| ensures !IsBreak(key[i]) {
      assert SafeChar(key[i]);
    }
  }

  lemma FieldJoin(gap: string, key: string, v: string, last: bool, rest: string)
    requires last ==> rest == ""
    ensures (gap + ("\"" + key + "\" : ")) + v + (((if last then "" else ",") + " ") + rest)
         == gap + ("\"" + (key + ("\" : " + (v + if last then " " else ", " + rest))))
  {
    var tail := if last then " " else ", " + rest;
    assert ((if last then "" else ",") + " ") + rest == tail;
    Regroup("\"", key, "\" : ");
    Regroup(gap, "\"" + (key + "\" : "), v + tail);
    Regroup("\"", key + "\" : ", v + tail);
    Regroup(key, "\" : ", v + tail);
    Regroup(gap + ("\"" + key + "\" : "), v, tail);
  }
}
