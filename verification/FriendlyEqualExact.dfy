// Exactly when friendlyEqual answers true.
module FriendlyEqualExact {
  import opened Text
  import opened Json
  import opened JsonReader
  import opened JsonProofs
  import opened JsonConverse
  import opened FlatText
  import opened Friendly
  import opened FriendlyEqualProofs

  // ----- Inside an array nothing is collapsed: cleaning the text is printing the folded value -----

  lemma MatchHasCall(p: string)
    requires MatchInt(p).Some?
    ensures '(' in p
  {
    assert p[9] == p[..10][9];
  }

  lemma {:induction false} CleanNoCall(p: string)
    requires '(' !in p
    ensures Clean(p) == p
    decreases |p|
  {
    if p != "" {
      if MatchInt(p).Some? {
        MatchHasCall(p);
      }
      CleanNoCall(p[1..]);
    }
  }

  lemma CleanNumInt(n: int)
    ensures Clean(NumIntText(n)) == IntText(n)
  {
    var s, d := NumIntText(n), IntText(n);
    assert s[..10] == CALL;
    assert s[10..10 + |d|] == d;
    assert forall i :: 0 <= i < |d| ==> s[10 + i] == d[i];
    assert IsMatch(s, |d|);
    MatchIff(s, |d|);
    assert s[11 + |d|..] == "";
    assert d + "" == d;
  }

  // What stands around a text and cannot take part in a match is left alone.
  lemma CleanWrap(open: string, body: string, close: string)
    requires 'N' !in open && 'N' !in close && (close == "" || !InMatch(close[0]))
    ensures Clean(open + body + close) == open + Clean(body) + close
  {
    hide Clean;
    Regroup(open, body, close);
    CleanSkip(open, body + close);
    CleanSplit(body, close);
    CleanSame(close);
    Regroup(open, Clean(body), close);
  }

  lemma CleanStringText(s: string)
    ensures Clean(StringText(s)) == StringText(Clean(s))
  {
    CleanWrap("\"", Escape(s), "\"");
    CleanEscape(s);
  }

  lemma CleanLeaf(x: Value, indent: string)
    requires NumbersOk(x) && !x.Arr? && !x.Obj?
    ensures Clean(JsonText(x, indent, On)) == JsonText(Fold(x), indent, On)
  {
    match x {
      case Str(s) => CleanStringText(s);
      case NumInt(n) =>
        CleanLeafInt(n, indent);
      case _ =>
        CleanNoCall(JsonText(x, indent, On));
    }
  }

  lemma CleanLeafInt(n: int, indent: string)
    ensures Clean(JsonText(NumInt(n), indent, On)) == IntText(n)
  {
    hide Clean, IntText, NumIntText, Collapse, IsBreak;
    CleanNumInt(n);
    CleanCollapse(NumIntText(n));
    IntUnbroken(n);
    UnbrokenSame(IntText(n));
  }

  lemma IntUnbroken(n: int)
    ensures forall i :: 0 <= i < |IntText(n)| ==> !IsBreak(IntText(n)[i])
  {
  }

  lemma {:induction false} CleanInner(x: Value)
    requires NumbersOk(x) && SafeKeys(x)
    ensures Clean(JsonText(x, "\t", On)) == JsonText(Fold(x), "\t", On)
    decreases x, 3
  {
    match x {
      case Arr(elems) => CleanArray(elems, "\t");
      case Obj(fields) =>
        CleanObject(fields);
        FoldSafe(x);
      case _ => CleanLeaf(x, "\t");
    }
  }

  lemma {:induction false} CleanArray(elems: seq<Value>, indent: string)
    requires forall i :: 0 <= i < |elems| ==> NumbersOk(elems[i]) && SafeKeys(elems[i])
    ensures Clean(ArrayText(elems, indent, On)) == ArrayText(FoldElems(elems), indent, On)
    decreases elems, 1
  {
    if elems == [] {
      CleanSame("[ ]");
    } else {
      hide Clean, ArrayText, ElemsText;
      ArrayPieces(elems, indent, On);
      ArrayPieces(FoldElems(elems), indent, On);
      var es := ElemsText(elems, "\t", On);
      CleanElems(elems);
      CleanWrap("[" + " ", es, " " + Pop("\t") + "]");
    }
  }

  lemma {:induction false} CleanElems(elems: seq<Value>)
    requires forall i :: 0 <= i < |elems| ==> NumbersOk(elems[i]) && SafeKeys(elems[i])
    ensures Clean(ElemsText(elems, "\t", On)) == ElemsText(FoldElems(elems), "\t", On)
    decreases elems, 0
  {
    hide Clean, JsonText;
    CleanSame("");
    if elems != [] {
      var v := JsonText(elems[0], "\t", On);
      var after := if |elems| == 1 then "" else "," + " ";
      var rest := ElemsText(elems[1..], "\t", On);
      CleanInner(elems[0]);
      CleanElems(elems[1..]);
      CleanAround("\t", v, after, rest);
      assert FoldElems(elems)[1..] == FoldElems(elems[1..]);
      assert ElemsText(elems, "\t", On) == "\t" + v + after + rest;
    }
  }

  // The separator after a value and the gap before it are left alone.
  lemma CleanBefore(v: string, after: string, rest: string)
    requires 'N' !in after
    requires after != "" ==> !InMatch(after[0])
    requires after == "" ==> rest == ""
    ensures Clean(v + after + rest) == Clean(v) + after + Clean(rest)
  {
    hide Clean;
    Regroup(v, after, rest);
    CleanSplit(v, after + rest);
    CleanSkip(after, rest);
    Regroup(Clean(v), after, Clean(rest));
  }

  lemma CleanAround(gap: string, v: string, after: string, rest: string)
    requires 'N' !in gap && 'N' !in after
    requires after != "" ==> !InMatch(after[0])
    requires after == "" ==> rest == ""
    ensures Clean(gap + v + after + rest) == gap + Clean(v) + after + Clean(rest)
  {
    hide Clean;
    Regroup(gap + v, after, rest);
    Regroup(gap, v, after + rest);
    Regroup(v, after, rest);
    CleanSkip(gap, v + after + rest);
    CleanBefore(v, after, rest);
    Regroup(gap, Clean(v), after + Clean(rest));
    Regroup(Clean(v), after, Clean(rest));
    Regroup(gap + Clean(v), after, Clean(rest));
  }

  lemma CleanFieldPiece(key: string, v: string, last: bool, indent: string, rest: string)
    requires 'N' !in indent
    ensures Clean(FieldPiece(key, v, last, indent, " ") + rest)
         == FieldPiece(Clean(key), Clean(v), last, indent, " ") + Clean(rest)
  {
    hide Clean, FieldPiece;
    var after := (if last then "" else ",") + " ";
    RegroupPiece(key, v, last, indent, rest);
    CleanAround(indent + "\"", key, "\" : ", v + after + rest);
    CleanBefore(v, after, rest);
    RegroupPiece(Clean(key), Clean(v), last, indent, Clean(rest));
  }

  lemma RegroupPiece(key: string, v: string, last: bool, indent: string, rest: string)
    ensures var after := (if last then "" else ",") + " ";
      FieldPiece(key, v, last, indent, " ") + rest == indent + "\"" + key + "\" : " + (v + after + rest)
  {
    var after := (if last then "" else ",") + " ";
    assert indent + ("\"" + key + "\" : ") == indent + "\"" + key + "\" : ";
    Regroup(indent + "\"" + key + "\" : ", v, after);
    Regroup(indent + "\"" + key + "\" : ", v + after, rest);
  }

  lemma {:induction false} CleanFields(fields: seq<Field>)
    requires forall i :: 0 <= i < |fields| ==> NumbersOk(fields[i].val) && SafeKeys(fields[i].val)
    ensures Clean(FieldsText(fields, "\t", On)) == FieldsText(FoldFields(fields), "\t", On)
    decreases fields, 0
  {
    if fields != [] {
      var f, g, last := fields[0], FoldFields(fields)[0], |fields| == 1;
      CleanInner(f.val);
      CleanFields(fields[1..]);
      FieldPieces(f, last, "\t", On);
      FieldPieces(g, last, "\t", On);
      CleanFieldPiece(f.key, JsonText(f.val, "\t", On), last, "\t", FieldsText(fields[1..], "\t", On));
      assert FoldFields(fields)[1..] == FoldFields(fields[1..]);
    }
  }

  lemma {:induction false} CleanObject(fields: seq<Field>)
    requires forall i :: 0 <= i < |fields| ==> NumbersOk(fields[i].val) && SafeKeys(fields[i].val)
    ensures Clean(ObjectText(fields, "\t", On)) == ObjectText(FoldFields(fields), "\t", On)
    decreases fields, 1
  {
    if fields == [] {
      CleanSame(ObjectText(fields, "\t", On));
    } else {
      var body := FieldsText(fields, "\t", On);
      CleanFields(fields);
      ObjectPieces(fields, "\t");
      ObjectPieces(FoldFields(fields), "\t");
      CleanBraces(body, Pop("\t"));
    }
  }

  lemma ObjectPieces(fields: seq<Field>, indent: string)
    requires fields != []
    ensures ObjectText(fields, indent, On) == "{ " + FieldsText(fields, indent, On) + (Pop(indent) + "}")
  {
    assert indent + "" == indent;
    assert "{" + " " == "{ ";
  }

  lemma CleanBraces(body: string, close: string)
    requires 'N' !in close && (close == "" || !InMatch(close[0]))
    ensures Clean("{ " + body + (close + "}")) == "{ " + Clean(body) + (close + "}")
  {
    CleanWrap("{ ", body, close + "}");
  }

  // ----- At the left margin: only arrays reached through objects choose between two layouts -----

  // friendlyEqual's text of x after the clean-up.
  function MarginText(x: Value): string
    decreases x, 1
  {
    match x
    case Arr(elems) =>
      var s := ArrayText(FoldElems(elems), "", On);
      if |ArrayText(elems, "", On)| < 80 then Collapse(s) else s
    case Obj(fields) => "{ " + (if fields == [] then " " else MarginFields(fields)) + "}"
    case _ => JsonText(Fold(x), "", On)
  }

  function MarginFields(fields: seq<Field>): string
    decreases fields, 0
  {
    if fields == [] then ""
    else
      FieldPiece(Clean(fields[0].key), MarginText(fields[0].val), |fields| == 1, "", " ") + MarginFields(fields[1..])
  }

  lemma {:induction false} CollapseUnbroken(s: string)
    ensures Unbroken(Collapse(s))
  {
    if s != "" {
      CollapseUnbroken(s[1..]);
    }
  }

  lemma PieceUnbroken(key: string, v: string, last: bool)
    requires SafeKey(key) && Unbroken(v)
    ensures Unbroken(FieldPiece(key, v, last, "", " "))
  {
    var head := "\"" + key + "\" : ";
    assert Unbroken(key) by {
      forall i | 0 <= i < |key| ensures !IsBreak(key[i]) { assert SafeChar(key[i]); }
    }
    assert Unbroken(head);
  }

  // A text under 80 characters asked for at the margin has no line break or tab left.
  lemma {:induction false} MarginUnbroken(x: Value)
    requires NumbersOk(x) && SafeKeys(x)
    ensures |JsonText(x, "", On)| < 80 ==> Unbroken(JsonText(x, "", On))
    decreases x, 1
  {
    match x {
      case Str(s) => EscapeUnbroken(s);
      case Num(text) =>
        assert forall i :: 0 <= i < |text| ==> IsWordChar(text[i]);
      case NumInt(n) => CollapseUnbroken(NumIntText(n));
      case Arr(elems) => CollapseUnbroken(ArrayText(elems, "", On));
      case Obj(fields) => CollapseUnbroken(ObjectText(fields, "", On));
      case _ =>
    }
  }

  lemma {:induction false} FieldsUnbroken(fields: seq<Field>)
    requires forall i :: 0 <= i < |fields| ==>
      SafeKey(fields[i].key) && NumbersOk(fields[i].val) && SafeKeys(fields[i].val)
    requires |FieldsText(fields, "", On)| < 80
    ensures Unbroken(FieldsText(fields, "", On))
  {
    if fields != [] {
      var f := fields[0];
      FieldPieces(f, |fields| == 1, "", On);
      MarginUnbroken(f.val);
      PieceUnbroken(f.key, JsonText(f.val, "", On), |fields| == 1);
      FieldsUnbroken(fields[1..]);
    }
  }

  // So an object's text is the same before and after the collapse.
  lemma ObjectSettled(fields: seq<Field>)
    requires NumbersOk(Obj(fields)) && SafeKeys(Obj(fields))
    ensures JsonText(Obj(fields), "", On) == ObjectText(fields, "", On)
  {
    var s := ObjectText(fields, "", On);
    if |s| < 80 {
      if fields != [] {
        ObjectPieces(fields, "");
        FieldsUnbroken(fields);
      }
      assert Unbroken(s);
      UnbrokenSame(s);
    }
  }

  lemma {:induction false} CleanMargin(x: Value)
    requires NumbersOk(x) && SafeKeys(x)
    ensures Clean(JsonText(x, "", On)) == MarginText(x)
    decreases x, 1
  {
    match x {
      case Arr(elems) =>
        CleanArray(elems, "");
        CleanMarginArray(elems);
      case Obj(fields) =>
        ObjectSettled(fields);
        CleanMarginFields(fields);
        CleanMarginObject(fields);
      case _ => CleanLeaf(x, "");
    }
  }

  lemma CleanMarginObject(fields: seq<Field>)
    requires Clean(FieldsText(fields, "", On)) == MarginFields(fields)
    ensures Clean(ObjectText(fields, "", On)) == MarginText(Obj(fields))
  {
    if fields == [] {
      hide Clean;
      assert ObjectText(fields, "", On) == "{" + " " + ("" + " ") + "" + "}";
      CleanSame(ObjectText(fields, "", On));
    } else {
      hide Clean, ObjectText, FieldsText, MarginFields;
      ObjectPieces(fields, "");
      CleanBraces(FieldsText(fields, "", On), "");
    }
  }

  lemma CleanMarginArray(elems: seq<Value>)
    requires Clean(ArrayText(elems, "", On)) == ArrayText(FoldElems(elems), "", On)
    ensures Clean(JsonText(Arr(elems), "", On)) == MarginText(Arr(elems))
  {
    hide Clean, ArrayText, Collapse;
    CleanCollapse(ArrayText(elems, "", On));
  }

  lemma {:induction false} CleanMarginFields(fields: seq<Field>)
    requires forall i :: 0 <= i < |fields| ==> NumbersOk(fields[i].val) && SafeKeys(fields[i].val)
    ensures Clean(FieldsText(fields, "", On)) == MarginFields(fields)
    decreases fields, 0
  {
    hide Clean, FieldPiece, JsonText, MarginText;
    CleanSame("");
    if fields != [] {
      var f, last := fields[0], |fields| == 1;
      CleanMargin(f.val);
      CleanMarginFields(fields[1..]);
      FieldPieces(f, last, "", On);
      CleanFieldPiece(f.key, JsonText(f.val, "", On), last, "", FieldsText(fields[1..], "", On));
    }
  }

  // ----- Equal cleaned texts have equal collapsed texts, so equal folded values -----

  lemma SolidMargin(x: Value)
    requires NumbersOk(x) && SafeKeys(x)
    ensures Solid(MarginText(x))
  {
    FoldSafe(x);
    match x {
      case Arr(elems) =>
        SolidStruct(Arr(FoldElems(elems)), "", On);
        CollapseSolid(ArrayText(FoldElems(elems), "", On));
      case Obj(fields) =>
      case _ => SolidText(Fold(x), "", On);
    }
  }

  lemma {:induction false} CollapseMargin(x: Value)
    requires NumbersOk(x) && SafeKeys(x)
    ensures Collapse(MarginText(x)) == Flat(Fold(x), "")
    decreases x, 1
  {
    FoldSafe(x);
    match x {
      case Arr(elems) =>
        CollapseArray(FoldElems(elems), "");
        CollapseTwice(ArrayText(FoldElems(elems), "", On));
      case Obj(fields) =>
        if fields != [] {
          CollapseMarginFields(fields);
        }
        hide Fold, Collapse, MarginFields, FlatFields;
        CollapseMarginObject(fields);
      case _ => CollapseLeaf(Fold(x));
    }
  }

  lemma CollapseMarginObject(fields: seq<Field>)
    requires fields != [] ==> Collapse(MarginFields(fields)) == FlatFields(FoldFields(fields), "")
    ensures Collapse(MarginText(Obj(fields))) == Flat(Fold(Obj(fields)), "")
  {
    hide Collapse, MarginFields, FlatFields, FoldFields;
    if fields == [] {
      assert "{ " + " " + "}" == "{ " + ("" + " }");
      UnbrokenSame("{ " + " " + "}");
    } else {
      var text := MarginFields(fields);
      CollapseWithin("{ ", text, "}");
      Regroup("{ ", Collapse(text), "}");
    }
  }

  lemma {:induction false} CollapseMarginFields(fields: seq<Field>)
    requires fields != []
    requires forall i :: 0 <= i < |fields| ==>
      SafeKey(fields[i].key) && NumbersOk(fields[i].val) && SafeKeys(fields[i].val)
    ensures Collapse(MarginFields(fields)) == FlatFields(FoldFields(fields), "")
    decreases fields, 0
  {
    hide Clean, FieldPiece, MarginText, Flat, SafeKey;
    var f, last, rest := fields[0], |fields| == 1, MarginFields(fields[1..]);
    CleanSafe(f.key);
    CollapseMargin(f.val);
    SolidMargin(f.val);
    CollapseField("", Clean(f.key), MarginText(f.val), last, rest);
    CollapseTab();
    assert FoldFields(fields)[1..] == FoldFields(fields[1..]);
    if !last {
      CollapseMarginFields(fields[1..]);
    }
  }

  // ----- The arrays that must fall on the same side of 80 characters -----

  predicate SameBreaks(a: Value, b: Value) {
    match (a, b)
    case (Arr(xs), Arr(ys)) => |ArrayText(xs, "", On)| < 80 <==> |ArrayText(ys, "", On)| < 80
    case (Obj(fs), Obj(gs)) => |fs| == |gs| && forall i :: 0 <= i < |fs| ==> SameBreaks(fs[i].val, gs[i].val)
    case _ => true
  }

  ghost predicate Diverge(s: string, t: string) {
    exists i :: 0 <= i < |s| && i < |t| && s[i] != t[i]
  }

  lemma DivergeInside(p: string, s: string, t: string, y: string, z: string)
    requires Diverge(s, t)
    ensures Diverge(p + s + y, p + t + z)
  {
    var i :| 0 <= i < |s| && i < |t| && s[i] != t[i];
    assert (p + s + y)[|p| + i] == s[i] && (p + t + z)[|p| + i] == t[i];
  }

  lemma {:induction false} MarginCompare(a: Value, b: Value)
    requires Fold(a) == Fold(b)
    ensures if SameBreaks(a, b) then MarginText(a) == MarginText(b) else Diverge(MarginText(a), MarginText(b))
    decreases a, 1
  {
    if a.Arr? && b.Arr? && !SameBreaks(a, b) {
      assert a.elems != [];
      CollapsedArray(FoldElems(a.elems));
    } else if a.Obj? && b.Obj? {
      MarginFieldsCompare(a.fields, b.fields);
      if a.fields != [] && !SameBreaks(a, b) {
        DivergeInside("{ ", MarginFields(a.fields), MarginFields(b.fields), "}", "}");
      }
    }
  }

  // A collapsed array has a space where the array had its first tab.
  lemma CollapsedArray(elems: seq<Value>)
    requires elems != []
    ensures var s := ArrayText(elems, "", On); |s| > 2 && s[2] == '\t' && |Collapse(s)| > 2 && Collapse(s)[2] == ' '
    ensures var s := ArrayText(elems, "", On); Collapse(s)[..2] == s[..2]
  {
    var s := ArrayText(elems, "", On);
    assert s[..3] == "[ \t" by { ArrayPieces(elems, "", On); }
    assert s[0] == s[..3][0] && s[1] == s[..3][1] && s[2] == s[..3][2];
    CollapseTake(s, 2);
    CollapseFirst(s[2..]);
    assert s[2..][0] == '\t';
  }

  lemma {:induction false} MarginFieldsCompare(fs: seq<Field>, gs: seq<Field>)
    requires FoldFields(fs) == FoldFields(gs)
    ensures |fs| == |gs|
    ensures if forall i :: 0 <= i < |fs| ==> SameBreaks(fs[i].val, gs[i].val)
            then MarginFields(fs) == MarginFields(gs)
            else Diverge(MarginFields(fs), MarginFields(gs))
    decreases fs, 0
  {
    hide FieldPiece, Clean, MarginText, SameBreaks, Diverge;
    assert |FoldFields(fs)| == |fs| && |FoldFields(gs)| == |gs|;
    if fs != [] {
      assert FoldFields(fs)[0] == FoldFields(gs)[0];
      assert FoldFields(fs)[1..] == FoldFields(fs[1..]) && FoldFields(gs)[1..] == FoldFields(gs[1..]);
      MarginCompare(fs[0].val, gs[0].val);
      MarginFieldsCompare(fs[1..], gs[1..]);
      var last := |fs| == 1;
      var k := Clean(fs[0].key);
      var s, t := MarginText(fs[0].val), MarginText(gs[0].val);
      if !SameBreaks(fs[0].val, gs[0].val) {
        DivergeInField(k, s, t, last, MarginFields(fs[1..]), MarginFields(gs[1..]));
      } else if !(forall i :: 0 <= i < |fs| ==> SameBreaks(fs[i].val, gs[i].val)) {
        var i :| 0 <= i < |fs| && !SameBreaks(fs[i].val, gs[i].val);
        assert fs[1..][i - 1] == fs[i] && gs[1..][i - 1] == gs[i];
        DivergeAfter(FieldPiece(k, s, last, "", " "), MarginFields(fs[1..]), MarginFields(gs[1..]));
      } else {
        assert forall i :: 0 <= i < |fs[1..]| ==> fs[1..][i] == fs[i + 1] && gs[1..][i] == gs[i + 1];
      }
    }
  }

  lemma DivergeInField(k: string, s: string, t: string, last: bool, y: string, z: string)
    requires Diverge(s, t)
    ensures Diverge(FieldPiece(k, s, last, "", " ") + y, FieldPiece(k, t, last, "", " ") + z)
  {
    var p := "" + ("\"" + k + "\" : ");
    var after := (if last then "" else ",") + " ";
    DivergeInside(p, s, t, after + y, after + z);
    Regroup(p + s, after, y);
    Regroup(p + t, after, z);
  }

  lemma DivergeAfter(p: string, s: string, t: string)
    requires Diverge(s, t)
    ensures Diverge(p + s, p + t)
  {
    DivergeInside(p, s, t, "", "");
    assert p + s + "" == p + s && p + t + "" == p + t;
  }

  // friendlyEqual answers true exactly when the values agree once NumberInt(n) is read as n, in strings
  // and keys too, and their arrays are laid out alike.
  lemma FriendlyEqualIff(a: Value, b: Value, loose: bool)
    requires NumbersOk(a) && SafeKeys(a) && NumbersOk(b) && SafeKeys(b)
    ensures FriendlyEqual(a, b, loose) <==> loose || (Fold(a) == Fold(b) && SameBreaks(a, b))
  {
    CleanMargin(a);
    CleanMargin(b);
    assert FriendlyEqual(a, b, loose) <==> loose || MarginText(a) == MarginText(b);
    if MarginText(a) == MarginText(b) {
      CollapseMargin(a);
      CollapseMargin(b);
      FoldSafe(a);
      FoldSafe(b);
      assert Flat(Fold(a), "") + "" == Flat(Fold(b), "") + "";
      FlatInjective(Fold(a), Fold(b), "", "", "");
    }
    if Fold(a) == Fold(b) {
      MarginCompare(a, b);
    }
  }

  lemma {:induction false} SameBreaksSelf(a: Value)
    ensures SameBreaks(a, a)
  {
    if a.Obj? {
      forall i | 0 <= i < |a.fields| ensures SameBreaks(a.fields[i].val, a.fields[i].val) {
        SameBreaksSelf(a.fields[i].val);
      }
    }
  }

  // ----- What that means for callers -----

  // x with every NumberInt(n) read as n.
  function ReadInts(x: Value): Value {
    match x
    case NumInt(n) => Num(IntText(n))
    case Arr(elems) => Arr(seq(|elems|, i requires 0 <= i < |elems| => ReadInts(elems[i])))
    case Obj(fields) =>
      Obj(seq(|fields|, i requires 0 <= i < |fields| => Field(fields[i].key, ReadInts(fields[i].val))))
    case _ => x
  }

  predicate Mentions(s: string) {
    |s| >= 10 && (s[..10] == CALL || Mentions(s[1..]))
  }

  // No string and no key holds the text `NumberInt(`.
  predicate NoMention(x: Value) {
    match x
    case Str(s) => !Mentions(s)
    case Arr(elems) => forall i :: 0 <= i < |elems| ==> NoMention(elems[i])
    case Obj(fields) => forall i :: 0 <= i < |fields| ==> !Mentions(fields[i].key) && NoMention(fields[i].val)
    case _ => true
  }

  lemma {:induction false} CleanUnmentioned(s: string)
    requires !Mentions(s)
    ensures Clean(s) == s
  {
    if s != "" {
      assert MatchInt(s).None?;
      CleanUnmentioned(s[1..]);
    }
  }

  lemma {:induction false} FoldIsReadInts(x: Value)
    requires NoMention(x)
    ensures Fold(x) == ReadInts(x)
  {
    match x {
      case Str(s) => CleanUnmentioned(s);
      case Arr(elems) =>
        forall i | 0 <= i < |elems| ensures FoldElems(elems)[i] == ReadInts(elems[i]) {
          FoldIsReadInts(elems[i]);
        }
        assert FoldElems(elems) == ReadInts(x).elems;
      case Obj(fields) =>
        forall i | 0 <= i < |fields| ensures FoldFields(fields)[i] == Field(fields[i].key, ReadInts(fields[i].val)) {
          FoldIsReadInts(fields[i].val);
          CleanUnmentioned(fields[i].key);
        }
        assert FoldFields(fields) == ReadInts(x).fields;
      case _ =>
    }
  }

  lemma {:induction false} ReadIntsSame(x: Value)
    requires NoInts(x)
    ensures ReadInts(x) == x
  {
    if x.Arr? {
      forall i | 0 <= i < |x.elems| ensures ReadInts(x).elems[i] == x.elems[i] {
        ReadIntsSame(x.elems[i]);
      }
      assert ReadInts(x).elems == x.elems;
    } else if x.Obj? {
      forall i | 0 <= i < |x.fields| ensures ReadInts(x).fields[i] == x.fields[i] {
        ReadIntsSame(x.fields[i].val);
      }
      assert ReadInts(x).fields == x.fields;
    }
  }

  // Away from strings that spell out a NumberInt call, a true answer can be trusted.
  lemma FriendlyEqualSound(a: Value, b: Value, loose: bool)
    requires NumbersOk(a) && SafeKeys(a) && NumbersOk(b) && SafeKeys(b)
    requires NoMention(a) && NoMention(b)
    requires FriendlyEqual(a, b, loose)
    ensures loose || ReadInts(a) == ReadInts(b)
  {
    FriendlyEqualIff(a, b, loose);
    FoldIsReadInts(a);
    FoldIsReadInts(b);
  }

  // Without NumberInts it is structural equality.
  lemma FriendlyEqualStructural(a: Value, b: Value, loose: bool)
    requires NumbersOk(a) && SafeKeys(a) && NumbersOk(b) && SafeKeys(b)
    requires NoMention(a) && NoMention(b) && NoInts(a) && NoInts(b)
    ensures FriendlyEqual(a, b, loose) <==> loose || a == b
  {
    FriendlyEqualIff(a, b, loose);
    FoldIsReadInts(a);
    FoldIsReadInts(b);
    ReadIntsSame(a);
    ReadIntsSame(b);
    SameBreaksSelf(a);
  }

  // A string that spells a call is taken for the number.
  lemma FooledByString()
    ensures var a, b := Arr([Str("NumberInt(5)")]), Arr([Str("5")]);
      FriendlyEqual(a, b, false) && ReadInts(a) != ReadInts(b)
  {
    var s, t := "NumberInt(5)", "5";
    assert IntText(5) == t && NumIntText(5) == s;
    CleanNumInt(5);
    CleanSame(t);
    FooledByStrings(s, t);
  }

  lemma FooledByStrings(s: string, t: string)
    requires Clean(s) == Clean(t) && s != t && |s| < 20 && |t| < 20
    requires PlainKey(s) && PlainKey(t)
    ensures FriendlyEqual(Arr([Str(s)]), Arr([Str(t)]), false) && ReadInts(Arr([Str(s)])) != ReadInts(Arr([Str(t)]))
  {
    OneString(s);
    OneString(t);
    FoldOne(s);
    FoldOne(t);
    hide Clean, ArrayText, EscapeChar, FriendlyEqual, ReadInts, FoldElems;
    FriendlyEqualIff(Arr([Str(s)]), Arr([Str(t)]), false);
  }

  lemma FoldOne(s: string)
    ensures Fold(Arr([Str(s)])) == Arr([Str(Clean(s))]) && ReadInts(Arr([Str(s)])) == Arr([Str(s)])
  {
    assert FoldElems([Str(s)])[0] == Str(Clean(s));
    assert ReadInts(Arr([Str(s)])).elems == [Str(s)];
  }

  lemma OneString(s: string)
    requires PlainKey(s)
    ensures |ArrayText([Str(s)], "", On)| == |s| + 7
  {
    assert forall i :: 0 <= i < |s| ==> PlainChar(s[i]) && EscapeChar(s[i]) == [s[i]];
    ArrayPieces([Str(s)], "", On);
    EscapeKeep(s, |s|);
    assert s[|s|..] == "" && Escape("") == "";
    LastElem(Str(s));
  }

  lemma LastElem(x: Value)
    ensures |ElemsText([x], "\t", On)| == |JsonText(x, "\t", On)| + 1
  {
    assert [x][1..] == [] && ElemsText([], "\t", On) == "";
    assert |ElemText(x, true, "\t", On)| == |JsonText(x, "\t", On)| + 1;
    assert ElemsText([x], "\t", On) == ElemText(x, true, "\t", On) + "";
  }

  // The four exclusions on keys are all needed. A quote can end a key and begin another.
  lemma FooledByQuote(j: string, k: string)
    requires j != "toString" && k != "toString"
    ensures FriendlyEqual(Obj([Field(j + ("\" : null, \"" + k), Null)]), Obj([Field(j, Null), Field(k, Null)]), false)
  {
    var both := j + ("\" : null, \"" + k);
    var fs, gs := [Field(both, Null)], [Field(j, Null), Field(k, Null)];
    assert both[|j|] == '"' && both != "toString";
    OneNull(both);
    OneNull(k);
    assert gs[1..] == [Field(k, Null)];
    NullThen(j, FieldsText(gs[1..], "", On));
    var tail := k + "\" : null ";
    assert FieldsText(gs, "", On) == "\"" + j + "\" : null, " + ("\"" + tail);
    QuoteJoin(j, k, tail);
    SameText(fs, gs);
  }

  lemma OneNull(k: string)
    ensures FieldsText([Field(k, Null)], "", On) == "\"" + (k + "\" : null ")
  {
    var fs := [Field(k, Null)];
    assert fs[1..] == [] && FieldsText([], "", On) == "";
    assert FieldText(fs[0], true, "", On) == "" + "\"" + k + "\" : " + "null" + "" + " ";
    assert "" + "\"" + k + "\" : " + "null" + "" + " " == "\"" + (k + "\" : null ");
    assert FieldText(fs[0], true, "", On) + "" == FieldText(fs[0], true, "", On);
  }

  lemma NullThen(j: string, rest: string)
    ensures FieldText(Field(j, Null), false, "", On) + rest == "\"" + j + "\" : null, " + rest
  {
    assert FieldText(Field(j, Null), false, "", On) == "" + "\"" + j + "\" : " + "null" + "," + " ";
    assert "" + "\"" + j + "\" : " + "null" + "," + " " == "\"" + j + "\" : null, ";
  }

  lemma QuoteJoin(j: string, k: string, tail: string)
    requires tail == k + "\" : null "
    ensures "\"" + (j + ("\" : null, \"" + k) + "\" : null ") == "\"" + j + "\" : null, " + ("\"" + tail)
  {
    Regroup(j, "\" : null, \"" + k, "\" : null ");
    Regroup("\" : null, \"", k, "\" : null ");
    Regroup("\" : null, ", "\"", tail);
    Regroup("\"", j, "\" : null, " + ("\"" + tail));
    Regroup("\"" + j, "\" : null, ", "\"" + tail);
  }

  lemma SameText(fs: seq<Field>, gs: seq<Field>)
    requires fs != [] && gs != [] && FieldsText(fs, "", On) == FieldsText(gs, "", On)
    requires BorrowedInt(fs).None? && BorrowedInt(gs).None? && !HasKey(fs, "toString") && !HasKey(gs, "toString")
    ensures FriendlyEqual(Obj(fs), Obj(gs), false)
  {
    ObjectPieces(fs, "");
    ObjectPieces(gs, "");
    hide FieldsText, Collapse, Clean, ObjectText, HasKey, BorrowedInt;
    assert JsonText(Obj(fs), "", On) == Finish(ObjectText(fs, "", On), "", On);
    assert JsonText(Obj(gs), "", On) == Finish(ObjectText(gs, "", On), "", On);
  }

  // Of tabs and line breaks in a short key a space is left.
  lemma FooledByBreak(j: string, k: string)
    requires Collapse(j) == Collapse(k) && |j| < 60 && |k| < 60 && j != "toString" && k != "toString"
    ensures FriendlyEqual(Obj([Field(j, Null)]), Obj([Field(k, Null)]), false)
  {
    ShortNull(j);
    ShortNull(k);
    hide JsonText, Collapse, Clean;
  }

  lemma ShortNull(k: string)
    requires |k| < 60 && k != "toString"
    ensures JsonText(Obj([Field(k, Null)]), "", On) == Collapse("{ \"") + Collapse(k) + Collapse("\" : null }")
  {
    hide JsonText, FieldsText, Collapse, ObjectText, HasKey, BorrowedInt;
    var fs, head, tail := [Field(k, Null)], "{ \"", "\" : null }";
    OneNull(k);
    ObjectPieces(fs, "");
    NullJoin(k);
    OneKey(k);
    ShortObject(fs, head + k + tail);
    CollapseSplit(head + k, tail);
    CollapseSplit(head, k);
  }

  lemma OneKey(k: string)
    requires k != "toString"
    ensures !HasKey([Field(k, Null)], "toString") && BorrowedInt([Field(k, Null)]).None?
  {
  }

  lemma ShortObject(fs: seq<Field>, text: string)
    requires BorrowedInt(fs).None? && !HasKey(fs, "toString") && ObjectText(fs, "", On) == text && |text| < 80
    ensures JsonText(Obj(fs), "", On) == Collapse(text)
  {
    hide ObjectText, Collapse, HasKey, BorrowedInt;
  }

  lemma NullJoin(k: string)
    ensures "{ " + ("\"" + (k + "\" : null ")) + (Pop("") + "}") == "{ \"" + k + "\" : null }"
  {
    assert Pop("") + "}" == "}" && "\" : null " + "}" == "\" : null }" && "{ " + "\"" == "{ \"";
    Regroup("{ ", "\"", k + "\" : null ");
    Regroup("{ \"" + k, "\" : null ", "}");
    Regroup("{ \"", k, "\" : null ");
  }

  // For example, a tab is taken for a space.
  lemma TabForSpace()
    ensures FriendlyEqual(Obj([Field("\t", Null)]), Obj([Field(" ", Null)]), false)
  {
    CollapseTab();
    UnbrokenSame(" ");
    FooledByBreak("\t", " ");
  }

  // Objects with their own `toString` all print alike.
  lemma FooledByToString(fs: seq<Field>, gs: seq<Field>)
    requires HasKey(fs, "toString") && BorrowedInt(fs).None? && HasKey(gs, "toString") && BorrowedInt(gs).None?
    ensures FriendlyEqual(Obj(fs), Obj(gs), false)
  {
    StructPrinted(Obj(fs));
    StructPrinted(Obj(gs));
    assert StructText(Obj(fs), "", On) == "[object]" && StructText(Obj(gs), "", On) == "[object]";
  }

  lemma StructPrinted(x: Value)
    requires x.NumInt? || x.Obj?
    ensures JsonText(x, "", On) == Finish(StructText(x, "", On), "", On)
  {
    hide StructText;
  }

  // An object that borrows a NumberInt's printer prints as that NumberInt.
  lemma FooledByConstructor(fs: seq<Field>, n: int)
    requires BorrowedInt(fs) == Some(n)
    ensures FriendlyEqual(Obj(fs), NumInt(n), false)
  {
    StructPrinted(Obj(fs));
    StructPrinted(NumInt(n));
    assert StructText(Obj(fs), "", On) == NumIntText(n) && StructText(NumInt(n), "", On) == NumIntText(n);
  }

  // The same numbers, once wrapped: the wrapper's longer text keeps its tabs and the answer is no.
  lemma MissedByLength()
    ensures var n := Num(Repeat('1', 60));
      var a, b := Arr([NumInt(1), n]), Arr([Num("1"), n]);
      !FriendlyEqual(a, b, false) && ReadInts(a) == ReadInts(b)
  {
    var n := Num(Repeat('1', 60));
    assert IntText(1) == "1" && NumIntText(1) == "NumberInt(1)";
    WordLengthIs(n.text, 60);
    MissedWhenLong(1, n);
  }

  lemma MissedWhenLong(i: int, n: Value)
    requires n.Num? && NumbersOk(n) && |n.text| == 60 && |IntText(i)| == 1
    ensures var a, b := Arr([NumInt(i), n]), Arr([Num(IntText(i)), n]);
      !FriendlyEqual(a, b, false) && ReadInts(a) == ReadInts(b)
  {
    var x := Num(IntText(i));
    var a, b := Arr([NumInt(i), n]), Arr([x, n]);
    WordLengthIs(x.text, 1);
    TwoElems(NumInt(i), n);
    TwoElems(x, n);
    assert ReadInts(a).elems == ReadInts(b).elems == [x, n];
    FriendlyEqualIff(a, b, false);
  }

  lemma TwoElems(x: Value, y: Value)
    ensures |ArrayText([x, y], "", On)| == |JsonText(x, "\t", On)| + |JsonText(y, "\t", On)| + 8
  {
    var xs := [x, y];
    ArrayPieces(xs, "", On);
    LastElem(y);
    assert xs[1..] == [y];
    assert |ElemText(x, false, "\t", On)| == |JsonText(x, "\t", On)| + 3;
  }
}
