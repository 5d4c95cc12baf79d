// The other half: a value with a key the printer cannot cope with is never read back as itself.
module JsonConverse {
  import opened Text
  import opened Json
  import opened JsonReader
  import opened JsonProofs

  function Collapsed(b: bool, s: string): string {
    if b then Collapse(s) else s
  }

  // Whatever follows, the text does not read as these tokens.
  ghost predicate Misreads(s: string, ts: seq<Token>) {
    forall rest: string :: Lex(s + rest).Some? ==> !(ts <= Lex(s + rest).value)
  }

  lemma PrefixCancel(p: seq<Token>, q: seq<Token>, l: seq<Token>)
    ensures p + q <= p + l <==> q <= l
  {
    if |q| <= |l| {
      assert (p + l)[..|p| + |q|] == p + l[..|q|];
      assert (p + q)[|p|..] == q && (p + l[..|q|])[|p|..] == l[..|q|];
    }
  }

  lemma MisreadsAfter(p: string, tp: seq<Token>, q: string, tq: seq<Token>)
    requires Lexes(p, tp) && (p == "" || !IsWordChar(p[|p| - 1])) && Misreads(q, tq)
    ensures Misreads(p + q, tp + tq)
  {
    forall rest: string | Lex(p + q + rest).Some?
      ensures !(tp + tq <= Lex(p + q + rest).value)
    {
      assert p + q + rest == p + (q + rest);
      LexConcat(p, q + rest);
      PrefixCancel(tp, tq, Lex(q + rest).value);
    }
  }

  lemma MisreadsBefore(p: string, tp: seq<Token>, q: string, tq: seq<Token>)
    requires Misreads(p, tp)
    ensures Misreads(p + q, tp + tq)
  {
    forall rest: string | Lex(p + q + rest).Some?
      ensures !(tp + tq <= Lex(p + q + rest).value)
    {
      assert p + q + rest == p + (q + rest);
      assert tp <= tp + tq;
    }
  }

  // ----- Collapsing a concatenation -----

  lemma {:induction false} CollapseSplit(p: string, q: string)
    requires p == "" || q == "" || !IsBreak(p[|p| - 1]) || !IsBreak(q[0])
    ensures Collapse(p + q) == Collapse(p) + Collapse(q)
  {
    if p == "" {
      assert p + q == q;
    } else {
      assert (p + q)[0] == p[0] && (p + q)[1..] == p[1..] + q;
      CollapseSplit(p[1..], q);
    }
  }

  predicate Solid(s: string) {
    s != "" && !IsBreak(s[0]) && !IsBreak(s[|s| - 1])
  }

  lemma CollapseAround(b: bool, a: string, v: string, z: string)
    requires Solid(v)
    ensures Collapsed(b, a + v + z) == Collapsed(b, a) + Collapsed(b, v) + Collapsed(b, z)
  {
    CollapseSplit(a + v, z);
    CollapseSplit(a, v);
  }

  lemma {:induction false} CollapseTwice(s: string)
    ensures Collapse(Collapse(s)) == Collapse(s)
  {
    if s != "" {
      if !IsBreak(s[0]) || !(|s| > 1 && IsBreak(s[1])) {
        CollapseTwice(s[1..]);
        assert Collapse(s)[1..] == Collapse(s[1..]);
      } else {
        CollapseTwice(s[1..]);
      }
    }
  }

  lemma {:induction false} CollapseSolid(s: string)
    requires Solid(s)
    ensures Solid(Collapse(s))
  {
    CollapseSplit(s[..|s| - 1], s[|s| - 1..]);
    assert s == s[..|s| - 1] + s[|s| - 1..];
    CollapseTake(s[|s| - 1..], 1);
    CollapseFirst(s);
  }

  lemma BlankCollapse(b: bool, s: string)
    requires Blank(s)
    ensures Blank(Collapsed(b, s)) && Lexes(Collapsed(b, s), []) && Closed(Collapsed(b, s))
  {
    CollapseBlank(s);
    LexBlank(Collapsed(b, s));
  }

  lemma {:induction false} CollapseBlank(s: string)
    requires Blank(s)
    ensures Blank(Collapse(s))
  {
    if s != "" {
      assert IsWs(s[0]);
      CollapseBlank(s[1..]);
    }
  }

  lemma SolidStruct(x: Value, indent: string, nolint: Nolint)
    requires x.NumInt? || x.Arr? || x.Obj?
    ensures Solid(StructText(x, indent, nolint))
  {
    match x {
      case NumInt(n) =>
        SolidCall(n);
      case Arr(elems) =>
        if elems != [] {
          hide ArrayText, ElemsText;
          ArrayPieces(elems, indent, nolint);
        }
      case Obj(fields) =>
        if BorrowedInt(fields).Some? {
          SolidCall(BorrowedInt(fields).value);
        }
        hide BorrowedInt, FieldsText;
    }
  }

  lemma SolidCall(n: int)
    ensures Solid(NumIntText(n))
  {
    assert NumIntText(n)[0] == 'N' && NumIntText(n)[|NumIntText(n)| - 1] == ')';
  }

  lemma SolidText(x: Value, indent: string, nolint: Nolint)
    requires NumbersOk(x)
    ensures Solid(JsonText(x, indent, nolint))
  {
    if x.NumInt? || x.Arr? || x.Obj? {
      SolidStruct(x, indent, nolint);
      CollapseSolid(StructText(x, indent, nolint));
    } else if x.Num? {
      assert IsWordChar(x.text[0]) && IsWordChar(x.text[|x.text| - 1]);
    }
  }

  // ----- Keys -----

  ghost predicate ReadsAs(s: string, k: string) {
    LexString(s).Some? && LexString(s).value.0 == k
  }

  lemma ReadsAsStep(s: string, k: string)
    requires ReadChar(s).Some?
    ensures ReadsAs(s, k) <==>
      k != "" && k[0] == ReadChar(s).value.0 && ReadsAs(s[ReadChar(s).value.1..], k[1..])
  {
    var (c, n) := ReadChar(s).value;
    assert s[0] != '"';
    if LexString(s[n..]).Some? {
      var t := LexString(s[n..]).value.0;
      assert ([c] + t)[1..] == t;
      assert k != "" ==> k == [k[0]] + k[1..];
    }
  }

  predicate NoQuote(s: string, n: int) {
    forall i :: 0 <= i < n && i < |s| ==> s[i] != '"'
  }

  // An escape takes in the quote at q only as `\"`, which stands for that quote.
  lemma EscapedQuote(t: string, q: nat)
    requires 0 < q < |t| && t[q] == '"' && NoQuote(t, q)
    requires ReadChar(t).Some? && ReadChar(t).value.1 > q
    ensures ReadChar(t).value.0 == '"'
  {
    if ReadChar(t).value.1 == 6 {
      HexNoQuote(t);
    }
  }

  lemma HexNoQuote(t: string)
    requires ReadChar(t).Some? && ReadChar(t).value.1 == 6
    ensures forall i :: 0 <= i < 6 ==> t[i] != '"'
  {
    var h := t[2..6];
    assert HexChar(h).Some?;
    assert t[2] == h[0] && t[3] == h[1] && t[4] == h[2] && t[5] == h[3];
  }

  // Once the reader has met a backslash it lags behind the raw key and can never catch up: before the
  // first raw quote, at q, there is too little text left for what is still to be read.
  lemma {:induction false} LaggingKey(t: string, q: nat, u: string)
    requires q < |t| && t[q] == '"' && NoQuote(t, q)
    requires q < |u| && NoQuote(u, q + 1)
    ensures !ReadsAs(t, u)
    decreases q
  {
    if q > 0 && ReadChar(t).Some? {
      ReadsAsStep(t, u);
      var n := ReadChar(t).value.1;
      if n <= q {
        assert forall i :: 0 <= i < q - n ==> t[n..][i] == t[n + i];
        LaggingKey(t[n..], q - n, u[1..]);
      } else {
        EscapedQuote(t, q);
      }
    }
  }

  function FirstQuote(k: string): (q: nat)
    ensures q <= |k| && NoQuote(k, q) && (q < |k| ==> k[q] == '"')
  {
    if k == "" || k[0] == '"' then 0 else 1 + FirstQuote(k[1..])
  }

  lemma {:induction false} CollapseNoQuote(b: bool, s: string)
    requires NoQuote(s, |s|)
    ensures NoQuote(Collapsed(b, s), |Collapsed(b, s)|) && |Collapsed(b, s)| <= |s|
  {
    if s != "" {
      assert s[0] != '"';
      assert forall i :: 0 <= i < |s[1..]| ==> s[1..][i] == s[i + 1];
      CollapseNoQuote(b, s[1..]);
      if b && (!IsBreak(s[0]) || !(|s| > 1 && IsBreak(s[1]))) {
        assert Collapse(s)[1..] == Collapse(s[1..]);
        assert Collapse(s)[0] != '"';
        assert forall i :: 1 <= i < |Collapse(s)| ==> Collapse(s)[i] == Collapse(s[1..])[i - 1];
      }
    }
  }

  lemma QuoteAt(c: string, tail: string)
    requires NoQuote(c, |c|) && tail != "" && tail[0] == '"'
    ensures (c + tail)[|c|] == '"' && NoQuote(c + tail, |c|)
  {
  }

  // The raw key's first quote, or the printer's closing one if it has none.
  lemma FirstRawQuote(b: bool, k: string, rest: string) returns (q: nat)
    ensures var t := Collapsed(b, k) + "\"" + rest;
      q < |t| && t[q] == '"' && NoQuote(t, q) && q <= |k| && NoQuote(k, q)
  {
    var m := FirstQuote(k);
    var a, z := k[..m], k[m..];
    assert k == a + z;
    assert NoQuote(a, |a|);
    hide Collapse, FirstQuote;
    CollapseQuotes(b, a, z);
    CollapseNoQuote(b, a);
    q := |Collapsed(b, a)|;
    hide Collapsed;
    var tail := Collapsed(b, z) + ("\"" + rest);
    assert tail[0] == '"';
    QuoteAt(Collapsed(b, a), tail);
    Regroup(Collapsed(b, a), Collapsed(b, z), "\"" + rest);
    assert Collapsed(b, k) + "\"" + rest == Collapsed(b, a) + tail by {
      Regroup(Collapsed(b, k), "\"", rest);
    }
  }

  lemma CollapseQuotes(b: bool, a: string, z: string)
    requires z == "" || z[0] == '"'
    ensures Collapsed(b, a + z) == Collapsed(b, a) + Collapsed(b, z)
    ensures Collapsed(b, z) == "" || Collapsed(b, z)[0] == '"'
  {
    CollapseSplit(a, z);
    CollapseFirst(z);
  }

  lemma SlashKey(b: bool, k: string, rest: string)
    requires k != "" && k[0] == '\\'
    ensures !ReadsAs(Collapsed(b, k) + "\"" + rest, k)
  {
    var t := Collapsed(b, k) + "\"" + rest;
    var q := FirstRawQuote(b, k, rest);
    CollapseFirst(k);
    assert t[0] == Collapsed(b, k)[0] == '\\';
    if ReadChar(t).Some? {
      var n := ReadChar(t).value.1;
      ReadsAsStep(t, k);
      if n <= q {
        assert forall i :: 0 <= i < q - n ==> t[n..][i] == t[n + i];
        assert forall i :: 0 <= i < q - 1 ==> k[1..][i] == k[1 + i];
        LaggingKey(t[n..], q - n, k[1..]);
      } else {
        EscapedQuote(t, q);
      }
    }
  }

  lemma {:induction false} BadKey(b: bool, k: string, rest: string)
    requires !PlainKey(k)
    ensures !ReadsAs(Collapsed(b, k) + "\"" + rest, k)
  {
    var s := Collapsed(b, k) + "\"" + rest;
    CollapseFirst(k);
    if PlainChar(k[0]) {
      assert !PlainKey(k[1..]) by {
        var i :| 0 <= i < |k| && !PlainChar(k[i]);
        assert !PlainChar(k[1..][i - 1]);
      }
      BadKey(b, k[1..], rest);
      BadRest(b, k, rest);
    } else if k[0] == '\\' {
      SlashKey(b, k, rest);
    } else {
      assert s[0] == Collapsed(b, k)[0];
    }
  }

  lemma BadRest(b: bool, k: string, rest: string)
    requires k != "" && PlainChar(k[0]) && !ReadsAs(Collapsed(b, k[1..]) + "\"" + rest, k[1..])
    ensures !ReadsAs(Collapsed(b, k) + "\"" + rest, k)
  {
    hide Collapsed, ReadsAs, LexString;
    PlainFirst(b, k);
    var s, t := Collapsed(b, k) + "\"" + rest, Collapsed(b, k[1..]) + "\"" + rest;
    assert s == [k[0]] + t && s[1..] == t;
    assert ReadChar(s) == Some((k[0], 1));
    ReadsAsStep(s, k);
  }

  lemma PlainFirst(b: bool, k: string)
    requires k != "" && PlainChar(k[0])
    ensures Collapsed(b, k) == [k[0]] + Collapsed(b, k[1..])
  {
    CollapseTake(k, 1);
    assert k == [k[0]] + k[1..];
  }

  lemma DifferFirst(a: seq<Token>, b: seq<Token>)
    requires a != [] && b != [] && a[0] != b[0]
    ensures !(a <= b)
  {
  }

  lemma KeyMisreads(b: bool, k: string, z: string, ts: seq<Token>)
    requires !PlainKey(k)
    ensures Misreads("\"" + Collapsed(b, k) + "\"" + z, [Quoted(k)] + ts)
  {
    var s := "\"" + Collapsed(b, k) + "\"" + z;
    forall rest: string | Lex(s + rest).Some?
      ensures !([Quoted(k)] + ts <= Lex(s + rest).value)
    {
      var body := Collapsed(b, k) + "\"" + (z + rest);
      BadKey(b, k, z + rest);
      assert s + rest == "\"" + body;
      NotQuoted(body, k, ts);
    }
  }

  lemma NotQuoted(body: string, k: string, ts: seq<Token>)
    requires !ReadsAs(body, k) && Lex("\"" + body).Some?
    ensures !([Quoted(k)] + ts <= Lex("\"" + body).value)
  {
    assert ("\"" + body)[1..] == body;
    var (str, tail) := LexString(body).value;
    assert Lex("\"" + body) == Cons(Quoted(str), Lex(tail));
    DifferFirst([Quoted(k)] + ts, Lex("\"" + body).value);
  }

  // ----- Values -----

  lemma FirstWord(s: string)
    requires s != "" && s[0] != '{' && Lex(s).Some? && !IsWs(s[0])
    ensures Lex(s).value != [] && Lex(s).value[0] != Punct('{')
  {
  }

  lemma NotAnObject(x: Value, b: bool, indent: string, nolint: Nolint)
    requires x.Obj? && (BorrowedInt(x.fields).Some? || HasKey(x.fields, "toString"))
    ensures Misreads(Collapsed(b, StructText(x, indent, nolint)), Tokens(x))
  {
    var s := StructText(x, indent, nolint);
    CollapseFirst(s);
    assert s[0] == 'N' || s[0] == '[';
    forall rest: string | Lex(Collapsed(b, s) + rest).Some?
      ensures !(Tokens(x) <= Lex(Collapsed(b, s) + rest).value)
    {
      assert (Collapsed(b, s) + rest)[0] == s[0];
      FirstWord(Collapsed(b, s) + rest);
      DifferFirst(Tokens(x), Lex(Collapsed(b, s) + rest).value);
    }
  }

  lemma {:induction false} BadJsonText(x: Value, b: bool, indent: string, nolint: Nolint)
    requires NumbersOk(x) && !GoodKeys(x) && Blank(indent)
    ensures Misreads(Collapsed(b, JsonText(x, indent, nolint)), Tokens(x))
    decreases x, 3
  {
    var s := StructText(x, indent, nolint);
    CollapseTwice(s);
    assert JsonText(x, indent, nolint) == s || JsonText(x, indent, nolint) == Collapse(s);
    BadStructText(x, b, indent, nolint);
    BadStructText(x, true, indent, nolint);
  }

  lemma {:induction false} BadStructText(x: Value, b: bool, indent: string, nolint: Nolint)
    requires NumbersOk(x) && !GoodKeys(x) && Blank(indent)
    ensures Misreads(Collapsed(b, StructText(x, indent, nolint)), Tokens(x))
    decreases x, 2
  {
    if x.Arr? {
      BadArray(x.elems, b, indent, nolint);
    } else if BorrowedInt(x.fields).Some? || HasKey(x.fields, "toString") {
      NotAnObject(x, b, indent, nolint);
    } else {
      assert exists i :: 0 <= i < |x.fields| && BadField(x.fields[i]);
      BadObject(x.fields, b, indent, nolint);
    }
  }

  lemma {:induction false} BadArray(elems: seq<Value>, b: bool, indent: string, nolint: Nolint)
    requires Blank(indent) && forall i :: 0 <= i < |elems| ==> NumbersOk(elems[i])
    requires exists i :: 0 <= i < |elems| && !GoodKeys(elems[i])
    ensures Misreads(Collapsed(b, ArrayText(elems, indent, nolint)), Tokens(Arr(elems)))
    decreases elems, 1
  {
    var e := LineEnding(nolint);
    var inner := if nolint == On then "\t" else indent + "\t";
    var z := e + Pop(inner) + "]";
    BadElems(elems, b, e, inner, nolint, z);
    Bracketed('[', b, e + ElemsText(elems, inner, nolint) + z, MostElemTokens(elems), [Punct(']')]);
    ArrayPieces(elems, indent, nolint);
    RegroupBracketed("[", e, ElemsText(elems, inner, nolint), z);
    ArrayTokensSplit(elems);
  }

  lemma {:induction false} BadObject(fields: seq<Field>, b: bool, indent: string, nolint: Nolint)
    requires Blank(indent) && forall i :: 0 <= i < |fields| ==> NumbersOk(fields[i].val)
    requires exists i :: 0 <= i < |fields| && BadField(fields[i])
    ensures Misreads(Collapsed(b, ObjectText(fields, indent, nolint)), Tokens(Obj(fields)))
    decreases fields, 1
  {
    var e := LineEnding(nolint);
    var inner := indent + TabSpace(nolint);
    var z := Pop(inner) + "}";
    BadFields(fields, b, e, inner, nolint, z);
    Bracketed('{', b, e + FieldsText(fields, inner, nolint) + z, MostFieldTokens(fields), [Punct('}')]);
    RegroupBracketed("{", e, FieldsText(fields, inner, nolint), z);
    assert ObjectText(fields, indent, nolint) == "{" + e + FieldsText(fields, inner, nolint) + z;
    ObjectTokensSplit(fields);
  }

  lemma RegroupBracketed(a: string, b: string, c: string, d: string)
    ensures a + (b + c + d) == a + b + c + d
  {
  }

  lemma Bracketed(open: char, b: bool, body: string, ts: seq<Token>, us: seq<Token>)
    requires IsPunct(open) && Misreads(Collapsed(b, body), ts)
    ensures Misreads(Collapsed(b, [open] + body), [Punct(open)] + ts + us)
  {
    LexPunct(open);
    MisreadsBefore(Collapsed(b, body), ts, "", us);
    assert Collapsed(b, body) + "" == Collapsed(b, body);
    MisreadsAfter([open], [Punct(open)], Collapsed(b, body), ts + us);
    CollapseTake([open] + body, 1);
    assert [Punct(open)] + (ts + us) == [Punct(open)] + ts + us;
  }

  // A gap, a value, and the rest: misread if the value is, or if the rest is.
  lemma BadHere(b: bool, a: string, ta: seq<Token>, v: string, tv: seq<Token>, z: string, tz: seq<Token>)
    requires Lexes(Collapsed(b, a), ta) && Closed(Collapsed(b, a)) && Solid(v) && Misreads(Collapsed(b, v), tv)
    ensures Misreads(Collapsed(b, a + v + z), ta + (tv + tz))
  {
    CollapseAround(b, a, v, z);
    MisreadsBefore(Collapsed(b, v), tv, Collapsed(b, z), tz);
    MisreadsAfter(Collapsed(b, a), ta, Collapsed(b, v) + Collapsed(b, z), tv + tz);
    assert Collapsed(b, a) + Collapsed(b, v) + Collapsed(b, z) == Collapsed(b, a) + (Collapsed(b, v) + Collapsed(b, z));
  }

  lemma BadLater(b: bool, a: string, ta: seq<Token>, v: string, tv: seq<Token>, z: string, tz: seq<Token>)
    requires Lexes(Collapsed(b, a), ta) && Closed(Collapsed(b, a)) && Solid(v) && Lexes(v, tv)
    requires Misreads(Collapsed(b, z), tz)
    ensures Misreads(Collapsed(b, a + v + ("," + z)), ta + (tv + ([Punct(',')] + tz)))
  {
    CollapseAround(b, a, v, "," + z);
    CollapseComma(b, z);
    if b {
      LexCollapse(v);
    }
    LexPunct(',');
    JoinLater(Collapsed(b, a), ta, Collapsed(b, v), tv, Collapsed(b, z), tz);
  }

  lemma JoinLater(a: string, ta: seq<Token>, v: string, tv: seq<Token>, z: string, tz: seq<Token>)
    requires Lexes(a, ta) && Closed(a) && Lexes(v, tv) && Misreads(z, tz)
    ensures Misreads(a + v + ("," + z), ta + (tv + ([Punct(',')] + tz)))
  {
    LexPunct(',');
    hide Lex, Misreads;
    MisreadsAfter(",", [Punct(',')], z, tz);
    Append(a, v, ta, tv);
    MisreadsAcross(a + v, ta + tv, "," + z, [Punct(',')] + tz);
    assert ta + tv + ([Punct(',')] + tz) == ta + (tv + ([Punct(',')] + tz));
  }

  lemma CollapseComma(b: bool, z: string)
    ensures Collapsed(b, "," + z) == "," + Collapsed(b, z)
  {
    CollapseTake("," + z, 1);
    assert ("," + z)[1..] == z;
  }

  lemma MisreadsAcross(p: string, tp: seq<Token>, q: string, tq: seq<Token>)
    requires Lexes(p, tp) && q != "" && !IsWordChar(q[0]) && Misreads(q, tq)
    ensures Misreads(p + q, tp + tq)
  {
    forall rest: string | Lex(p + q + rest).Some?
      ensures !(tp + tq <= Lex(p + q + rest).value)
    {
      assert p + q + rest == p + (q + rest);
      assert (q + rest)[0] == q[0];
      LexConcat(p, q + rest);
      PrefixCancel(tp, tq, Lex(q + rest).value);
    }
  }

  // An array's or object's text from a gap w on: the gap, the first value, and the rest.
  lemma ElemsShape(w: string, elems: seq<Value>, indent: string, nolint: Nolint, z: string)
    requires elems != []
    ensures w + ElemsText(elems, indent, nolint) + z
         == w + indent + JsonText(elems[0], indent, nolint)
            + ((if |elems| == 1 then "" else "," + LineEnding(nolint)) + ElemsText(elems[1..], indent, nolint) + z)
    ensures MostElemTokens(elems) == [] + (Tokens(elems[0]) + (CommaToken(|elems| == 1) + MostElemTokens(elems[1..])))
  {
    ElemTokensShape(elems);
    hide MostElemTokens, Tokens;
    var after := if |elems| == 1 then "" else "," + LineEnding(nolint);
    var v := JsonText(elems[0], indent, nolint);
    var rest := ElemsText(elems[1..], indent, nolint);
    assert ElemsText(elems, indent, nolint) == indent + v + after + rest;
    hide JsonText, ElemsText;
    RegroupElem(w, indent, v, after, rest, z);
  }

  lemma ElemTokensShape(elems: seq<Value>)
    requires elems != []
    ensures MostElemTokens(elems) == [] + (Tokens(elems[0]) + (CommaToken(|elems| == 1) + MostElemTokens(elems[1..])))
  {
  }

  lemma RegroupElem(w: string, i: string, v: string, a: string, r: string, z: string)
    ensures w + (i + v + a + r) + z == w + i + v + (a + r + z)
  {
  }

  lemma LaterElem(elems: seq<Value>)
    requires elems != [] && GoodKeys(elems[0]) && exists i :: 0 <= i < |elems| && !GoodKeys(elems[i])
    ensures |elems| > 1 && exists i :: 0 <= i < |elems[1..]| && !GoodKeys(elems[1..][i])
  {
    var i :| 0 <= i < |elems| && !GoodKeys(elems[i]);
    assert !GoodKeys(elems[1..][i - 1]);
  }

  lemma {:induction false} BadElems(elems: seq<Value>, b: bool, w: string, indent: string, nolint: Nolint, z: string)
    requires Blank(w) && Blank(indent) && forall i :: 0 <= i < |elems| ==> NumbersOk(elems[i])
    requires exists i :: 0 <= i < |elems| && !GoodKeys(elems[i])
    ensures Misreads(Collapsed(b, w + ElemsText(elems, indent, nolint) + z), MostElemTokens(elems))
    decreases elems, 0
  {
    var e := LineEnding(nolint);
    var v := JsonText(elems[0], indent, nolint);
    var rest := ElemsText(elems[1..], indent, nolint);
    SolidText(elems[0], indent, nolint);
    BlankCollapse(b, w + indent);
    ElemsShape(w, elems, indent, nolint, z);
    if GoodKeys(elems[0]) {
      LaterElem(elems);
      LexJsonText(elems[0], indent, nolint);
      BadElems(elems[1..], b, e, indent, nolint, z);
      BadLater(b, w + indent, [], v, Tokens(elems[0]), e + rest + z, MostElemTokens(elems[1..]));
      RegroupBracketed(",", e, rest, z);
    } else {
      var after := if |elems| == 1 then "" else "," + e;
      BadJsonText(elems[0], b, indent, nolint);
      BadHere(b, w + indent, [], v, Tokens(elems[0]), after + rest + z,
              CommaToken(|elems| == 1) + MostElemTokens(elems[1..]));
    }
  }

  ghost predicate BadField(f: Field) {
    !PlainKey(f.key) || !GoodKeys(f.val)
  }

  lemma FieldsShape(w: string, fields: seq<Field>, indent: string, nolint: Nolint, z: string)
    requires fields != []
    ensures w + FieldsText(fields, indent, nolint) + z
         == w + indent + ("\"" + fields[0].key + "\" : ")
            + JsonText(fields[0].val, indent, nolint)
            + ((if |fields| == 1 then "" else ",") + (LineEnding(nolint) + FieldsText(fields[1..], indent, nolint) + z))
  {
    var comma := if |fields| == 1 then "" else ",";
    var key := "\"" + fields[0].key + "\" : ";
    var v := JsonText(fields[0].val, indent, nolint);
    FieldPieces(fields[0], |fields| == 1, indent, nolint);
    RegroupField(w, indent, key, v, comma, LineEnding(nolint), FieldsText(fields[1..], indent, nolint), z);
  }

  lemma RegroupField(w: string, i: string, k: string, v: string, c: string, e: string, r: string, z: string)
    ensures w + (i + k + v + (c + e) + r) + z == w + i + k + v + (c + (e + r + z))
  {
  }

  lemma LaterField(fields: seq<Field>)
    requires fields != [] && !BadField(fields[0]) && exists i :: 0 <= i < |fields| && BadField(fields[i])
    ensures |fields| > 1 && exists i :: 0 <= i < |fields[1..]| && BadField(fields[1..][i])
  {
    var i :| 0 <= i < |fields| && BadField(fields[i]);
    assert BadField(fields[1..][i - 1]);
  }

  lemma {:induction false} BadFields(fields: seq<Field>, b: bool, w: string, indent: string, nolint: Nolint, z: string)
    requires Blank(w) && Blank(indent) && forall i :: 0 <= i < |fields| ==> NumbersOk(fields[i].val)
    requires exists i :: 0 <= i < |fields| && BadField(fields[i])
    ensures Misreads(Collapsed(b, w + FieldsText(fields, indent, nolint) + z), MostFieldTokens(fields))
    decreases fields, 0
  {
    var f, last := fields[0], |fields| == 1;
    var tail := LineEnding(nolint) + FieldsText(fields[1..], indent, nolint) + z;
    FieldsShape(w, fields, indent, nolint, z);
    SplitFields(fields);
    if !PlainKey(f.key) {
      BadKeyFirst(f, b, w + indent, (if last then "" else ",") + tail, indent, nolint,
                  CommaToken(last) + MostFieldTokens(fields[1..]));
    } else {
      var key := "\"" + f.key + "\" : ";
      var tk := [Quoted(f.key), Punct(':')];
      var v := JsonText(f.val, indent, nolint);
      SolidText(f.val, indent, nolint);
      GoodKeyText(b, w + indent, f.key);
      if GoodKeys(f.val) {
        LaterField(fields);
        LexJsonText(f.val, indent, nolint);
        BadFields(fields[1..], b, LineEnding(nolint), indent, nolint, z);
        BadLater(b, w + indent + key, tk, v, Tokens(f.val), tail, MostFieldTokens(fields[1..]));
      } else {
        BadJsonText(f.val, b, indent, nolint);
        BadHere(b, w + indent + key, tk, v, Tokens(f.val), (if last then "" else ",") + tail,
                CommaToken(last) + MostFieldTokens(fields[1..]));
      }
    }
  }

  lemma BadKeyFirst(f: Field, b: bool, w: string, z: string, indent: string, nolint: Nolint, later: seq<Token>)
    requires Blank(w) && !PlainKey(f.key)
    ensures Misreads(Collapsed(b, w + ("\"" + f.key + "\" : ") + JsonText(f.val, indent, nolint) + z),
                     [Quoted(f.key), Punct(':')] + (Tokens(f.val) + later))
  {
    hide Misreads, JsonText, Tokens, Blank, PlainKey, Collapsed;
    var v := JsonText(f.val, indent, nolint);
    BadKeyText(b, w, f.key, v + z, [Punct(':')] + (Tokens(f.val) + later));
    RegroupKey(w, f.key, v, z);
    assert [Quoted(f.key)] + ([Punct(':')] + (Tokens(f.val) + later))
        == [Quoted(f.key), Punct(':')] + (Tokens(f.val) + later);
  }

  lemma RegroupKey(w: string, k: string, v: string, z: string)
    ensures w + ("\"" + k + "\" : ") + v + z == w + ("\"" + k + "\"") + (" : " + (v + z))
  {
    assert "\"" + k + "\" : " == "\"" + k + "\"" + " : ";
  }

  lemma SplitFields(fields: seq<Field>)
    requires fields != []
    ensures MostFieldTokens(fields)
         == [Quoted(fields[0].key), Punct(':')]
            + (Tokens(fields[0].val) + (CommaToken(|fields| == 1) + MostFieldTokens(fields[1..])))
  {
    var name, value := [Quoted(fields[0].key), Punct(':')], Tokens(fields[0].val);
    RegroupTokens(name, value, CommaToken(|fields| == 1), MostFieldTokens(fields[1..]));
    hide Tokens, CommaToken;
  }

  lemma RegroupTokens(a: seq<Token>, b: seq<Token>, c: seq<Token>, d: seq<Token>)
    ensures a + b + c + d == a + (b + (c + d))
  {
  }

  lemma GoodKeyText(b: bool, w: string, k: string)
    requires Blank(w) && PlainKey(k)
    ensures var key := "\"" + k + "\" : ";
      Lexes(Collapsed(b, w + key), [Quoted(k), Punct(':')]) && Closed(Collapsed(b, w + key))
  {
    var key := "\"" + k + "\" : ";
    BlankCollapse(b, w);
    LexKey(k);
    if b {
      LexCollapse(key);
      CollapseSplit(w, key);
      CollapseSolid(key);
      CollapseFirst(key);
      CollapseSplit("\"" + k + "\" :", " ");
      assert key == "\"" + k + "\" :" + " ";
      CollapseTake(" ", 1);
    }
    Append(Collapsed(b, w), Collapsed(b, key), [], [Quoted(k), Punct(':')]);
    assert [] + [Quoted(k), Punct(':')] == [Quoted(k), Punct(':')];
  }

  lemma BadKeyText(b: bool, w: string, k: string, z: string, ts: seq<Token>)
    requires Blank(w) && !PlainKey(k)
    ensures Misreads(Collapsed(b, w + ("\"" + k + "\"") + (" : " + z)), [Quoted(k)] + ts)
  {
    var q := "\"" + k + "\"";
    var t := Collapsed(b, " : " + z);
    BlankCollapse(b, w);
    CollapseQuoted(b, k);
    CollapseAround(b, w, q, " : " + z);
    KeyMisreads(b, k, t, ts);
    hide Collapse, Lex, Misreads, Blank, PlainKey, Collapsed;
    MisreadsAfter(Collapsed(b, w), [], Collapsed(b, q) + t, [Quoted(k)] + ts);
    Regroup(Collapsed(b, w), Collapsed(b, q), t);
    assert [] + ([Quoted(k)] + ts) == [Quoted(k)] + ts;
  }

  lemma CollapseQuoted(b: bool, k: string)
    ensures Collapsed(b, "\"" + k + "\"") == "\"" + Collapsed(b, k) + "\""
  {
    CollapseSplit("\"" + k, "\"");
    CollapseSplit("\"", k);
    CollapseTake("\"", 1);
  }

  // tojson's text is read back as the value printed exactly when every object in it has keys that
  // need no escaping, none of them `toString`, and no NumberInt under `constructor`.
  lemma ReadBackIff(x: Value, indent: string, nolint: Nolint)
    requires NumbersOk(x) && Blank(indent)
    ensures Read(JsonText(x, indent, nolint)) == Some(x) <==> GoodKeys(x)
  {
    var s := JsonText(x, indent, nolint);
    if GoodKeys(x) {
      ReadBack(x, indent, nolint);
    } else {
      BadJsonText(x, false, indent, nolint);
      ReadIffLex(s, x);
      assert s + "" == s;
    }
  }
}
