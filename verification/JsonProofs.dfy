// What tojson prints, the reader reads back: in every layout, and only for the values whose keys allow it.
module JsonProofs {
  import opened Text
  import opened Json
  import opened JsonReader

  // ----- The lexer on concatenated texts -----

  // A word ending one text must not run on into the next.
  predicate Apart(a: string, b: string) {
    a == "" || b == "" || !IsWordChar(a[|a| - 1]) || !IsWordChar(b[0])
  }

  function Join(a: Option<seq<Token>>, b: Option<seq<Token>>): Option<seq<Token>> {
    match (a, b)
    case (Some(x), Some(y)) => Some(x + y)
    case _ => None
  }

  lemma ConsJoin(t: Token, a: Option<seq<Token>>, b: Option<seq<Token>>)
    ensures Join(Cons(t, a), b) == Cons(t, Join(a, b))
    ensures Join(Some([]), b) == b
  {
    if a.Some? && b.Some? {
      assert [t] + a.value + b.value == [t] + (a.value + b.value);
    }
    if b.Some? {
      assert [] + b.value == b.value;
    }
  }

  lemma WordLengthIs(s: string, n: nat)
    requires n <= |s| && (forall i :: 0 <= i < n ==> IsWordChar(s[i])) && (n < |s| ==> !IsWordChar(s[n]))
    ensures WordLength(s) == n
  {
  }

  lemma WordLengthConcat(a: string, b: string)
    requires a != "" && IsWordChar(a[0]) && Apart(a, b)
    ensures WordLength(a + b) == WordLength(a)
  {
    WordLengthIs(a + b, WordLength(a));
  }

  lemma {:induction false} LexStringConcat(a: string, b: string)
    requires LexString(a).Some?
    ensures LexString(a + b) == Some((LexString(a).value.0, LexString(a).value.1 + b))
    decreases |a|
  {
    if a[0] == '"' {
      assert (a + b)[1..] == a[1..] + b;
    } else {
      var (c, n) := ReadChar(a).value;
      assert |a| >= 6 ==> (a + b)[2..6] == a[2..6];
      assert ReadChar(a + b) == Some((c, n));
      LexStringConcat(a[n..], b);
      assert (a + b)[n..] == a[n..] + b;
    }
  }

  lemma {:induction false} LexConcat(a: string, b: string)
    requires Lex(a).Some? && Apart(a, b)
    ensures Lex(a + b) == Join(Lex(a), Lex(b))
    decreases |a|
  {
    if a == "" {
      assert a + b == b;
      ConsJoin(Punct(','), None, Lex(b));
    } else {
      assert (a + b)[0] == a[0] && (a + b)[1..] == a[1..] + b;
      if IsWs(a[0]) {
        LexConcat(a[1..], b);
      } else if IsPunct(a[0]) {
        LexConcat(a[1..], b);
        ConsJoin(Punct(a[0]), Lex(a[1..]), Lex(b));
      } else if a[0] == '"' {
        var (str, rest) := LexString(a[1..]).value;
        LexStringConcat(a[1..], b);
        LexStringSuffix(a[1..]);
        LexConcat(rest, b);
        ConsJoin(Quoted(str), Lex(rest), Lex(b));
      } else {
        var n := WordLength(a);
        LexConcat(a[n..], b);
        LexConcatWord(a, b);
      }
    }
  }

  lemma SplitAt(a: string, b: string, n: nat)
    requires n <= |a|
    ensures (a + b)[..n] == a[..n] && (a + b)[n..] == a[n..] + b
  {
  }

  lemma LexWordStep(s: string, n: nat)
    requires n == WordLength(s) > 0
    ensures Lex(s) == Cons(Word(s[..n]), Lex(s[n..]))
  {
  }

  lemma LexConcatWord(a: string, b: string)
    requires a != "" && IsWordChar(a[0]) && Apart(a, b)
    requires Lex(a[WordLength(a)..] + b) == Join(Lex(a[WordLength(a)..]), Lex(b))
    ensures Lex(a + b) == Join(Lex(a), Lex(b))
  {
    var n := WordLength(a);
    WordLengthConcat(a, b);
    hide WordLength, Join, Lex, Cons, Apart, IsWordChar;
    LexWordStep(a, n);
    LexWordStep(a + b, n);
    SplitAt(a, b, n);
    ConsJoin(Word(a[..n]), Lex(a[n..]), Lex(b));
  }

  lemma {:induction false} LexStringSuffix(s: string)
    requires LexString(s).Some?
    ensures var rest := LexString(s).value.1; rest == s[|s| - |rest|..]
    decreases |s|
  {
    if s[0] != '"' {
      LexStringSuffix(s[ReadChar(s).value.1..]);
    }
  }

  // Texts with no word at either end may be put next to anything.
  predicate Closed(s: string) {
    s == "" || (!IsWordChar(s[0]) && !IsWordChar(s[|s| - 1]))
  }

  ghost predicate Lexes(s: string, ts: seq<Token>) {
    Lex(s) == Some(ts)
  }

  lemma Append(a: string, b: string, ts: seq<Token>, us: seq<Token>)
    requires Lexes(a, ts) && Lexes(b, us) && (Closed(a) || Closed(b))
    ensures Lexes(a + b, ts + us)
    ensures Closed(a) && Closed(b) ==> Closed(a + b)
  {
    LexConcat(a, b);
  }

  lemma LexPunct(c: char)
    requires IsPunct(c)
    ensures Lexes([c], [Punct(c)]) && Closed([c])
  {
    assert [c][1..] == "";
    assert Lex("") == Some([]);
    assert [Punct(c)] + [] == [Punct(c)];
  }

  lemma LexWord(w: string)
    requires w != "" && forall i :: 0 <= i < |w| ==> IsWordChar(w[i])
    ensures Lexes(w, [Word(w)])
  {
    assert WordLength(w) == |w|;
    assert w[..|w|] == w && w[|w|..] == "";
    assert Lex("") == Some([]);
    assert [Word(w)] + [] == [Word(w)];
    assert IsWordChar(w[0]);
  }

  predicate Blank(s: string) {
    forall i :: 0 <= i < |s| ==> IsWs(s[i])
  }

  lemma {:induction false} LexBlank(s: string)
    requires Blank(s)
    ensures Lexes(s, []) && Closed(s)
  {
    if s != "" {
      assert IsWs(s[0]) && IsWs(s[|s| - 1]);
      LexBlank(s[1..]);
    }
  }

  // ----- Collapsing line breaks and tabs -----

  lemma {:induction false} CollapseTake(s: string, n: nat)
    requires n <= |s| && forall i :: 0 <= i < n ==> !IsBreak(s[i])
    ensures Collapse(s) == s[..n] + Collapse(s[n..])
  {
    if n > 0 {
      CollapseTake(s[1..], n - 1);
      assert s[1..][n - 1..] == s[n..];
      assert s[..n] == [s[0]] + s[1..][..n - 1];
    }
  }

  lemma CollapseFirst(s: string)
    ensures s == "" <==> Collapse(s) == ""
    ensures s != "" ==> Collapse(s)[0] == if IsBreak(s[0]) then ' ' else s[0]
  {
  }

  lemma CollapseWord(s: string)
    ensures var n := WordLength(s);
      WordLength(Collapse(s)) == n && Collapse(s)[..n] == s[..n] && Collapse(s)[n..] == Collapse(s[n..])
  {
    var n := WordLength(s);
    CollapseTake(s, n);
    CollapseFirst(s[n..]);
    var t := Collapse(s);
    assert forall i :: 0 <= i < n ==> t[i] == s[i];
    WordLengthIs(t, n);
  }

  lemma ReadCharUnbroken(s: string)
    requires ReadChar(s).Some?
    ensures forall i :: 0 <= i < ReadChar(s).value.1 ==> !IsBreak(s[i])
  {
    if s[0] == '\\' && SimpleEscape(s[1]).None? {
      var h := s[2..6];
      assert HexValue(h[0]).Some? && HexValue(h[1]).Some? && HexValue(h[2]).Some? && HexValue(h[3]).Some?;
      assert s[2] == h[0] && s[3] == h[1] && s[4] == h[2] && s[5] == h[3];
    }
  }

  // A printed string holds no raw tab, CR or LF, so collapsing passes over it.
  lemma {:induction false} CollapseString(s: string)
    requires LexString(s).Some?
    ensures LexString(Collapse(s)) == Some((LexString(s).value.0, Collapse(LexString(s).value.1)))
    decreases |s|
  {
    if s[0] != '"' {
      var (c, n) := ReadChar(s).value;
      ReadCharUnbroken(s);
      CollapseTake(s, n);
      CollapseString(s[n..]);
      var t := Collapse(s);
      assert t[..n] == s[..n] && t[n..] == Collapse(s[n..]);
      assert n == 6 ==> t[2..6] == t[..n][2..6] == s[2..6];
      assert t[0] == s[0] && (n > 1 ==> t[1] == t[..n][1] == s[1]);
      assert ReadChar(t) == Some((c, n));
    }
  }

  // Hence collapsing never changes what a lexable text means.
  lemma {:induction false} LexCollapse(s: string)
    requires Lex(s).Some?
    ensures Lex(Collapse(s)) == Lex(s)
    decreases |s|
  {
    if s == "" {
    } else if IsBreak(s[0]) {
      LexCollapse(s[1..]);
      assert !(|s| > 1 && IsBreak(s[1])) ==> Collapse(s)[1..] == Collapse(s[1..]);
    } else if IsWs(s[0]) || IsPunct(s[0]) {
      assert Collapse(s)[1..] == Collapse(s[1..]);
      LexCollapse(s[1..]);
    } else if s[0] == '"' {
      assert Collapse(s)[1..] == Collapse(s[1..]);
      CollapseString(s[1..]);
      LexCollapse(LexString(s[1..]).value.1);
    } else {
      CollapseWord(s);
      LexCollapse(s[WordLength(s)..]);
    }
  }

  // ----- Strings -----

  lemma ReadEscaped(c: char, rest: string)
    ensures ReadChar(EscapeChar(c) + rest) == Some((c, |EscapeChar(c)|))
  {
    var e := EscapeChar(c);
    var s := e + rest;
    assert s[..|e|] == e;
    if |e| == 6 {
      assert s[2..6] == e[2..6];
      HexRoundTrip(c as int);
    }
  }

  lemma HexRoundTrip(code: int)
    requires 0 <= code < 0x20
    ensures HexValue(HexDigit(code / 16)) == Some(code / 16) && HexValue(HexDigit(code % 16)) == Some(code % 16)
  {
  }

  lemma {:induction false} EscapeSplit(a: string, b: string)
    ensures Escape(a + b) == Escape(a) + Escape(b)
  {
    hide EscapeChar;
    if b == "" {
      assert a + b == a;
    } else {
      assert (a + b)[..|a + b| - 1] == a + b[..|b| - 1];
      EscapeSplit(a, b[..|b| - 1]);
    }
  }

  lemma RegroupTail(a: string, b: string, c: string, d: string)
    ensures a + b + c + d == a + (b + c + d)
  {
  }

  lemma DropHead(a: string, b: string)
    ensures (a + b)[|a|..] == b
  {
  }

  lemma LexStringStep(s: string, c: char, n: nat, str: string, rest: string)
    requires ReadChar(s) == Some((c, n)) && LexString(s[n..]) == Some((str, rest))
    ensures LexString(s) == Some(([c] + str, rest))
  {
  }

  lemma {:induction false} LexEscaped(s: string, rest: string)
    ensures LexString(Escape(s) + "\"" + rest) == Some((s, rest))
  {
    var t := Escape(s) + "\"" + rest;
    if s == "" {
      assert t[0] == '"' && t[1..] == rest;
    } else {
      hide Escape, EscapeChar, ReadChar, LexString;
      var e := EscapeChar(s[0]);
      var tail := Escape(s[1..]) + "\"" + rest;
      EscapeHead(s);
      RegroupTail(e, Escape(s[1..]), "\"", rest);
      ReadEscaped(s[0], tail);
      DropHead(e, tail);
      LexEscaped(s[1..], rest);
      LexStringStep(t, s[0], |e|, s[1..], rest);
      assert [s[0]] + s[1..] == s;
    }
  }

  lemma EscapeHead(s: string)
    requires s != ""
    ensures Escape(s) == EscapeChar(s[0]) + Escape(s[1..])
  {
    EscapeSplit([s[0]], s[1..]);
    assert s == [s[0]] + s[1..];
    EscapeOne(s[0]);
  }

  lemma EscapeOne(c: char)
    ensures Escape([c]) == EscapeChar(c)
  {
    assert [c][..0] == "" && Escape("") == "";
    assert "" + EscapeChar(c) == EscapeChar(c);
  }

  lemma LexQuoted(s: string, text: string)
    requires text != "" && text[0] == '"' && LexString(text[1..]) == Some((s, ""))
    ensures Lexes(text, [Quoted(s)])
  {
    assert Lex("") == Some([]);
    assert [Quoted(s)] + [] == [Quoted(s)];
  }

  lemma LexStringText(s: string)
    ensures Lexes(StringText(s), [Quoted(s)]) && Closed(StringText(s))
  {
    LexEscaped(s, "");
    assert StringText(s)[1..] == Escape(s) + "\"" + "";
    LexQuoted(s, StringText(s));
  }

  // A key is printed raw; it survives exactly when it holds nothing a string would have to escape.
  predicate PlainChar(c: char) {
    c != '"' && c != '\\' && c as int >= 0x20
  }

  predicate PlainKey(k: string) {
    forall i :: 0 <= i < |k| ==> PlainChar(k[i])
  }

  lemma {:induction false} LexPlain(k: string, rest: string)
    requires PlainKey(k)
    ensures LexString(k + "\"" + rest) == Some((k, rest))
  {
    var s := k + "\"" + rest;
    if k == "" {
      assert s[0] == '"' && s[1..] == rest;
    } else {
      assert PlainChar(k[0]) && s[0] == k[0];
      assert s[1..] == k[1..] + "\"" + rest;
      LexPlain(k[1..], rest);
      assert ReadChar(s) == Some((k[0], 1));
      assert [k[0]] + k[1..] == k;
    }
  }

  // ----- Keys the printer can cope with -----

  predicate FieldsPrintable(fields: seq<Field>) {
    && BorrowedInt(fields).None?
    && !HasKey(fields, "toString")
    && forall i :: 0 <= i < |fields| ==> PlainKey(fields[i].key)
  }

  predicate GoodKeys(x: Value) {
    match x
    case Arr(elems) => forall i :: 0 <= i < |elems| ==> GoodKeys(elems[i])
    case Obj(fields) =>
      FieldsPrintable(fields) && forall i :: 0 <= i < |fields| ==> GoodKeys(fields[i].val)
    case _ => true
  }

  lemma LexNumInt(n: int)
    ensures Lexes(NumIntText(n), Tokens(NumInt(n)))
  {
    LexCall("NumberInt", IntText(n));
    assert NumIntText(n) == "NumberInt" + "(" + (IntText(n) + ")");
    assert Tokens(NumInt(n)) == [Word("NumberInt")] + [Punct('(')] + ([Word(IntText(n))] + [Punct(')')]);
  }

  lemma LexCall(name: string, arg: string)
    requires name != "" && forall i :: 0 <= i < |name| ==> IsWordChar(name[i])
    requires arg != "" && forall i :: 0 <= i < |arg| ==> IsWordChar(arg[i])
    ensures Lexes(name + "(" + (arg + ")"), [Word(name)] + [Punct('(')] + ([Word(arg)] + [Punct(')')]))
  {
    LexWord(name);
    LexWord(arg);
    LexPunct('(');
    LexPunct(')');
    Append(name, "(", [Word(name)], [Punct('(')]);
    Append(arg, ")", [Word(arg)], [Punct(')')]);
    LexConcat(name + "(", arg + ")");
  }

  // ----- The printed text lexes to the value's tokens, whatever the layout -----

  // The tokens of the elements and the commas between them.
  function MostElemTokens(elems: seq<Value>): seq<Token> {
    if elems == [] then []
    else Tokens(elems[0]) + (if |elems| == 1 then [] else [Punct(',')]) + MostElemTokens(elems[1..])
  }

  lemma {:induction false} ElemTokensSplit(elems: seq<Value>)
    requires elems != []
    ensures ElemTokens(elems) == MostElemTokens(elems) + [Punct(']')]
  {
    if |elems| > 1 {
      ElemTokensSplit(elems[1..]);
    }
  }

  lemma ArrayTokensSplit(elems: seq<Value>)
    ensures Tokens(Arr(elems)) == [Punct('[')] + MostElemTokens(elems) + [Punct(']')]
  {
    if elems != [] {
      ElemTokensSplit(elems);
    }
  }

  function MostFieldTokens(fields: seq<Field>): seq<Token> {
    if fields == [] then []
    else
      [Quoted(fields[0].key), Punct(':')] + Tokens(fields[0].val)
      + CommaToken(|fields| == 1) + MostFieldTokens(fields[1..])
  }

  lemma {:induction false} FieldTokensSplit(fields: seq<Field>)
    requires fields != []
    ensures FieldTokens(fields) == MostFieldTokens(fields) + [Punct('}')]
  {
    if |fields| > 1 {
      FieldTokensSplit(fields[1..]);
    }
  }

  lemma ObjectTokensSplit(fields: seq<Field>)
    ensures Tokens(Obj(fields)) == [Punct('{')] + MostFieldTokens(fields) + [Punct('}')]
  {
    if fields != [] {
      FieldTokensSplit(fields);
    }
  }

  // Opening and closing of a bracketed text.
  lemma LexBracketed(open: char, e: string, body: string, close: string, shut: char, ts: seq<Token>)
    requires IsPunct(open) && IsPunct(shut) && Blank(e) && Blank(close)
    requires Lexes(body, ts)
    ensures Lexes([open] + e + body + (close + [shut]), [Punct(open)] + ts + [Punct(shut)])
    ensures Closed([open] + e + body + (close + [shut]))
  {
    LexPunct(open);
    LexPunct(shut);
    LexBlank(e);
    LexBlank(close);
    Append([open], e, [Punct(open)], []);
    Append([open] + e, body, [Punct(open)] + [], ts);
    Append(close, [shut], [], [Punct(shut)]);
    Append([open] + e + body, close + [shut], [Punct(open)] + [] + ts, [] + [Punct(shut)]);
    assert [Punct(open)] + [] + ts + ([] + [Punct(shut)]) == [Punct(open)] + ts + [Punct(shut)];
  }

  lemma {:induction false} LexJsonText(x: Value, indent: string, nolint: Nolint)
    requires NumbersOk(x) && GoodKeys(x) && Blank(indent)
    ensures Lexes(JsonText(x, indent, nolint), Tokens(x))
    decreases x, 3
  {
    match x {
      case Str(s) => LexStringText(s);
      case NumInt(n) =>
        LexNumInt(n);
        LexCollapse(NumIntText(n));
      case Arr(elems) =>
        LexArrayText(elems, indent, nolint);
        LexCollapse(ArrayText(elems, indent, nolint));
      case Obj(fields) =>
        LexObjectText(fields, indent, nolint);
        LexCollapse(ObjectText(fields, indent, nolint));
      case _ =>
        LexWord(JsonText(x, indent, nolint));
    }
  }

  lemma {:induction false} LexArrayText(elems: seq<Value>, indent: string, nolint: Nolint)
    requires Blank(indent) && forall i :: 0 <= i < |elems| ==> NumbersOk(elems[i]) && GoodKeys(elems[i])
    ensures Lexes(ArrayText(elems, indent, nolint), Tokens(Arr(elems)))
    decreases elems, 1
  {
    if elems == [] {
      LexBlank("");
      LexBracketed('[', " ", "", "", ']', []);
      assert "[" + " " + "" + ("" + "]") == "[ ]";
      ArrayTokensSplit(elems);
    } else {
      var inner := if nolint == On then "\t" else indent + "\t";
      var e := LineEnding(nolint);
      var es := ElemsText(elems, inner, nolint);
      LexElemsText(elems, inner, nolint);
      LexBracketed('[', e, es, e + Pop(inner), ']', MostElemTokens(elems));
      ArrayPieces(elems, indent, nolint);
      ArrayTokensSplit(elems);
    }
  }

  lemma ArrayPieces(elems: seq<Value>, indent: string, nolint: Nolint)
    requires elems != []
    ensures var inner := if nolint == On then "\t" else indent + "\t";
      var e := LineEnding(nolint);
      ArrayText(elems, indent, nolint) == "[" + e + ElemsText(elems, inner, nolint) + (e + Pop(inner) + "]")
  {
  }

  lemma LexElemText(elem: Value, last: bool, indent: string, nolint: Nolint)
    requires Blank(indent) && NumbersOk(elem) && GoodKeys(elem)
    ensures Lexes(ElemText(elem, last, indent, nolint), Tokens(elem) + if last then [] else [Punct(',')])
    decreases elem, 4
  {
    var v := JsonText(elem, indent, nolint);
    LexJsonText(elem, indent, nolint);
    LexBlank(indent);
    Append(indent, v, [], Tokens(elem));
    assert [] + Tokens(elem) == Tokens(elem);
    LexComma(last, LineEnding(nolint));
    var after := if last then "" else "," + LineEnding(nolint);
    Append(indent + v, after, Tokens(elem), if last then [] else [Punct(',')]);
  }

  lemma LexComma(last: bool, e: string)
    requires Blank(e)
    ensures Lexes(if last then "" else "," + e, if last then [] else [Punct(',')])
    ensures Closed(if last then "" else "," + e)
  {
    LexBlank("");
    LexBlank(e);
    LexPunct(',');
    Append(",", e, [Punct(',')], []);
    assert [Punct(',')] + [] == [Punct(',')];
  }

  lemma {:induction false} LexElemsText(elems: seq<Value>, indent: string, nolint: Nolint)
    requires Blank(indent) && forall i :: 0 <= i < |elems| ==> NumbersOk(elems[i]) && GoodKeys(elems[i])
    ensures Lexes(ElemsText(elems, indent, nolint), MostElemTokens(elems))
    decreases elems, 0
  {
    LexBlank("");
    if elems != [] {
      var head := ElemText(elems[0], |elems| == 1, indent, nolint);
      var tail := ElemsText(elems[1..], indent, nolint);
      LexElemText(elems[0], |elems| == 1, indent, nolint);
      LexElemsText(elems[1..], indent, nolint);
      assert Apart(head, tail) by {
        if |elems| > 1 {
          assert head[|head| - 1] == LineEnding(nolint)[0];
        }
      }
      LexConcat(head, tail);
    }
  }

  lemma LexKey(k: string)
    requires PlainKey(k)
    ensures Lexes("\"" + k + "\" : ", [Quoted(k), Punct(':')]) && Closed("\"" + k + "\" : ")
  {
    var q := "\"" + k + "\"";
    LexPlain(k, "");
    assert q[1..] == k + "\"" + "";
    LexQuoted(k, q);
    LexColon();
    Append(q, " : ", [Quoted(k)], [Punct(':')]);
    assert q + " : " == "\"" + k + "\" : ";
    assert [Quoted(k)] + [Punct(':')] == [Quoted(k), Punct(':')];
  }

  lemma LexColon()
    ensures Lexes(" : ", [Punct(':')]) && Closed(" : ")
  {
    LexPunct(':');
    LexBlank(" ");
    Append(" ", ":", [], [Punct(':')]);
    Append(" " + ":", " ", [] + [Punct(':')], []);
    assert " " + ":" + " " == " : ";
    assert [] + [Punct(':')] + [] == [Punct(':')];
  }

  function CommaToken(last: bool): seq<Token> {
    if last then [] else [Punct(',')]
  }

  // One field, its value printed as v.
  function FieldPiece(key: string, v: string, last: bool, indent: string, e: string): string {
    indent + ("\"" + key + "\" : ") + v + ((if last then "" else ",") + e)
  }

  lemma LexFieldPiece(key: string, v: string, tv: seq<Token>, last: bool, indent: string, e: string)
    requires Blank(indent) && Blank(e) && e != "" && PlainKey(key) && Lexes(v, tv)
    ensures var p := FieldPiece(key, v, last, indent, e);
      Lexes(p, [Quoted(key), Punct(':')] + tv + CommaToken(last)) && p != "" && !IsWordChar(p[|p| - 1])
  {
    var head := "\"" + key + "\" : ";
    var after := (if last then "" else ",") + e;
    var tk := [Quoted(key), Punct(':')];
    LexBlank(indent);
    LexKey(key);
    Append(indent, head, [], tk);
    assert [] + tk == tk;
    Append(indent + head, v, tk, tv);
    LexAfterField(last, e);
    Append(indent + head + v, after, tk + tv, CommaToken(last));
    assert IsWs(e[|e| - 1]);
  }

  lemma FieldPieces(f: Field, last: bool, indent: string, nolint: Nolint)
    ensures FieldText(f, last, indent, nolint)
         == FieldPiece(f.key, JsonText(f.val, indent, nolint), last, indent, LineEnding(nolint))
  {
  }

  lemma LexAfterField(last: bool, e: string)
    requires Blank(e)
    ensures Lexes((if last then "" else ",") + e, CommaToken(last)) && Closed((if last then "" else ",") + e)
  {
    LexComma(last, e);
    if last {
      LexBlank(e);
      assert "" + e == e;
    }
  }

  lemma {:induction false} LexFieldsText(fields: seq<Field>, indent: string, nolint: Nolint)
    requires Blank(indent)
    requires forall i :: 0 <= i < |fields| ==>
      PlainKey(fields[i].key) && NumbersOk(fields[i].val) && GoodKeys(fields[i].val)
    ensures Lexes(FieldsText(fields, indent, nolint), MostFieldTokens(fields))
    decreases fields, 0
  {
    LexBlank("");
    if fields != [] {
      var f, last := fields[0], |fields| == 1;
      var head := FieldText(f, last, indent, nolint);
      LexJsonText(f.val, indent, nolint);
      FieldPieces(f, last, indent, nolint);
      LexFieldPiece(f.key, JsonText(f.val, indent, nolint), Tokens(f.val), last, indent, LineEnding(nolint));
      LexFieldsText(fields[1..], indent, nolint);
      LexConcat(head, FieldsText(fields[1..], indent, nolint));
    }
  }

  lemma {:induction false} LexObjectText(fields: seq<Field>, indent: string, nolint: Nolint)
    requires Blank(indent)
    requires forall i :: 0 <= i < |fields| ==>
      PlainKey(fields[i].key) && NumbersOk(fields[i].val) && GoodKeys(fields[i].val)
    ensures Lexes(ObjectText(fields, indent, nolint), Tokens(Obj(fields)))
    decreases fields, 1
  {
    var e := LineEnding(nolint);
    var inner := indent + TabSpace(nolint);
    var body := if fields == [] then inner + e else FieldsText(fields, inner, nolint);
    LexBlank(inner + e);
    LexFieldsText(fields, inner, nolint);
    LexBracketed('{', e, body, Pop(inner), '}', MostFieldTokens(fields));
    assert ObjectText(fields, indent, nolint) == "{" + e + body + (Pop(inner) + "}");
    ObjectTokensSplit(fields);
  }

  // tojson's text reads back as the value it was printed from, for every blank indent and every layout.
  lemma ReadBack(x: Value, indent: string, nolint: Nolint)
    requires NumbersOk(x) && GoodKeys(x) && Blank(indent)
    ensures Read(JsonText(x, indent, nolint)) == Some(x)
  {
    LexJsonText(x, indent, nolint);
    ReadIffLex(JsonText(x, indent, nolint), x);
  }
}
