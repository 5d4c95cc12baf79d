// The layouts of tojson, given token by token and apart from the printer: where the printer puts line
// breaks, tabs and spaces around the tokens of a value.
module Layout {
  import opened Text
  import opened Json
  import opened JsonReader
  import opened JsonProofs
  import opened JsonConverse
  import opened FlatText

  // Objects that are printed field by field.
  predicate Ordinary(x: Value) {
    match x
    case Arr(elems) => forall i :: 0 <= i < |elems| ==> Ordinary(elems[i])
    case Obj(fields) =>
      forall i :: 0 <= i < |fields| ==>
        && fields[i].key != "toString" && !(fields[i].key == "constructor" && fields[i].val.NumInt?)
        && Ordinary(fields[i].val)
    case _ => true
  }

  // A quoted token before a colon is a key, printed raw; any other is a string.
  function QuotedText(s: string, ts: seq<Token>): string {
    if ts != [] && ts[0] == Punct(':') then "\"" + s + "\"" else StringText(s)
  }

  function Tabs(n: nat): string {
    Repeat('\t', n)
  }

  // ----- Spread out: nolint == false, and arrays whenever nolint == true -----

  // What follows an opening bracket or a comma with d brackets open.
  function After(d: nat, on: bool): string {
    if on then " \t" else "\n" + Tabs(d)
  }

  // What comes before a closing bracket that leaves d open.
  function BeforeClose(d: nat, on: bool): string {
    if on then " " else "\n" + Tabs(d)
  }

  // The tokens with d brackets open. Without nolint: a line break after each opening bracket and comma and
  // before each closing bracket, then as many tabs as brackets are open. With it: a space instead of the
  // break, and one tab except before a closing bracket. Only an empty array stays together.
  function Spread(ts: seq<Token>, d: nat, on: bool): string {
    if ts == [] then ""
    else
      var rest := ts[1..];
      match ts[0]
      case Word(w) => w + Spread(rest, d, on)
      case Quoted(s) => QuotedText(s, rest) + Spread(rest, d, on)
      case Punct(c) =>
        if c == '[' && rest != [] && rest[0] == Punct(']') then "[ ]" + Spread(rest[1..], d, on)
        else if c == '[' || c == '{' then [c] + (After(d + 1, on) + Spread(rest, d + 1, on))
        else if c == ']' || c == '}' then
          var out := if d > 0 then d - 1 else 0;
          BeforeClose(out, on) + ([c] + Spread(rest, out, on))
        else if c == ',' then "," + (After(d, on) + Spread(rest, d, on))
        else if c == ':' then " : " + Spread(rest, d, on)
        else [c] + Spread(rest, d, on)
  }

  predicate NoColon(ts: seq<Token>) {
    ts == [] || ts[0] != Punct(':')
  }

  // The indentation and nolint with which the printer is called there.
  function Gap(d: nat, on: bool): string {
    if on then "\t" else Tabs(d)
  }

  function Mode(on: bool): Nolint {
    if on then On else Off
  }

  lemma Gaps(d: nat, on: bool)
    ensures LineEnding(Mode(on)) + Gap(d, on) == After(d, on)
    ensures Gap(d, on) + TabSpace(Mode(on)) == Gap(d + 1, on) == (if Mode(on) == On then "\t" else Gap(d, on) + "\t")
    ensures LineEnding(Mode(on)) + Pop(Gap(d + 1, on)) == BeforeClose(d, on)
  {
    RepeatSnoc('\t', d + 1);
    assert Tabs(d + 1) == Tabs(d) + "\t";
    assert Tabs(d + 1) == "\t" + Tabs(d);
    assert "\t" + "" == "\t" && " " + "" == " " && " " + "\t" == " \t";
  }

  lemma Plainly(fields: seq<Field>)
    requires Ordinary(Obj(fields))
    ensures BorrowedInt(fields).None? && !HasKey(fields, "toString")
  {
    NothingBorrowed(fields);
  }

  lemma {:induction false} NothingBorrowed(fields: seq<Field>)
    requires forall i :: 0 <= i < |fields| ==> !(fields[i].key == "constructor" && fields[i].val.NumInt?)
    ensures BorrowedInt(fields).None?
  {
    if fields != [] {
      NothingBorrowed(fields[1..]);
    }
  }

  // The printed text is that layout of the value's tokens, whatever follows.
  lemma {:induction false} SpreadText(x: Value, d: nat, on: bool, rest: seq<Token>)
    requires Ordinary(x) && NoColon(rest)
    ensures Spread(Tokens(x) + rest, d, on) == JsonText(x, Gap(d, on), Mode(on)) + Spread(rest, d, on)
    decreases x, 2
  {
    hide Spread, Tokens, JsonText, NoColon;
    match x {
      case Arr(elems) =>
        SpreadArray(elems, d, on, rest);
        NotCollapsed(x, d, on);
      case Obj(fields) =>
        SpreadObject(fields, d, on, rest);
        NotCollapsed(x, d, on);
      case _ => SpreadLeaf(x, d, on, rest);
    }
  }

  lemma NotCollapsed(x: Value, d: nat, on: bool)
    requires x.Arr? || (x.Obj? && Ordinary(x))
    ensures JsonText(x, Gap(d, on), Mode(on))
      == if x.Arr? then ArrayText(x.elems, Gap(d, on), Mode(on)) else ObjectText(x.fields, Gap(d, on), Mode(on))
  {
    if x.Obj? {
      Plainly(x.fields);
    }
    hide ArrayText, ObjectText, HasKey, BorrowedInt;
  }

  lemma SpreadLeaf(x: Value, d: nat, on: bool, rest: seq<Token>)
    requires !x.Arr? && !x.Obj? && NoColon(rest)
    ensures Spread(Tokens(x) + rest, d, on) == JsonText(x, Gap(d, on), Mode(on)) + Spread(rest, d, on)
  {
    var ts := Tokens(x) + rest;
    if x.NumInt? {
      var n := IntText(x.n);
      assert ts[1..] == [Punct('('), Word(n), Punct(')')] + rest;
      assert ts[1..][1..] == [Word(n), Punct(')')] + rest;
      assert ts[1..][1..][1..] == [Punct(')')] + rest;
      assert ts[1..][1..][1..][1..] == rest;
      assert Spread([Punct(')')] + rest, d, on) == ")" + Spread(rest, d, on);
      assert Spread([Word(n), Punct(')')] + rest, d, on) == n + (")" + Spread(rest, d, on));
      assert Spread([Punct('('), Word(n), Punct(')')] + rest, d, on) == "(" + (n + (")" + Spread(rest, d, on)));
      Calls(n, Spread(rest, d, on));
    } else {
      assert ts[1..] == rest;
    }
  }

  lemma Calls(n: string, r: string)
    ensures "NumberInt" + ("(" + (n + (")" + r))) == "NumberInt(" + n + ")" + r
  {
  }

  lemma {:induction false} SpreadArray(elems: seq<Value>, d: nat, on: bool, rest: seq<Token>)
    requires NoColon(rest) && forall i :: 0 <= i < |elems| ==> Ordinary(elems[i])
    ensures Spread(Tokens(Arr(elems)) + rest, d, on) == ArrayText(elems, Gap(d, on), Mode(on)) + Spread(rest, d, on)
    decreases elems, 1
  {
    if elems == [] {
      var ts := Tokens(Arr([])) + rest;
      assert ts[1..][1..] == rest;
    } else {
      SpreadElems(elems, d, on, rest);
      ArrayStart(elems, d, on, rest);
      ArrayJoin(elems, d, on);
      hide Spread, Tokens, ArrayText, ElemsText, ElemTokens;
      var gap, es, r := Gap(d + 1, on), ElemsText(elems, Gap(d + 1, on), Mode(on)), Spread(rest, d, on);
      var e, inner := LineEnding(Mode(on)), Spread(ElemTokens(elems) + rest, d + 1, on);
      Enclose("[", e, gap, inner, es, BeforeClose(d, on), "]", r);
    }
  }

  // The printer's pieces of a bracketed text, and the same from the opening bracket on.
  lemma Enclose(open: string, e: string, gap: string, inner: string,
                body: string, before: string, shut: string, r: string)
    requires gap + inner == body + (before + (shut + r))
    ensures open + ((e + gap) + inner) == (open + e + body + before + shut) + r
  {
    Regroup(e, gap, inner);
    Regroup(open, e, gap + inner);
    Regroup(open + e, body, before + (shut + r));
    Regroup(open + e + body, before, shut + r);
    Regroup(open + e + body + before, shut, r);
  }

  lemma ArrayJoin(elems: seq<Value>, d: nat, on: bool)
    requires elems != []
    ensures LineEnding(Mode(on)) + Gap(d + 1, on) == After(d + 1, on)
    ensures ArrayText(elems, Gap(d, on), Mode(on))
      == "[" + LineEnding(Mode(on)) + ElemsText(elems, Gap(d + 1, on), Mode(on)) + BeforeClose(d, on) + "]"
  {
    Gaps(d, on);
    Gaps(d + 1, on);
    hide ElemsText;
    var inner, e := Gap(d + 1, on), LineEnding(Mode(on));
    Regroup("[" + e + ElemsText(elems, inner, Mode(on)), e, Pop(inner));
  }

  // From the bracket on, the text of the elements and the closing bracket.
  lemma ArrayStart(elems: seq<Value>, d: nat, on: bool, rest: seq<Token>)
    requires elems != []
    ensures Spread(Tokens(Arr(elems)) + rest, d, on)
      == "[" + (After(d + 1, on) + Spread(ElemTokens(elems) + rest, d + 1, on))
  {
    FirstElemToken(elems);
    var ts := Tokens(Arr(elems)) + rest;
    hide ElemTokens;
    assert ts[1..] == ElemTokens(elems) + rest;
    assert ts[1..][0] == ElemTokens(elems)[0];
  }

  lemma {:induction false} SpreadElems(elems: seq<Value>, d: nat, on: bool, rest: seq<Token>)
    requires elems != [] && NoColon(rest) && forall i :: 0 <= i < |elems| ==> Ordinary(elems[i])
    ensures Gap(d + 1, on) + Spread(ElemTokens(elems) + rest, d + 1, on)
      == ElemsText(elems, Gap(d + 1, on), Mode(on)) + (BeforeClose(d, on) + ("]" + Spread(rest, d, on)))
    decreases elems, 0
  {
    var gap, e, text := Gap(d + 1, on), LineEnding(Mode(on)), JsonText(elems[0], Gap(d + 1, on), Mode(on));
    var last := |elems| == 1;
    var close := BeforeClose(d, on) + ("]" + Spread(rest, d, on));
    var tail := (if last then [Punct(']')] else [Punct(',')] + ElemTokens(elems[1..])) + rest;
    assert ElemTokens(elems) + rest == Tokens(elems[0]) + tail;
    SpreadText(elems[0], d + 1, on, tail);
    SpreadTail(elems, d, on, rest, tail);
    ElemsPieces(elems, gap, Mode(on));
    if !last {
      SpreadElems(elems[1..], d, on, rest);
      Gaps(d + 1, on);
    }
    hide Spread, JsonText, ElemsText, ElemTokens, Tokens;
    if last {
      Regroup(gap, text, close);
    } else {
      var es := ElemsText(elems[1..], gap, Mode(on));
      var inner := Spread(ElemTokens(elems[1..]) + rest, d + 1, on);
      Follow(gap, text, ",", e, gap, inner, es, close);
    }
  }

  // A value, a comma, and what follows it.
  lemma Follow(gap: string, text: string, comma: string, e: string,
               gap': string, inner: string, body: string, close: string)
    requires gap' + inner == body + close
    ensures gap + (text + (comma + ((e + gap') + inner))) == (gap + text + (comma + e)) + body + close
  {
    Regroup(e, gap', inner);
    Regroup(comma, e, body + close);
    Regroup(gap, text, (comma + e) + (body + close));
    Regroup(gap + text, comma + e, body + close);
    Regroup(gap + text + (comma + e), body, close);
  }

  lemma ElemsPieces(elems: seq<Value>, gap: string, mode: Nolint)
    requires elems != []
    ensures var text, last := JsonText(elems[0], gap, mode), |elems| == 1;
      ElemsText(elems, gap, mode)
      == if last then gap + text else (gap + text + ("," + LineEnding(mode))) + ElemsText(elems[1..], gap, mode)
  {
    var text := JsonText(elems[0], gap, mode);
    if |elems| == 1 {
      assert elems[1..] == [] && ElemsText(elems[1..], gap, mode) == "";
      assert gap + text + "" + "" == gap + text;
    }
  }

  lemma SpreadTail(elems: seq<Value>, d: nat, on: bool, rest: seq<Token>, tail: seq<Token>)
    requires elems != []
    requires tail == (if |elems| == 1 then [Punct(']')] else [Punct(',')] + ElemTokens(elems[1..])) + rest
    ensures NoColon(tail)
    ensures Spread(tail, d + 1, on) == if |elems| == 1 then BeforeClose(d, on) + ("]" + Spread(rest, d, on))
      else "," + (After(d + 1, on) + Spread(ElemTokens(elems[1..]) + rest, d + 1, on))
  {
    hide ElemTokens;
    if |elems| == 1 {
      assert tail[1..] == rest;
    } else {
      assert tail[1..] == ElemTokens(elems[1..]) + rest;
    }
  }

  lemma {:induction false} SpreadObject(fields: seq<Field>, d: nat, on: bool, rest: seq<Token>)
    requires NoColon(rest) && Ordinary(Obj(fields))
    ensures Spread(Tokens(Obj(fields)) + rest, d, on)
      == ObjectText(fields, Gap(d, on), Mode(on)) + Spread(rest, d, on)
    decreases fields, 1
  {
    ObjectJoins(fields, d, on);
    ObjectStart(fields, d, on, rest);
    if fields != [] {
      SpreadFields(fields, d, on, rest);
    }
    hide Spread, Tokens, ObjectText, FieldsText, FieldTokens, Ordinary;
    var gap, e, r := Gap(d + 1, on), LineEnding(Mode(on)), Spread(rest, d, on);
    var pop := Pop(gap);
    if fields == [] {
      assert gap + (BeforeClose(d, on) + ("}" + r)) == (gap + e) + (pop + ("}" + r)) by {
        Gaps(d, on);
        Regroup(e, pop, "}" + r);
        Regroup(gap, e, pop + ("}" + r));
      }
      Enclose("{", e, gap, BeforeClose(d, on) + ("}" + r), gap + e, pop, "}", r);
    } else {
      var inner := Spread(FieldTokens(fields) + rest, d + 1, on);
      Enclose("{", e, gap, inner, FieldsText(fields, gap, Mode(on)), pop, "}", r);
    }
  }

  lemma ObjectJoins(fields: seq<Field>, d: nat, on: bool)
    ensures LineEnding(Mode(on)) + Gap(d + 1, on) == After(d + 1, on)
    ensures var gap, e := Gap(d + 1, on), LineEnding(Mode(on));
      ObjectText(fields, Gap(d, on), Mode(on))
      == "{" + e + (if fields == [] then gap + e else FieldsText(fields, gap, Mode(on))) + Pop(gap) + "}"
  {
    Gaps(d, on);
    Gaps(d + 1, on);
    hide FieldsText;
  }

  lemma ObjectStart(fields: seq<Field>, d: nat, on: bool, rest: seq<Token>)
    ensures var inner := if fields == [] then BeforeClose(d, on) + ("}" + Spread(rest, d, on))
                         else Spread(FieldTokens(fields) + rest, d + 1, on);
      Spread(Tokens(Obj(fields)) + rest, d, on) == "{" + (After(d + 1, on) + inner)
  {
    var ts := Tokens(Obj(fields)) + rest;
    if fields == [] {
      assert ts[1..] == [Punct('}')] + rest && ts[1..][1..] == rest;
    } else {
      hide FieldTokens;
      assert ts[1..] == FieldTokens(fields) + rest;
    }
  }

  lemma {:induction false} SpreadFields(fields: seq<Field>, d: nat, on: bool, rest: seq<Token>)
    requires fields != [] && NoColon(rest) && Ordinary(Obj(fields))
    ensures Gap(d + 1, on) + Spread(FieldTokens(fields) + rest, d + 1, on)
      == FieldsText(fields, Gap(d + 1, on), Mode(on)) + (Pop(Gap(d + 1, on)) + ("}" + Spread(rest, d, on)))
    decreases fields, 0
  {
    var gap, e, text := Gap(d + 1, on), LineEnding(Mode(on)), JsonText(fields[0].val, Gap(d + 1, on), Mode(on));
    var last, head := |fields| == 1, "\"" + fields[0].key + "\"" + " : ";
    var close := Pop(gap) + ("}" + Spread(rest, d, on));
    var tail := (if last then [Punct('}')] else [Punct(',')] + FieldTokens(fields[1..])) + rest;
    SpreadKey(fields, d + 1, on, rest, tail);
    FieldsTail(fields, d, on, rest, tail);
    SpreadText(fields[0].val, d + 1, on, tail);
    FieldsPieces(fields, gap, Mode(on));
    if !last {
      assert Ordinary(Obj(fields[1..]));
      SpreadFields(fields[1..], d, on, rest);
      Gaps(d + 1, on);
    }
    hide Spread, JsonText, FieldsText, FieldTokens, Tokens, Ordinary;
    Regroup(gap, head, text + Spread(tail, d + 1, on));
    if last {
      Regroup(gap + head, text, e + close);
      Regroup(gap + head + text, e, close);
      Gaps(d, on);
      Regroup(e, Pop(gap), "}" + Spread(rest, d, on));
    } else {
      var inner := Spread(FieldTokens(fields[1..]) + rest, d + 1, on);
      Follow(gap + head, text, ",", e, gap, inner, FieldsText(fields[1..], gap, Mode(on)), close);
    }
  }

  lemma SpreadKey(fields: seq<Field>, d: nat, on: bool, rest: seq<Token>, tail: seq<Token>)
    requires fields != []
    requires tail == (if |fields| == 1 then [Punct('}')] else [Punct(',')] + FieldTokens(fields[1..])) + rest
    ensures Spread(FieldTokens(fields) + rest, d, on)
      == "\"" + fields[0].key + "\"" + " : " + Spread(Tokens(fields[0].val) + tail, d, on)
  {
    var key, val := fields[0].key, Tokens(fields[0].val);
    var ts := FieldTokens(fields) + rest;
    assert ts == [Quoted(key), Punct(':')] + (val + tail);
    hide FieldTokens, Tokens;
    assert ts[1..] == [Punct(':')] + (val + tail) && ts[1..][1..] == val + tail;
    Regroup("\"" + key + "\"", " : ", Spread(val + tail, d, on));
  }

  lemma FieldsTail(fields: seq<Field>, d: nat, on: bool, rest: seq<Token>, tail: seq<Token>)
    requires fields != []
    requires tail == (if |fields| == 1 then [Punct('}')] else [Punct(',')] + FieldTokens(fields[1..])) + rest
    ensures NoColon(tail)
    ensures Spread(tail, d + 1, on) == if |fields| == 1 then BeforeClose(d, on) + ("}" + Spread(rest, d, on))
      else "," + (After(d + 1, on) + Spread(FieldTokens(fields[1..]) + rest, d + 1, on))
  {
    hide FieldTokens;
    if |fields| == 1 {
      assert tail[1..] == rest;
    } else {
      assert tail[1..] == FieldTokens(fields[1..]) + rest;
    }
  }

  lemma FieldsPieces(fields: seq<Field>, gap: string, mode: Nolint)
    requires fields != []
    ensures var head, text := gap + ("\"" + fields[0].key + "\"" + " : "), JsonText(fields[0].val, gap, mode);
      FieldsText(fields, gap, mode)
      == if |fields| == 1 then head + text + LineEnding(mode)
         else (head + text + ("," + LineEnding(mode))) + FieldsText(fields[1..], gap, mode)
  {
    var k, text, e := fields[0].key, JsonText(fields[0].val, gap, mode), LineEnding(mode);
    hide JsonText;
    assert gap + "\"" + k + "\" : " == gap + ("\"" + k + "\"" + " : ");
    if |fields| == 1 {
      assert fields[1..] == [] && FieldsText(fields[1..], gap, mode) == "";
      assert gap + "\"" + k + "\" : " + text + "" + e + "" == gap + ("\"" + k + "\"" + " : ") + text + e;
    } else {
      Regroup(gap + "\"" + k + "\" : " + text, ",", e);
    }
  }

  // ----- nolint == true at the left margin: objects on one line, short texts collapsed -----

  // How many tokens there are up to the bracket that closes the last of d open ones.
  function Extent(ts: seq<Token>, d: nat): (n: nat)
    ensures n <= |ts| && (ts != [] ==> n > 0)
  {
    if ts == [] then 0
    else if ts[0] == Punct('[') || ts[0] == Punct('{') then 1 + Extent(ts[1..], d + 1)
    else if ts[0] == Punct(']') || ts[0] == Punct('}') then
      if d <= 1 then 1 else 1 + Extent(ts[1..], d - 1)
    else 1 + Extent(ts[1..], d)
  }

  // A bracketed text at the margin is collapsed if it is shorter than 80.
  function Short(s: string, gap: string): string {
    if |s| < 80 && gap == "" then Collapse(s) else s
  }

  // Objects with spaces only, arrays spread out; gap is what is asked for as indentation, nothing or a space.
  function OneLine(ts: seq<Token>, gap: string): string
    decreases |ts|
  {
    if ts == [] then ""
    else
      var rest := ts[1..];
      match ts[0]
      case Word(w) => w + OneLine(rest, gap)
      case Quoted(s) => QuotedText(s, rest) + OneLine(rest, gap)
      case Punct(c) =>
        if c == '[' then
          var n := Extent(ts, 0);
          Short(Spread(ts[..n], 0, true), gap) + OneLine(ts[n..], gap)
        else if c == '{' then
          var n := Extent(ts, 0);
          var inner := if n > 1 then ts[1..n - 1] else [];
          Short("{ " + gap + OneLine(inner, gap) + " }", gap) + OneLine(ts[n..], gap)
        else if c == ',' then ", " + gap + OneLine(rest, gap)
        else if c == ':' then " : " + OneLine(rest, gap)
        else [c] + OneLine(rest, gap)
  }

  lemma {:induction false} ExtentValue(x: Value, rest: seq<Token>, d: nat)
    requires d > 0
    ensures Extent(Tokens(x) + rest, d) == |Tokens(x)| + Extent(rest, d)
    decreases x, 2
  {
    match x {
      case Arr(elems) =>
        ArrayTokensSplit(elems);
        ExtentElems(elems, [Punct(']')] + rest, d + 1);
        hide Tokens, MostElemTokens;
        ExtentBrackets('[', MostElemTokens(elems), ']', rest, d);
      case Obj(fields) =>
        ObjectTokensSplit(fields);
        ExtentFields(fields, [Punct('}')] + rest, d + 1);
        hide Tokens, MostFieldTokens;
        ExtentBrackets('{', MostFieldTokens(fields), '}', rest, d);
      case NumInt(n) => ExtentCall(IntText(n), rest, d);
      case _ =>
        assert (Tokens(x) + rest)[1..] == rest;
    }
  }

  lemma ExtentCall(n: string, rest: seq<Token>, d: nat)
    ensures Extent([Word("NumberInt"), Punct('('), Word(n), Punct(')')] + rest, d) == 4 + Extent(rest, d)
  {
    CallTail(n, rest);
    assert Extent([Punct(')')] + rest, d) == 1 + Extent(rest, d);
    assert Extent([Word(n), Punct(')')] + rest, d) == 2 + Extent(rest, d);
    assert Extent([Punct('('), Word(n), Punct(')')] + rest, d) == 3 + Extent(rest, d);
  }

  lemma CallTail(n: string, rest: seq<Token>)
    ensures ([Word("NumberInt"), Punct('('), Word(n), Punct(')')] + rest)[1..]
         == [Punct('('), Word(n), Punct(')')] + rest
    ensures ([Punct('('), Word(n), Punct(')')] + rest)[1..] == [Word(n), Punct(')')] + rest
    ensures ([Word(n), Punct(')')] + rest)[1..] == [Punct(')')] + rest && ([Punct(')')] + rest)[1..] == rest
  {
  }

  lemma ExtentBrackets(open: char, inner: seq<Token>, shut: char, rest: seq<Token>, d: nat)
    requires (open == '[' || open == '{') && (shut == ']' || shut == '}')
    requires Extent(inner + ([Punct(shut)] + rest), d + 1) == |inner| + Extent([Punct(shut)] + rest, d + 1)
    ensures Extent([Punct(open)] + inner + [Punct(shut)] + rest, d)
      == |[Punct(open)] + inner + [Punct(shut)]| + if d > 0 then Extent(rest, d) else 0
  {
    var ts := [Punct(open)] + inner + [Punct(shut)] + rest;
    assert ts[1..] == inner + ([Punct(shut)] + rest);
    assert ([Punct(shut)] + rest)[1..] == rest;
  }

  lemma {:induction false} ExtentElems(elems: seq<Value>, rest: seq<Token>, d: nat)
    requires d > 0
    ensures Extent(MostElemTokens(elems) + rest, d) == |MostElemTokens(elems)| + Extent(rest, d)
    decreases elems, 0
  {
    if elems == [] {
      assert MostElemTokens(elems) + rest == rest;
    } else {
      var comma := if |elems| == 1 then [] else [Punct(',')];
      var more := MostElemTokens(elems[1..]);
      assert MostElemTokens(elems) + rest == Tokens(elems[0]) + (comma + (more + rest));
      ExtentValue(elems[0], comma + (more + rest), d);
      ExtentElems(elems[1..], rest, d);
      ExtentComma(|elems| == 1, more + rest, d);
    }
  }

  lemma ExtentComma(last: bool, ts: seq<Token>, d: nat)
    ensures var comma: seq<Token> := if last then [] else [Punct(',')];
      Extent(comma + ts, d) == |comma| + Extent(ts, d)
  {
    if last {
      assert [] + ts == ts;
    } else {
      assert ([Punct(',')] + ts)[1..] == ts;
    }
  }

  lemma {:induction false} ExtentFields(fields: seq<Field>, rest: seq<Token>, d: nat)
    requires d > 0
    ensures Extent(MostFieldTokens(fields) + rest, d) == |MostFieldTokens(fields)| + Extent(rest, d)
    decreases fields, 0
  {
    if fields == [] {
      assert MostFieldTokens(fields) + rest == rest;
    } else {
      hide Tokens, MostFieldTokens, Extent;
      var key, val := [Quoted(fields[0].key), Punct(':')], Tokens(fields[0].val);
      var comma, more := CommaToken(|fields| == 1), MostFieldTokens(fields[1..]);
      SplitFields(fields);
      assert MostFieldTokens(fields) + rest == key + (val + (comma + (more + rest)));
      ExtentValue(fields[0].val, comma + (more + rest), d);
      ExtentFields(fields[1..], rest, d);
      ExtentComma(|fields| == 1, more + rest, d);
      ExtentKey(fields[0].key, val + (comma + (more + rest)), d);
    }
  }

  lemma ExtentKey(k: string, ts: seq<Token>, d: nat)
    ensures Extent([Quoted(k), Punct(':')] + ts, d) == 2 + Extent(ts, d)
  {
    var all := [Quoted(k), Punct(':')] + ts;
    assert all[1..] == [Punct(':')] + ts && all[1..][1..] == ts;
    assert Extent(all[1..], d) == 1 + Extent(ts, d);
  }

  predicate IsGap(gap: string) {
    gap == "" || gap == " "
  }

  lemma {:induction false} OneLineText(x: Value, gap: string, rest: seq<Token>)
    requires Ordinary(x) && IsGap(gap) && NoColon(rest)
    ensures OneLine(Tokens(x) + rest, gap) == JsonText(x, gap, On) + OneLine(rest, gap)
    decreases x, 2
  {
    match x {
      case Arr(elems) => OneLineArray(elems, gap, rest);
      case Obj(fields) =>
        if fields != [] {
          OneLineFields(fields, gap);
        }
        OneLineObject(fields, gap, rest);
      case _ => OneLineLeaf(x, gap, rest);
    }
  }

  lemma OneLineLeaf(x: Value, gap: string, rest: seq<Token>)
    requires !x.Arr? && !x.Obj? && NoColon(rest)
    ensures OneLine(Tokens(x) + rest, gap) == JsonText(x, gap, On) + OneLine(rest, gap)
  {
    if x.NumInt? {
      OneLineCall(IntText(x.n), gap, rest);
      assert Unbroken(NumIntText(x.n));
      UnbrokenSame(NumIntText(x.n));
      hide OneLine, IntText, Collapse;
    } else {
      assert (Tokens(x) + rest)[1..] == rest;
    }
  }

  lemma OneLineCall(n: string, gap: string, rest: seq<Token>)
    ensures OneLine([Word("NumberInt"), Punct('('), Word(n), Punct(')')] + rest, gap)
      == "NumberInt(" + n + ")" + OneLine(rest, gap)
  {
    CallTail(n, rest);
    assert OneLine([Punct(')')] + rest, gap) == ")" + OneLine(rest, gap);
    assert OneLine([Word(n), Punct(')')] + rest, gap) == n + (")" + OneLine(rest, gap));
    assert OneLine([Punct('('), Word(n), Punct(')')] + rest, gap) == "(" + (n + (")" + OneLine(rest, gap)));
    Calls(n, OneLine(rest, gap));
  }

  lemma OneLineArray(elems: seq<Value>, gap: string, rest: seq<Token>)
    requires Ordinary(Arr(elems)) && NoColon(rest)
    ensures OneLine(Tokens(Arr(elems)) + rest, gap) == JsonText(Arr(elems), gap, On) + OneLine(rest, gap)
  {
    var ts, own := Tokens(Arr(elems)) + rest, Tokens(Arr(elems));
    ArrayTokensSplit(elems);
    ExtentElems(elems, [Punct(']')] + rest, 1);
    assert own + [] == own;
    SpreadArray(elems, 0, true, []);
    assert Spread([], 0, true) == "";
    assert ArrayText(elems, gap, On) == ArrayText(elems, "\t", On);
    hide Tokens, Extent, Spread, ArrayText, Collapse, MostElemTokens, OneLine, Ordinary;
    ExtentBrackets('[', MostElemTokens(elems), ']', rest, 0);
    BracketOpens(own, gap, rest);
    assert ArrayText(elems, gap, On) + "" == ArrayText(elems, gap, On);
  }

  lemma BracketOpens(own: seq<Token>, gap: string, rest: seq<Token>)
    requires own != [] && own[0] == Punct('[') && Extent(own + rest, 0) == |own|
    ensures OneLine(own + rest, gap) == Short(Spread(own, 0, true), gap) + OneLine(rest, gap)
  {
    hide Extent, Short, Spread;
    assert (own + rest)[..|own|] == own && (own + rest)[|own|..] == rest;
  }

  lemma OneLineObject(fields: seq<Field>, gap: string, rest: seq<Token>)
    requires Ordinary(Obj(fields)) && IsGap(gap) && NoColon(rest)
    requires fields != [] ==> gap + OneLine(MostFieldTokens(fields), gap) + " " == FieldsText(fields, gap, On)
    ensures OneLine(Tokens(Obj(fields)) + rest, gap) == JsonText(Obj(fields), gap, On) + OneLine(rest, gap)
  {
    hide OneLine, ObjectText, FieldsText, Collapse;
    ObjectOpens(fields, gap, rest);
    ObjectOnOneLine(fields, gap);
    Plainly(fields);
    var text := OneLine(MostFieldTokens(fields), gap);
    if fields == [] {
      assert "{ " + gap + "" + " }" == "{ " + (gap + " ") + "}";
    } else {
      Wrap(gap, text);
    }
  }

  lemma ObjectOpens(fields: seq<Field>, gap: string, rest: seq<Token>)
    ensures OneLine(Tokens(Obj(fields)) + rest, gap)
      == Short("{ " + gap + OneLine(MostFieldTokens(fields), gap) + " }", gap) + OneLine(rest, gap)
    ensures fields == [] ==> OneLine(MostFieldTokens(fields), gap) == ""
  {
    var inner := MostFieldTokens(fields);
    ObjectTokensSplit(fields);
    ExtentFields(fields, [Punct('}')] + rest, 1);
    ExtentBrackets('{', inner, '}', rest, 0);
    hide Tokens, MostFieldTokens;
    BraceOpens([Punct('{')] + inner + [Punct('}')], inner, gap, rest);
  }

  lemma BraceOpens(own: seq<Token>, inner: seq<Token>, gap: string, rest: seq<Token>)
    requires own == [Punct('{')] + inner + [Punct('}')] && Extent(own + rest, 0) == |own|
    ensures OneLine(own + rest, gap) == Short("{ " + gap + OneLine(inner, gap) + " }", gap) + OneLine(rest, gap)
  {
    var ts := own + rest;
    hide Extent, Short;
    assert ts[0] == Punct('{') && ts[1..|own| - 1] == inner && ts[|own|..] == rest;
  }

  lemma Wrap(gap: string, text: string)
    ensures "{ " + gap + text + " }" == "{ " + (gap + text + " ") + "}"
  {
    Regroup("{ ", gap, text);
    Regroup("{ ", gap + text, " ");
    assert " }" == " " + "}";
    Regroup("{ " + (gap + text), " ", "}");
  }

  lemma ObjectOnOneLine(fields: seq<Field>, gap: string)
    requires IsGap(gap)
    ensures ObjectText(fields, gap, On)
      == "{ " + (if fields == [] then gap + " " else FieldsText(fields, gap, On)) + "}"
  {
    hide FieldsText;
    assert gap + "" == gap && Pop(gap) == "" && "{" + " " == "{ ";
    var body := if fields == [] then gap + " " else FieldsText(fields, gap, On);
    assert "{ " + body + "" == "{ " + body;
  }

  lemma {:induction false} OneLineFields(fields: seq<Field>, gap: string)
    requires fields != [] && Ordinary(Obj(fields)) && IsGap(gap)
    ensures gap + OneLine(MostFieldTokens(fields), gap) + " " == FieldsText(fields, gap, On)
    decreases fields, 0
  {
    var k, val, more := fields[0].key, fields[0].val, MostFieldTokens(fields[1..]);
    var text, last := JsonText(val, gap, On), |fields| == 1;
    var tail, head := CommaToken(last) + more, "\"" + k + "\"" + " : ";
    hide OneLine, JsonText, FieldsText, Tokens, MostFieldTokens;
    FieldsPieces(fields, gap, On);
    SplitFields(fields);
    OneLineTail(fields, gap);
    OneLineText(val, gap, tail);
    OneLineKey(k, Tokens(val) + tail, gap);
    if last {
      assert text + "" == text;
      Regroup(gap, head, text);
    } else {
      assert Ordinary(Obj(fields[1..]));
      OneLineFields(fields[1..], gap);
      CommaJoin(gap, head, text, OneLine(more, gap));
    }
  }

  lemma OneLineTail(fields: seq<Field>, gap: string)
    requires fields != []
    ensures var more := MostFieldTokens(fields[1..]);
      var tail := CommaToken(|fields| == 1) + more;
      NoColon(tail) && OneLine(tail, gap) == if |fields| == 1 then "" else ", " + gap + OneLine(more, gap)
  {
    var more := MostFieldTokens(fields[1..]);
    var tail := CommaToken(|fields| == 1) + more;
    if |fields| == 1 {
      assert fields[1..] == [] && tail == [];
    } else {
      hide MostFieldTokens;
      assert tail[1..] == more;
    }
  }

  lemma CommaJoin(gap: string, head: string, text: string, more: string)
    ensures gap + (head + (text + (", " + gap + more))) + " "
         == ((gap + head) + text + ("," + " ")) + (gap + more + " ")
  {
    assert ", " == "," + " ";
    Regroup(", ", gap, more);
    Regroup(gap, head, text + (", " + (gap + more)));
    Regroup(gap + head, text, ", " + (gap + more));
    Regroup(gap + head + text, ", ", gap + more);
    Regroup(gap + head + text + ", ", gap + more, " ");
  }

  lemma OneLineKey(k: string, ts: seq<Token>, gap: string)
    ensures OneLine([Quoted(k), Punct(':')] + ts, gap) == "\"" + k + "\"" + " : " + OneLine(ts, gap)
  {
    var all := [Quoted(k), Punct(':')] + ts;
    assert all[1..] == [Punct(':')] + ts && all[1..][1..] == ts;
    assert OneLine(all[1..], gap) == " : " + OneLine(ts, gap);
    Regroup("\"" + k + "\"", " : ", OneLine(ts, gap));
  }

  // ----- The layouts -----

  // With nolint == false, at any depth.
  lemma PrettyLaw(x: Value, d: nat)
    requires Ordinary(x)
    ensures JsonText(x, Tabs(d), Off) == Spread(Tokens(x), d, false)
  {
    SpreadText(x, d, false, []);
    assert Tokens(x) + [] == Tokens(x);
  }

  // With nolint == true: on one line at the margin, or after a space as tojsononeline asks, and spread out
  // within an array.
  lemma OneLineLaw(x: Value)
    requires Ordinary(x)
    ensures JsonText(x, "", On) == OneLine(Tokens(x), "") && JsonText(x, " ", On) == OneLine(Tokens(x), " ")
    ensures JsonText(x, "\t", On) == Spread(Tokens(x), 1, true)
  {
    OneLineText(x, "", []);
    OneLineText(x, " ", []);
    SpreadText(x, 1, true, []);
    assert Tokens(x) + [] == Tokens(x);
  }

  // With nolint left out: as with false, unless that is shorter than 80, when it is collapsed.
  lemma UnsetLaw(x: Value)
    requires NumbersOk(x)
    ensures var pretty := JsonText(x, "", Off);
      JsonText(x, "", Unset) == if |pretty| >= 80 then pretty else Collapse(pretty)
  {
    match x {
      case Arr(elems) => UnsetArray(elems, "");
      case Obj(fields) => UnsetObject(fields, "");
      case NumInt(n) =>
      case _ => CollapseLeaf(x);
    }
  }

  // Below the margin nothing is collapsed.
  lemma {:induction false} UnsetInner(x: Value, indent: string)
    requires indent != ""
    ensures JsonText(x, indent, Unset) == JsonText(x, indent, Off)
    decreases x, 2
  {
    match x {
      case Arr(elems) => UnsetArray(elems, indent);
      case Obj(fields) => UnsetObject(fields, indent);
      case _ =>
    }
  }

  lemma {:induction false} UnsetArray(elems: seq<Value>, indent: string)
    ensures ArrayText(elems, indent, Unset) == ArrayText(elems, indent, Off)
    decreases elems, 1
  {
    UnsetElems(elems, indent + "\t");
  }

  lemma {:induction false} UnsetElems(elems: seq<Value>, indent: string)
    requires indent != ""
    ensures ElemsText(elems, indent, Unset) == ElemsText(elems, indent, Off)
    decreases elems, 0
  {
    if elems != [] {
      UnsetInner(elems[0], indent);
      UnsetElems(elems[1..], indent);
    }
  }

  lemma {:induction false} UnsetObject(fields: seq<Field>, indent: string)
    ensures ObjectText(fields, indent, Unset) == ObjectText(fields, indent, Off)
    decreases fields, 1
  {
    UnsetFields(fields, indent + "\t");
  }

  lemma {:induction false} UnsetFields(fields: seq<Field>, indent: string)
    requires indent != ""
    ensures FieldsText(fields, indent, Unset) == FieldsText(fields, indent, Off)
    decreases fields, 0
  {
    if fields != [] {
      UnsetInner(fields[0].val, indent);
      UnsetFields(fields[1..], indent);
    }
  }

  // Collapsing makes one space of each whole run of tabs and line breaks and keeps all else.
  lemma {:induction false} CollapseRun(p: string, run: string, q: string)
    requires run != "" && forall i :: 0 <= i < |run| ==> run[i] == '\t' || run[i] == '\r' || run[i] == '\n'
    requires p == "" || (p[|p| - 1] != '\t' && p[|p| - 1] != '\r' && p[|p| - 1] != '\n')
    requires q == "" || (q[0] != '\t' && q[0] != '\r' && q[0] != '\n')
    ensures Collapse(p + run + q) == Collapse(p) + " " + Collapse(q)
  {
    CollapseSplit(p + run, q);
    CollapseSplit(p, run);
    OnlyBreaks(run);
  }

  lemma {:induction false} OnlyBreaks(run: string)
    requires run != "" && forall i :: 0 <= i < |run| ==> IsBreak(run[i])
    ensures Collapse(run) == " "
  {
    if |run| > 1 {
      assert forall i :: 0 <= i < |run[1..]| ==> run[1..][i] == run[i + 1];
      OnlyBreaks(run[1..]);
    } else {
      assert run[1..] == "" && Collapse("") == "";
    }
  }

  // Objects that are not printed field by field: an own toString, and the printer of a NumberInt under
  // constructor, the first of that name.
  lemma SpecialObject(fields: seq<Field>, indent: string, nolint: Nolint, i: nat)
    requires i < |fields| && fields[i].key == "constructor" && fields[i].val.NumInt?
    requires forall j :: 0 <= j < i ==> fields[j].key != "constructor" || !fields[j].val.NumInt?
    ensures JsonText(Obj(fields), indent, nolint) == "NumberInt(" + IntText(fields[i].val.n) + ")"
  {
    FirstBorrowed(fields, i);
    assert Unbroken(NumIntText(fields[i].val.n));
    UnbrokenSame(NumIntText(fields[i].val.n));
  }

  lemma {:induction false} FirstBorrowed(fields: seq<Field>, i: nat)
    requires i < |fields| && fields[i].key == "constructor" && fields[i].val.NumInt?
    requires forall j :: 0 <= j < i ==> fields[j].key != "constructor" || !fields[j].val.NumInt?
    ensures BorrowedInt(fields) == Some(fields[i].val.n)
  {
    if i > 0 {
      assert fields[0].key != "constructor" || !fields[0].val.NumInt?;
      FirstBorrowed(fields[1..], i - 1);
    }
  }

  lemma OwnToString(fields: seq<Field>, indent: string, nolint: Nolint, i: nat)
    requires i < |fields| && fields[i].key == "toString"
    requires forall j :: 0 <= j < |fields| ==> fields[j].key != "constructor" || !fields[j].val.NumInt?
    ensures JsonText(Obj(fields), indent, nolint) == "[object]"
  {
    NothingBorrowed(fields);
    assert HasKey(fields, "toString");
    UnbrokenSame("[object]");
  }

  // ----- Strings -----

  // No shorter text is read as the character: the escapes are the shortest there are, and their hexadecimal
  // digits are lower case.
  lemma EscapeShortest(c: char, s: string)
    requires ReadChar(s).Some? && ReadChar(s).value.0 == c
    ensures |EscapeChar(c)| <= ReadChar(s).value.1
    ensures forall i :: 0 <= i < |EscapeChar(c)| ==> |EscapeChar(c)| > 1 ==> !('A' <= EscapeChar(c)[i] <= 'Z')
  {
  }
}
