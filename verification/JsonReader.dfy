// A reader for printed values: a whitespace-tolerant lexer (whitespace of section 2 and strings of
// section 7 of RFC 8259) and a recursive-descent parser over its tokens. It knows nothing of the
// printer's layouts and is the independent meaning the printed text is held against.
module JsonReader {
  import opened Text
  import opened Json

  datatype Token = Punct(c: char) | Word(w: string) | Quoted(s: string)

  predicate IsWs(c: char) {
    c == ' ' || c == '\t' || c == '\n' || c == '\r'
  }

  predicate IsPunct(c: char) {
    c == '{' || c == '}' || c == '[' || c == ']' || c == ',' || c == ':' || c == '(' || c == ')'
  }

  predicate IsWordChar(c: char) {
    IsDigit(c) || 'a' <= c <= 'z' || 'A' <= c <= 'Z' || c == '+' || c == '-' || c == '.'
  }

  function WordLength(s: string): (n: nat)
    ensures n <= |s|
    ensures forall i :: 0 <= i < n ==> IsWordChar(s[i])
    ensures n < |s| ==> !IsWordChar(s[n])
    ensures s != "" && IsWordChar(s[0]) ==> n > 0
  {
    if s == "" || !IsWordChar(s[0]) then 0 else 1 + WordLength(s[1..])
  }

  function HexValue(c: char): Option<nat> {
    if IsDigit(c) then Some(DigitValue(c))
    else if 'a' <= c <= 'f' then Some(c as int - 'a' as int + 10)
    else if 'A' <= c <= 'F' then Some(c as int - 'A' as int + 10)
    else None
  }

  // The character `\uABCD` stands for; surrogate halves are no characters of their own here.
  function HexChar(s: string): Option<char>
    requires |s| == 4
  {
    match (HexValue(s[0]), HexValue(s[1]), HexValue(s[2]), HexValue(s[3]))
    case (Some(a), Some(b), Some(c), Some(d)) =>
      var code := 4096 * a + 256 * b + 16 * c + d;
      if code < 0xD800 || 0xE000 <= code < 0x10000 then Some(code as char) else None
    case _ => None
  }

  function SimpleEscape(c: char): Option<char> {
    if c == '"' || c == '\\' || c == '/' then Some(c)
    else if c == 'b' then Some(8 as char)
    else if c == 'f' then Some(12 as char)
    else if c == 'n' then Some('\n')
    else if c == 'r' then Some('\r')
    else if c == 't' then Some('\t')
    else None
  }

  // One string character: what it stands for and how many characters of text it takes.
  function ReadChar(s: string): (r: Option<(char, nat)>)
    ensures r.Some? ==> 0 < r.value.1 <= |s|
  {
    if s == "" || s[0] == '"' || s[0] as int < 0x20 then None
    else if s[0] != '\\' then Some((s[0], 1))
    else if |s| < 2 then None
    else if SimpleEscape(s[1]).Some? then Some((SimpleEscape(s[1]).value, 2))
    else if s[1] == 'u' && |s| >= 6 && HexChar(s[2..6]).Some? then Some((HexChar(s[2..6]).value, 6))
    else None
  }

  // The rest of a string literal after its opening quote, and what follows the closing one.
  function LexString(s: string): (r: Option<(string, string)>)
    ensures r.Some? ==> |r.value.1| < |s|
    decreases |s|
  {
    if s != "" && s[0] == '"' then Some(("", s[1..]))
    else
      match ReadChar(s)
      case None => None
      case Some((c, n)) =>
        match LexString(s[n..])
        case None => None
        case Some((str, rest)) => Some(([c] + str, rest))
  }

  function Cons(t: Token, ts: Option<seq<Token>>): Option<seq<Token>> {
    match ts
    case None => None
    case Some(ts) => Some([t] + ts)
  }

  function Lex(s: string): Option<seq<Token>>
    decreases |s|
  {
    if s == "" then Some([])
    else if IsWs(s[0]) then Lex(s[1..])
    else if IsPunct(s[0]) then Cons(Punct(s[0]), Lex(s[1..]))
    else if s[0] == '"' then
      match LexString(s[1..])
      case None => None
      case Some((str, rest)) => Cons(Quoted(str), Lex(rest))
    else
      var n := WordLength(s);
      if n == 0 then None else Cons(Word(s[..n]), Lex(s[n..]))
  }

  // The texts JavaScript gives for numbers begin with a digit or a sign, or spell NaN or Infinity.
  predicate IsNumText(w: string) {
    && w != ""
    && WordLength(w) == |w|
    && (IsDigit(w[0]) || w[0] == '-' || w == "NaN" || w == "Infinity")
  }

  predicate IsIntText(w: string) {
    && (AllDigits(w) || (w != "" && w[0] == '-' && AllDigits(w[1..])))
    && IntText(IntValue(w)) == w
  }

  datatype Parsed<T> = Fail | Got(value: T, rest: seq<Token>)

  predicate StartsWith(ts: seq<Token>, t: Token) {
    ts != [] && ts[0] == t
  }

  function ParseWord(w: string, rest: seq<Token>): (p: Parsed<Value>)
    ensures p.Got? ==> |p.rest| <= |rest|
  {
    if w == "null" then Got(Null, rest)
    else if w == "undefined" then Got(Undefined, rest)
    else if w == "true" then Got(Bool(true), rest)
    else if w == "false" then Got(Bool(false), rest)
    else if w == "NumberInt" then
      if |rest| >= 3 && rest[0] == Punct('(') && rest[1].Word? && IsIntText(rest[1].w) && rest[2] == Punct(')')
      then Got(NumInt(IntValue(rest[1].w)), rest[3..])
      else Fail
    else if IsNumText(w) then Got(Num(w), rest)
    else Fail
  }

  function Parse(ts: seq<Token>): (p: Parsed<Value>)
    ensures p.Got? ==> |p.rest| < |ts|
    decreases |ts|, 0
  {
    if ts == [] then Fail
    else match ts[0]
      case Quoted(s) => Got(Str(s), ts[1..])
      case Word(w) => ParseWord(w, ts[1..])
      case Punct(c) =>
        if c == '[' then
          if StartsWith(ts[1..], Punct(']')) then Got(Arr([]), ts[2..])
          else match ParseElems(ts[1..])
            case Fail => Fail
            case Got(elems, rest) => Got(Arr(elems), rest)
        else if c == '{' then
          if StartsWith(ts[1..], Punct('}')) then Got(Obj([]), ts[2..])
          else match ParseFields(ts[1..])
            case Fail => Fail
            case Got(fields, rest) => Got(Obj(fields), rest)
        else Fail
  }

  // One or more values with commas between them, up to and including the closing bracket.
  function ParseElems(ts: seq<Token>): (p: Parsed<seq<Value>>)
    ensures p.Got? ==> |p.rest| < |ts|
    decreases |ts|, 1
  {
    match Parse(ts)
    case Fail => Fail
    case Got(v, rest) =>
      if StartsWith(rest, Punct(']')) then Got([v], rest[1..])
      else if StartsWith(rest, Punct(',')) then
        match ParseElems(rest[1..])
        case Fail => Fail
        case Got(vs, rest') => Got([v] + vs, rest')
      else Fail
  }

  function ParseFields(ts: seq<Token>): (p: Parsed<seq<Field>>)
    ensures p.Got? ==> |p.rest| < |ts|
    decreases |ts|, 1
  {
    if |ts| < 2 || !ts[0].Quoted? || ts[1] != Punct(':') then Fail
    else match Parse(ts[2..])
      case Fail => Fail
      case Got(v, rest) =>
        if StartsWith(rest, Punct('}')) then Got([Field(ts[0].s, v)], rest[1..])
        else if StartsWith(rest, Punct(',')) then
          match ParseFields(rest[1..])
          case Fail => Fail
          case Got(fs, rest') => Got([Field(ts[0].s, v)] + fs, rest')
        else Fail
  }

  function Read(s: string): Option<Value> {
    match Lex(s)
    case None => None
    case Some(ts) =>
      match Parse(ts)
      case Fail => None
      case Got(v, rest) => if rest == [] then Some(v) else None
  }

  // The tokens of a value: the only ones the parser accepts for it (see ParseExact).
  function Tokens(x: Value): seq<Token>
    decreases x, 1
  {
    match x
    case Null => [Word("null")]
    case Undefined => [Word("undefined")]
    case Bool(b) => [Word(if b then "true" else "false")]
    case Num(text) => [Word(text)]
    case NumInt(n) => [Word("NumberInt"), Punct('('), Word(IntText(n)), Punct(')')]
    case Str(s) => [Quoted(s)]
    case Arr(elems) => if elems == [] then [Punct('['), Punct(']')] else [Punct('[')] + ElemTokens(elems)
    case Obj(fields) => if fields == [] then [Punct('{'), Punct('}')] else [Punct('{')] + FieldTokens(fields)
  }

  function ElemTokens(elems: seq<Value>): seq<Token>
    requires elems != []
    decreases elems, 0
  {
    Tokens(elems[0]) + (if |elems| == 1 then [Punct(']')] else [Punct(',')] + ElemTokens(elems[1..]))
  }

  function FieldTokens(fields: seq<Field>): seq<Token>
    requires fields != []
    decreases fields, 0
  {
    [Quoted(fields[0].key), Punct(':')]
    + (Tokens(fields[0].val) + (if |fields| == 1 then [Punct('}')] else [Punct(',')] + FieldTokens(fields[1..])))
  }

  // A number in the value is a number's text.
  predicate NumbersOk(x: Value) {
    match x
    case Num(text) => IsNumText(text)
    case Arr(elems) => forall i :: 0 <= i < |elems| ==> NumbersOk(elems[i])
    case Obj(fields) => forall i :: 0 <= i < |fields| ==> NumbersOk(fields[i].val)
    case _ => true
  }

  lemma ParseLeaf(x: Value, rest: seq<Token>)
    requires NumbersOk(x) && !x.Arr? && !x.Obj?
    ensures Parse(Tokens(x) + rest) == Got(x, rest)
  {
    var ts := Tokens(x) + rest;
    if x.NumInt? {
      IntValueText(x.n);
      assert ts[1..][3..] == rest;
    } else {
      assert ts[1..] == rest;
    }
  }

  lemma {:induction false} ParseTokens(x: Value, rest: seq<Token>)
    requires NumbersOk(x)
    ensures Parse(Tokens(x) + rest) == Got(x, rest)
    decreases x, 1
  {
    if x.Arr? {
      if x.elems != [] {
        ParseElemTokens(x.elems, rest);
      }
      ParseArr(x.elems, rest);
    } else if x.Obj? {
      if x.fields != [] {
        ParseFieldTokens(x.fields, rest);
      }
      ParseObj(x.fields, rest);
    } else {
      ParseLeaf(x, rest);
    }
  }

  lemma ParseArr(elems: seq<Value>, rest: seq<Token>)
    requires elems != [] ==> ParseElems(ElemTokens(elems) + rest) == Got(elems, rest)
    ensures Parse(Tokens(Arr(elems)) + rest) == Got(Arr(elems), rest)
  {
    if elems == [] {
      var ts := Tokens(Arr(elems)) + rest;
      assert ts[2..] == rest;
    } else {
      FirstElemToken(elems);
      hide Parse, ElemTokens;
      ParseBracket(ElemTokens(elems) + rest, elems, rest);
      assert Tokens(Arr(elems)) + rest == [Punct('[')] + (ElemTokens(elems) + rest);
    }
  }

  lemma FirstElemToken(elems: seq<Value>)
    requires elems != []
    ensures ElemTokens(elems) != [] && ElemTokens(elems)[0] != Punct(']')
  {
    FirstToken(elems[0]);
    assert ElemTokens(elems)[0] == Tokens(elems[0])[0];
  }

  lemma ParseBracket(ts: seq<Token>, elems: seq<Value>, rest: seq<Token>)
    requires ParseElems(ts) == Got(elems, rest) && !StartsWith(ts, Punct(']'))
    ensures Parse([Punct('[')] + ts) == Got(Arr(elems), rest)
  {
    hide ParseElems;
    assert ([Punct('[')] + ts)[1..] == ts;
  }

  lemma ParseBrace(ts: seq<Token>, fields: seq<Field>, rest: seq<Token>)
    requires ParseFields(ts) == Got(fields, rest) && !StartsWith(ts, Punct('}'))
    ensures Parse([Punct('{')] + ts) == Got(Obj(fields), rest)
  {
    hide ParseFields;
    assert ([Punct('{')] + ts)[1..] == ts;
  }

  lemma ParseObj(fields: seq<Field>, rest: seq<Token>)
    requires fields != [] ==> ParseFields(FieldTokens(fields) + rest) == Got(fields, rest)
    ensures Parse(Tokens(Obj(fields)) + rest) == Got(Obj(fields), rest)
  {
    if fields == [] {
      var ts := Tokens(Obj(fields)) + rest;
      assert ts[2..] == rest;
    } else {
      hide Parse, FieldTokens;
      FirstFieldToken(fields);
      ParseBrace(FieldTokens(fields) + rest, fields, rest);
      assert Tokens(Obj(fields)) + rest == [Punct('{')] + (FieldTokens(fields) + rest);
    }
  }

  lemma FirstFieldToken(fields: seq<Field>)
    requires fields != []
    ensures FieldTokens(fields) != [] && FieldTokens(fields)[0] == Quoted(fields[0].key)
  {
  }

  lemma FirstToken(x: Value)
    ensures Tokens(x) != [] && Tokens(x)[0] != Punct(']') && Tokens(x)[0] != Punct('}')
  {
  }

  // One element or field, the last of its list or followed by more.
  lemma OneElem(v: Value, rest: seq<Token>)
    ensures ElemTokens([v]) + rest == Tokens(v) + ([Punct(']')] + rest)
  {
  }

  lemma MoreElems(v: Value, vs: seq<Value>, rest: seq<Token>)
    requires vs != []
    ensures ElemTokens([v] + vs) + rest == Tokens(v) + ([Punct(',')] + (ElemTokens(vs) + rest))
  {
    assert ([v] + vs)[1..] == vs;
  }

  lemma OneField(f: Field, rest: seq<Token>)
    ensures FieldTokens([f]) + rest == [Quoted(f.key), Punct(':')] + (Tokens(f.val) + ([Punct('}')] + rest))
  {
  }

  lemma MoreFields(f: Field, fs: seq<Field>, rest: seq<Token>)
    requires fs != []
    ensures FieldTokens([f] + fs) + rest
         == [Quoted(f.key), Punct(':')] + (Tokens(f.val) + ([Punct(',')] + (FieldTokens(fs) + rest)))
  {
    assert ([f] + fs)[1..] == fs;
  }

  lemma HeadTail<T>(t: T, ts: seq<T>)
    ensures ([t] + ts)[0] == t && ([t] + ts)[1..] == ts
  {
  }

  lemma {:induction false} ParseElemTokens(elems: seq<Value>, rest: seq<Token>)
    requires elems != [] && forall i :: 0 <= i < |elems| ==> NumbersOk(elems[i])
    ensures ParseElems(ElemTokens(elems) + rest) == Got(elems, rest)
    decreases elems, 0
  {
    var v := elems[0];
    if |elems| == 1 {
      ParseTokens(v, [Punct(']')] + rest);
      OneElem(v, rest);
      HeadTail(Punct(']'), rest);
      assert elems == [v];
    } else {
      var vs := elems[1..];
      var tail := ElemTokens(vs) + rest;
      ParseTokens(v, [Punct(',')] + tail);
      ParseElemTokens(vs, rest);
      MoreElems(v, vs, rest);
      HeadTail(Punct(','), tail);
      assert elems == [v] + vs;
    }
    hide Parse, Tokens, ElemTokens;
  }

  lemma {:induction false} ParseFieldTokens(fields: seq<Field>, rest: seq<Token>)
    requires fields != [] && forall i :: 0 <= i < |fields| ==> NumbersOk(fields[i].val)
    ensures ParseFields(FieldTokens(fields) + rest) == Got(fields, rest)
    decreases fields, 0
  {
    var f := fields[0];
    if |fields| == 1 {
      ParseTokens(f.val, [Punct('}')] + rest);
      ParseFieldsAt(f.key, Tokens(f.val) + ([Punct('}')] + rest), f.val, [Punct('}')] + rest);
      OneField(f, rest);
      HeadTail(Punct('}'), rest);
      assert fields == [f];
    } else {
      var fs := fields[1..];
      var tail := FieldTokens(fs) + rest;
      ParseTokens(f.val, [Punct(',')] + tail);
      ParseFieldTokens(fs, rest);
      ParseFieldsAt(f.key, Tokens(f.val) + ([Punct(',')] + tail), f.val, [Punct(',')] + tail);
      MoreFields(f, fs, rest);
      HeadTail(Punct(','), tail);
      assert fields == [f] + fs;
    }
    hide Parse, Tokens, FieldTokens, ParseFields;
  }

  lemma ParseFieldsAt(k: string, us: seq<Token>, v: Value, tail: seq<Token>)
    requires Parse(us) == Got(v, tail)
    ensures ParseFields([Quoted(k), Punct(':')] + us) ==
      if StartsWith(tail, Punct('}')) then Got([Field(k, v)], tail[1..])
      else if StartsWith(tail, Punct(',')) && ParseFields(tail[1..]).Got? then
        Got([Field(k, v)] + ParseFields(tail[1..]).value, ParseFields(tail[1..]).rest)
      else Fail
  {
    hide Parse;
    assert ([Quoted(k), Punct(':')] + us)[2..] == us;
  }

  // The parser takes a value from exactly its tokens: nothing else reads as that value.
  lemma {:induction false} ParseExact(ts: seq<Token>)
    ensures var p := Parse(ts); p.Got? ==> ts == Tokens(p.value) + p.rest && NumbersOk(p.value)
    decreases |ts|, 0
  {
    if ts != [] {
      assert ts == [ts[0]] + ts[1..];
      match ts[0] {
        case Punct(c) =>
          if c == '[' {
            if !StartsWith(ts[1..], Punct(']')) {
              ParseElemsExact(ts[1..]);
            }
            ParseArrExact(ts[1..]);
          } else if c == '{' {
            if !StartsWith(ts[1..], Punct('}')) {
              ParseFieldsExact(ts[1..]);
            }
            ParseObjExact(ts[1..]);
          }
        case Word(w) => ParseWordExact(w, ts[1..]);
        case Quoted(s) => ParseQuotedExact(s, ts[1..]);
      }
      hide Tokens, NumbersOk;
    }
  }

  lemma ParseQuotedExact(s: string, ts: seq<Token>)
    ensures var p := Parse([Quoted(s)] + ts);
      p.Got? && [Quoted(s)] + ts == Tokens(p.value) + p.rest && NumbersOk(p.value)
  {
    HeadTail(Quoted(s), ts);
  }

  ghost predicate Exact(p: Parsed<Value>, ts: seq<Token>) {
    p.Got? ==> ts == Tokens(p.value) + p.rest && NumbersOk(p.value)
  }

  lemma ParseWordExact(w: string, ts: seq<Token>)
    ensures Exact(Parse([Word(w)] + ts), [Word(w)] + ts)
  {
    HeadTail(Word(w), ts);
    if w == "NumberInt" && ParseWord(w, ts).Got? {
      assert ts == [Punct('('), Word(ts[1].w), Punct(')')] + ts[3..];
      assert [Word(w)] + ts == [Word(w), Punct('('), Word(ts[1].w), Punct(')')] + ts[3..];
    }
  }

  lemma ParseArrExact(ts: seq<Token>)
    requires !StartsWith(ts, Punct(']')) ==> ElemsExact(ParseElems(ts), ts)
    ensures Exact(Parse([Punct('[')] + ts), [Punct('[')] + ts)
  {
    HeadTail(Punct('['), ts);
    hide ParseElems, ElemTokens;
    if StartsWith(ts, Punct(']')) {
      assert ts == [Punct(']')] + ts[1..];
      assert ([Punct('[')] + ts)[2..] == ts[1..];
      assert [Punct('[')] + ts == [Punct('['), Punct(']')] + ts[1..];
    }
  }

  lemma ParseObjExact(ts: seq<Token>)
    requires !StartsWith(ts, Punct('}')) ==> FieldsExact(ParseFields(ts), ts)
    ensures Exact(Parse([Punct('{')] + ts), [Punct('{')] + ts)
  {
    HeadTail(Punct('{'), ts);
    hide ParseFields, FieldTokens;
    if StartsWith(ts, Punct('}')) {
      assert ts == [Punct('}')] + ts[1..];
      assert ([Punct('{')] + ts)[2..] == ts[1..];
      assert [Punct('{')] + ts == [Punct('{'), Punct('}')] + ts[1..];
    }
  }

  ghost predicate ElemsExact(p: Parsed<seq<Value>>, ts: seq<Token>) {
    p.Got? ==> (
      && p.value != []
      && ts == ElemTokens(p.value) + p.rest
      && (forall i :: 0 <= i < |p.value| ==> NumbersOk(p.value[i])))
  }

  lemma {:induction false} ParseElemsExact(ts: seq<Token>)
    ensures ElemsExact(ParseElems(ts), ts)
    decreases |ts|, 1
  {
    ParseExact(ts);
    var p := Parse(ts);
    if p.Got? && StartsWith(p.rest, Punct(']')) {
      assert p.rest == [Punct(']')] + p.rest[1..];
      OneElem(p.value, p.rest[1..]);
    } else if p.Got? && StartsWith(p.rest, Punct(',')) {
      assert p.rest == [Punct(',')] + p.rest[1..];
      ParseElemsExact(p.rest[1..]);
      var q := ParseElems(p.rest[1..]);
      if q.Got? {
        MoreElems(p.value, q.value, q.rest);
      }
    }
    hide Parse, Tokens, ElemTokens, NumbersOk;
  }

  ghost predicate FieldsExact(p: Parsed<seq<Field>>, ts: seq<Token>) {
    p.Got? ==> (
      && p.value != []
      && ts == FieldTokens(p.value) + p.rest
      && (forall i :: 0 <= i < |p.value| ==> NumbersOk(p.value[i].val)))
  }

  lemma {:induction false} ParseFieldsExact(ts: seq<Token>)
    ensures FieldsExact(ParseFields(ts), ts)
    decreases |ts|, 1
  {
    if |ts| >= 2 && ts[0].Quoted? && ts[1] == Punct(':') {
      hide Tokens, FieldTokens, NumbersOk;
      ParseExact(ts[2..]);
      var p := Parse(ts[2..]);
      var k := ts[0].s;
      assert ts == [Quoted(k), Punct(':')] + ts[2..];
      if p.Got? {
        hide Parse;
        ParseFieldsAt(k, ts[2..], p.value, p.rest);
        if StartsWith(p.rest, Punct('}')) {
          assert p.rest == [Punct('}')] + p.rest[1..];
          OneField(Field(k, p.value), p.rest[1..]);
        } else if StartsWith(p.rest, Punct(',')) {
          assert p.rest == [Punct(',')] + p.rest[1..];
          ParseFieldsExact(p.rest[1..]);
          var q := ParseFields(p.rest[1..]);
          if q.Got? {
            MoreFields(Field(k, p.value), q.value, q.rest);
          }
        }
      }
    }
  }

  // Reading a text gives x exactly when the text lexes to the tokens of x.
  lemma ReadIffLex(s: string, x: Value)
    requires NumbersOk(x)
    ensures Read(s) == Some(x) <==> Lex(s) == Some(Tokens(x))
  {
    if Lex(s) == Some(Tokens(x)) {
      ParseTokens(x, []);
      assert Tokens(x) + [] == Tokens(x);
    }
    if Read(s) == Some(x) {
      ParseExact(Lex(s).value);
      assert Tokens(x) + [] == Tokens(x);
    }
  }
}
