// The value printer of types.js: `tojson`, `tojsonObject` and `Array.tojson`.
module Json {
  import opened Text

  // What the shell prints. A number carries the text JavaScript gives for it (`'' + x`);
  // NumInt is the shell's NumberInt wrapper, the one BSON scalar friendlyEqual looks through.
  datatype Value =
    | Null
    | Undefined
    | Bool(b: bool)
    | Num(text: string)
    | NumInt(n: int)
    | Str(s: string)
    | Arr(elems: seq<Value>)
    | Obj(fields: seq<Field>)

  datatype Field = Field(key: string, val: Value)

  // The three things callers pass for `nolint`.
  datatype Nolint = Unset | Off | On

  // `replace(/[\t\r\n]+/gm, " ")`
  predicate IsBreak(c: char) {
    c == '\t' || c == '\r' || c == '\n'
  }

  function Collapse(s: string): string {
    if s == "" then ""
    else if !IsBreak(s[0]) then [s[0]] + Collapse(s[1..])
    else if |s| > 1 && IsBreak(s[1]) then Collapse(s[1..])
    else " " + Collapse(s[1..])
  }

  function HexDigit(d: nat): char
    requires d < 16
  {
    if d < 10 then DigitChar(d) else ('a' as int + (d - 10)) as char
  }

  function EscapeChar(c: char): string {
    if c == '"' then "\\\""
    else if c == '\\' then "\\\\"
    else if c == 8 as char then "\\b"
    else if c == 12 as char then "\\f"
    else if c == '\n' then "\\n"
    else if c == '\r' then "\\r"
    else if c == '\t' then "\\t"
    else if c as int < 0x10 then "\\u000" + [HexDigit(c as int)]
    else if c as int < 0x20 then "\\u00" + [HexDigit(c as int / 16), HexDigit(c as int % 16)]
    else [c]
  }

  function Escape(s: string): string {
    if s == "" then "" else Escape(s[..|s| - 1]) + EscapeChar(s[|s| - 1])
  }

  function StringText(s: string): string {
    "\"" + Escape(s) + "\""
  }

  function NumIntText(n: int): string {
    "NumberInt(" + IntText(n) + ")"
  }

  function LineEnding(nolint: Nolint): string {
    if nolint == On then " " else "\n"
  }

  // `indent.substring(1)`
  function Pop(indent: string): string {
    if indent == "" then "" else indent[1..]
  }

  predicate HasKey(fields: seq<Field>, key: string) {
    exists i :: 0 <= i < |fields| && fields[i].key == key
  }

  // Own properties win over inherited ones, so a key named `toString` makes the call
  // `x.toString()` throw, and `constructor` holding a NumberInt lends the object that
  // wrapper's own tojson.
  function BorrowedInt(fields: seq<Field>): Option<int> {
    if fields == [] then None
    else if fields[0].key == "constructor" && fields[0].val.NumInt? then Some(fields[0].val.n)
    else BorrowedInt(fields[1..])
  }

  function JsonText(x: Value, indent: string, nolint: Nolint): string
    decreases x, 3
  {
    match x
    case Null => "null"
    case Undefined => "undefined"
    case Bool(b) => if b then "true" else "false"
    case Num(text) => text
    case Str(s) => StringText(s)
    case _ => Finish(StructText(x, indent, nolint), indent, nolint)
  }

  // Short texts asked for at the left margin lose their line breaks and tabs.
  function Finish(s: string, indent: string, nolint: Nolint): string {
    if nolint != Off && |s| < 80 && indent == "" then Collapse(s) else s
  }

  function StructText(x: Value, indent: string, nolint: Nolint): string
    requires x.NumInt? || x.Arr? || x.Obj?
    decreases x, 2
  {
    match x
    case NumInt(n) => NumIntText(n)
    case Arr(elems) => ArrayText(elems, indent, nolint)
    case Obj(fields) =>
      if BorrowedInt(fields).Some? then NumIntText(BorrowedInt(fields).value)
      else if HasKey(fields, "toString") then "[object]"
      else ObjectText(fields, indent, nolint)
  }

  function ArrayText(elems: seq<Value>, indent: string, nolint: Nolint): string
    decreases elems, 1
  {
    if elems == [] then "[ ]"
    else
      var inner := if nolint == On then "\t" else indent + "\t";
      "[" + LineEnding(nolint) + ElemsText(elems, inner, nolint) + LineEnding(nolint) + Pop(inner) + "]"
  }

  function ElemText(elem: Value, last: bool, indent: string, nolint: Nolint): string
    decreases elem, 4
  {
    indent + JsonText(elem, indent, nolint) + (if last then "" else "," + LineEnding(nolint))
  }

  function ElemsText(elems: seq<Value>, indent: string, nolint: Nolint): string
    decreases elems, 0
  {
    if elems == [] then ""
    else ElemText(elems[0], |elems| == 1, indent, nolint) + ElemsText(elems[1..], indent, nolint)
  }

  function TabSpace(nolint: Nolint): string {
    if nolint == On then "" else "\t"
  }

  function ObjectText(fields: seq<Field>, indent: string, nolint: Nolint): string
    decreases fields, 1
  {
    var inner := indent + TabSpace(nolint);
    "{" + LineEnding(nolint)
    + (if fields == [] then inner + LineEnding(nolint) else FieldsText(fields, inner, nolint))
    + Pop(inner) + "}"
  }

  function FieldText(field: Field, last: bool, indent: string, nolint: Nolint): string
    decreases field, 4
  {
    indent + "\"" + field.key + "\" : " + JsonText(field.val, indent, nolint)
    + (if last then "" else ",") + LineEnding(nolint)
  }

  function FieldsText(fields: seq<Field>, indent: string, nolint: Nolint): string
    decreases fields, 0
  {
    if fields == [] then ""
    else FieldText(fields[0], |fields| == 1, indent, nolint) + FieldsText(fields[1..], indent, nolint)
  }
}
