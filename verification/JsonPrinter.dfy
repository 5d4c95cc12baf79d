// The printers as they run: each appends to a string in a loop and recurses for nested values.
module JsonPrinter {
  import opened Text
  import opened Json

  // The string case of tojson.
  method QuoteString(x: string) returns (out: string)
    ensures out == StringText(x)
  {
    out := "\"";
    var i := 0;
    while i < |x|
      invariant 0 <= i <= |x|
      invariant out == "\"" + Escape(x[..i])
    {
      assert x[..i + 1][..i] == x[..i];
      out := out + EscapeChar(x[i]);
      i := i + 1;
    }
    assert x[..i] == x;
    out := out + "\"";
  }

  method ToJson(x: Value, indent: string, nolint: Nolint) returns (out: string)
    ensures out == JsonText(x, indent, nolint)
    decreases x, 3
  {
    match x {
      case Null => out := "null";
      case Undefined => out := "undefined";
      case Bool(b) => out := if b then "true" else "false";
      case Num(text) => out := text;
      case Str(s) => out := QuoteString(s);
      case _ =>
        out := ToJsonObject(x, indent, nolint);
        if nolint != Off && |out| < 80 && indent == "" {
          out := Collapse(out);
        }
    }
  }

  method ToJsonObject(x: Value, indent: string, nolint: Nolint) returns (s: string)
    requires x.NumInt? || x.Arr? || x.Obj?
    ensures s == StructText(x, indent, nolint)
    decreases x, 2
  {
    match x {
      case NumInt(n) =>
        s := NumIntText(n);
      case Arr(elems) =>
        s := ArrayToJson(elems, indent, nolint);
      case Obj(fields) =>
        if BorrowedInt(fields).Some? {
          return NumIntText(BorrowedInt(fields).value);
        }
        if HasKey(fields, "toString") {
          return "[object]";
        }
        s := PrintFields(fields, indent, nolint);
    }
  }

  // The key loop of tojsonObject.
  method PrintFields(fields: seq<Field>, indent: string, nolint: Nolint) returns (s: string)
    ensures s == ObjectText(fields, indent, nolint)
    decreases fields, 1
  {
    var lineEnding := LineEnding(nolint);
    s := "{" + lineEnding;
    var inner := indent + TabSpace(nolint);
    var total := |fields|;
    if total == 0 {
      s := s + (inner + lineEnding);
    }
    ghost var start := s;
    var num, i := 1, 0;
    while i < |fields|
      invariant 0 <= i <= |fields|
      invariant total > 0 ==> num == if i < total then i + 1 else total
      invariant s + FieldsText(fields[i..], inner, nolint) == start + FieldsText(fields, inner, nolint)
    {
      var k, val := fields[i].key, fields[i].val;
      var printed := ToJson(val, inner, nolint);
      var piece := inner + "\"" + k + "\" : " + printed;
      if num != total {
        piece := piece + ",";
        num := num + 1;
      } else {
        piece := piece + "";
      }
      piece := piece + lineEnding;
      assert piece == FieldText(fields[i], i == total - 1, inner, nolint);
      Regroup(s, piece, FieldsText(fields[i + 1..], inner, nolint));
      assert fields[i..][1..] == fields[i + 1..];
      s := s + piece;
      i := i + 1;
    }
    assert fields[i..] == [];
    assert s == start + FieldsText(fields, inner, nolint);
    assert fields == [] ==> start == "{" + lineEnding + (inner + lineEnding) && s == start;
    s := s + Pop(inner) + "}";
  }

  method ArrayToJson(a: seq<Value>, indent: string, nolint: Nolint) returns (s: string)
    ensures s == ArrayText(a, indent, nolint)
    decreases a, 1
  {
    var lineEnding := LineEnding(nolint);
    var inner := if nolint == On then "" else indent;
    if |a| == 0 {
      return "[ ]";
    }
    s := "[" + lineEnding;
    inner := inner + "\t";
    assert inner == if nolint == On then "\t" else indent + "\t";
    var i := 0;
    while i < |a|
      invariant 0 <= i <= |a|
      invariant s + ElemsText(a[i..], inner, nolint) == "[" + lineEnding + ElemsText(a, inner, nolint)
    {
      var printed := ToJson(a[i], inner, nolint);
      var piece := inner + printed;
      if i < |a| - 1 {
        piece := piece + ("," + lineEnding);
      } else {
        piece := piece + "";
      }
      assert piece == ElemText(a[i], i == |a| - 1, inner, nolint);
      Regroup(s, piece, ElemsText(a[i + 1..], inner, nolint));
      assert a[i..][1..] == a[i + 1..];
      s := s + piece;
      i := i + 1;
    }
    assert a[i..] == [];
    assert s == "[" + lineEnding + ElemsText(a, inner, nolint);
    s := s + lineEnding + Pop(inner) + "]";
  }
}
