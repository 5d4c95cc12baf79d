// `friendlyEqual` of utils.js: two values are equal when their one-line texts are, once every
// NumberInt(n) in the text is cut down to n.
module Friendly {
  import opened Text
  import opened Json

  function DigitRun(s: string): (n: nat)
    ensures n <= |s|
    ensures forall i :: 0 <= i < n ==> IsDigit(s[i])
    ensures n < |s| ==> !IsDigit(s[n])
  {
    if s == "" || !IsDigit(s[0]) then 0 else 1 + DigitRun(s[1..])
  }

  const CALL := "NumberInt("

  // Where /NumberInt\((\-?\d+)\)/ matches at the start of s: the length of the number inside.
  function MatchInt(s: string): (r: Option<nat>)
    ensures r.Some? ==> IsMatch(s, r.value)
  {
    if |s| < 10 || s[..10] != CALL then None
    else
      var sign := if |s| > 10 && s[10] == '-' then 1 else 0;
      var n := DigitRun(s[10 + sign..]);
      if n > 0 && 10 + sign + n < |s| && s[10 + sign + n] == ')' then Some(sign + n) else None
  }

  ghost predicate IsMatch(s: string, n: nat) {
    && |s| >= 11 + n
    && s[..10] == CALL
    && s[10 + n] == ')'
    && n > 0
    && (IsDigit(s[10]) || (s[10] == '-' && n > 1))
    && forall i :: 11 <= i < 10 + n ==> IsDigit(s[i])
  }

  // How much of s one step of the clean-up takes, and what it leaves of that.
  function StepLen(s: string): (n: nat)
    requires s != ""
    ensures 0 < n <= |s|
  {
    if MatchInt(s).Some? then 11 + MatchInt(s).value else 1
  }

  function StepOut(s: string): string
    requires s != ""
  {
    if MatchInt(s).Some? then s[10..10 + MatchInt(s).value] else [s[0]]
  }

  // The clean-up: every match is replaced by the number in it.
  function Clean(s: string): string
    decreases |s|
  {
    if s == "" then "" else StepOut(s) + Clean(s[StepLen(s)..])
  }

  // `loose` is what JavaScript's own `a == b` answers: identity between two arrays or objects, and true of
  // a NumberInt and its number, of null and undefined, of 5 and [5], and wherever else it coerces.
  function FriendlyEqual(a: Value, b: Value, loose: bool): bool {
    if loose then true
    else
      var s, t := JsonText(a, "", On), JsonText(b, "", On);
      if s == t then true else Clean(s) == Clean(t)
  }
}

module FriendlyEqualProofs {
  import opened Text
  import opened Json
  import opened JsonReader
  import opened FlatText
  import opened JsonProofs
  import opened Friendly

  // ----- The clean-up on texts -----

  lemma MatchIff(s: string, n: nat)
    ensures MatchInt(s) == Some(n) <==> IsMatch(s, n)
  {
    if IsMatch(s, n) {
      var sign := if s[10] == '-' then 1 else 0;
      var t := s[10 + sign..];
      assert forall i :: 0 <= i < n - sign ==> t[i] == s[10 + sign + i];
      assert t[n - sign] == s[10 + n];
    }
  }

  predicate InMatch(c: char) {
    c in CALL || c == ')' || c == '-' || IsDigit(c)
  }

  predicate Ordinary(c: char) {
    EscapeChar(c) == [c] && c != '\\' && c != ' ' && !IsBreak(c)
  }

  lemma MatchChars(s: string, n: nat)
    requires IsMatch(s, n)
    ensures forall i :: 0 <= i < 11 + n ==> InMatch(s[i])
    ensures s[0] == 'N'
  {
    assert forall i :: 0 <= i < 10 ==> s[i] == s[..10][i];
  }

  lemma MatchOrdinary(s: string, n: nat)
    requires IsMatch(s, n)
    ensures |s| >= 11 + n && forall i :: 0 <= i < 11 + n ==> Ordinary(s[i])
  {
    MatchChars(s, n);
    forall i | 0 <= i < 11 + n ensures Ordinary(s[i]) {
      OrdinaryInMatch(s[i]);
    }
  }

  lemma OrdinaryInMatch(c: char)
    requires InMatch(c)
    ensures Ordinary(c)
  {
    assert CALL == ['N', 'u', 'm', 'b', 'e', 'r', 'I', 'n', 't', '('];
  }

  // A whole number as digits, with a minus or none.
  predicate Numeral(t: string) {
    (t != "" && AllDigits(t)) || (|t| > 1 && t[0] == '-' && AllDigits(t[1..]))
  }

  // The clean-up reads on past a call of a numeral, and leaves the numeral.
  lemma CleanCall(t: string, rest: string)
    requires Numeral(t)
    ensures Clean("NumberInt(" + t + ")" + rest) == t + Clean(rest)
  {
    var s := "NumberInt(" + t + ")" + rest;
    assert s[..10] == CALL && s[10..10 + |t|] == t && s[11 + |t|..] == rest;
    forall i | 11 <= i < 10 + |t| ensures IsDigit(s[i]) {
      assert s[i] == t[i - 10] && (t[0] == '-' ==> t[i - 10] == t[1..][i - 11]);
    }
    assert s[10] == t[0];
    MatchIff(s, |t|);
  }

  // It keeps a character with which no such call begins.
  lemma CleanElse(s: string)
    requires s != "" && forall n :: 10 <= n < |s| && s[..10] == "NumberInt(" && s[n] == ')' ==> !Numeral(s[10..n])
    ensures Clean(s) == [s[0]] + Clean(s[1..])
  {
    if MatchInt(s).Some? {
      MatchNumeral(s);
    }
    hide MatchInt, Numeral;
  }

  lemma MatchNumeral(s: string)
    requires MatchInt(s).Some?
    ensures var n := 10 + MatchInt(s).value;
      n < |s| && s[..10] == "NumberInt(" && s[n] == ')' && Numeral(s[10..n])
  {
    var n := MatchInt(s).value;
    hide MatchInt;
    var t := s[10..10 + n];
    assert forall i :: 0 <= i < n ==> t[i] == s[10 + i];
    assert t[0] == '-' ==> forall i :: 0 <= i < n - 1 ==> t[1..][i] == s[11 + i];
  }

  // Texts that agree as far as a match goes match alike.
  lemma MatchPrefix(s: string, t: string, n: nat)
    requires |s| >= 11 + n && |t| >= 11 + n && s[..11 + n] == t[..11 + n]
    ensures IsMatch(s, n) <==> IsMatch(t, n)
  {
    assert forall i :: 0 <= i < 11 + n ==> s[i] == s[..11 + n][i] && t[i] == t[..11 + n][i];
    assert s[..10] == s[..11 + n][..10] && t[..10] == t[..11 + n][..10];
  }

  lemma SameMatch(s: string, t: string)
    requires forall n: nat :: IsMatch(s, n) <==> IsMatch(t, n)
    ensures MatchInt(s) == MatchInt(t)
  {
    if MatchInt(s).Some? {
      MatchIff(t, MatchInt(s).value);
    } else if MatchInt(t).Some? {
      MatchIff(s, MatchInt(t).value);
    }
  }

  predicate Clear(p: string, q: string) {
    p == "" || q == "" || !InMatch(p[|p| - 1]) || !InMatch(q[0])
  }

  lemma NoMatch(s: string, n: nat, i: nat)
    requires i < |s| && i < 11 + n && !InMatch(s[i])
    ensures !IsMatch(s, n)
  {
    if IsMatch(s, n) {
      MatchChars(s, n);
    }
  }

  lemma MatchConcat(p: string, q: string)
    requires p != "" && Clear(p, q)
    ensures MatchInt(p + q) == MatchInt(p)
    ensures StepLen(p + q) == StepLen(p) && StepOut(p + q) == StepOut(p)
  {
    forall n: nat ensures IsMatch(p + q, n) <==> IsMatch(p, n) {
      if |p| >= 11 + n {
        assert (p + q)[..11 + n] == p[..11 + n];
        MatchPrefix(p + q, p, n);
      } else if q != "" {
        assert (p + q)[|p| - 1] == p[|p| - 1] && (p + q)[|p|] == q[0];
        NoMatch(p + q, n, if InMatch(q[0]) then |p| - 1 else |p|);
      }
    }
    SameMatch(p + q, p);
    if MatchInt(p).Some? {
      assert (p + q)[10..10 + MatchInt(p).value] == p[10..10 + MatchInt(p).value];
    }
  }

  lemma {:induction false} CleanSplit(p: string, q: string)
    requires Clear(p, q)
    ensures Clean(p + q) == Clean(p) + Clean(q)
    decreases |p|
  {
    if p == "" {
      assert p + q == q;
    } else {
      MatchConcat(p, q);
      hide InMatch, MatchInt, StepOut;
      var n := StepLen(p);
      assert (p + q)[n..] == p[n..] + q;
      CleanSplit(p[n..], q);
      Regroup(StepOut(p), Clean(p[n..]), Clean(q));
    }
  }

  lemma DropFirst(p: string, q: string)
    requires p != ""
    ensures (p + q)[0] == p[0] && (p + q)[1..] == p[1..] + q && p == [p[0]] + p[1..]
    ensures 'N' !in p ==> 'N' !in p[1..]
  {
  }

  // A text without `N` stays as it is, whatever follows.
  lemma {:induction false} CleanSkip(p: string, q: string)
    requires 'N' !in p
    ensures Clean(p + q) == p + Clean(q)
  {
    if p == "" {
      assert p + q == q;
    } else {
      DropFirst(p, q);
      CleanHead(p + q);
      hide Clean;
      CleanSkip(p[1..], q);
      Regroup([p[0]], p[1..], Clean(q));
    }
  }

  lemma CleanHead(s: string)
    requires s != "" && s[0] != 'N'
    ensures Clean(s) == [s[0]] + Clean(s[1..])
  {
    if MatchInt(s).Some? {
      MatchChars(s, MatchInt(s).value);
    }
  }

  lemma CleanSame(p: string)
    requires 'N' !in p
    ensures Clean(p) == p
  {
    CleanSkip(p, "");
    assert p + "" == p;
  }

  // ----- Clean-up and escaping, clean-up and collapsing -----

  lemma TakeDrop(s: string, m: nat)
    requires 0 < m <= |s|
    ensures s[..m] == [s[0]] + s[1..][..m - 1] && s[1..][m - 1..] == s[m..]
  {
  }

  // Where an escaped text shows no backslash it is the raw text.
  lemma {:induction false} EscapePrefix(s: string, m: nat)
    requires m <= |Escape(s)| && forall i :: 0 <= i < m ==> Escape(s)[i] != '\\'
    ensures m <= |s| && Escape(s) == s[..m] + Escape(s[m..])
  {
    if m > 0 {
      UnescapedHead(s);
      hide Escape, EscapeChar;
      assert forall i :: 0 <= i < m - 1 ==> Escape(s[1..])[i] == Escape(s)[i + 1];
      EscapePrefix(s[1..], m - 1);
      TakeDrop(s, m);
      Regroup([s[0]], s[1..][..m - 1], Escape(s[m..]));
    }
  }

  lemma UnescapedHead(s: string)
    requires Escape(s) != "" && Escape(s)[0] != '\\'
    ensures s != "" && Escape(s) == [s[0]] + Escape(s[1..])
  {
    EscapeHead(s);
    assert Escape(s)[0] == EscapeChar(s[0])[0];
  }

  lemma {:induction false} EscapeKeep(s: string, m: nat)
    requires m <= |s| && forall i :: 0 <= i < m ==> EscapeChar(s[i]) == [s[i]]
    ensures Escape(s) == s[..m] + Escape(s[m..])
  {
    hide Escape, EscapeChar;
    if m > 0 {
      EscapeHead(s);
      assert forall i :: 0 <= i < m - 1 ==> s[1..][i] == s[i + 1];
      EscapeKeep(s[1..], m - 1);
      TakeDrop(s, m);
      Regroup([s[0]], s[1..][..m - 1], Escape(s[m..]));
    }
  }

  lemma SamePrefix(t: string, s: string, z: string, m: nat)
    requires m <= |s| && t == s[..m] + z
    ensures m <= |t| && t[..m] == s[..m] && t[m..] == z
  {
  }

  // A matching text is printed as it is, and only a text that starts with a match prints as one.
  lemma MatchEscape(s: string)
    ensures MatchInt(Escape(s)) == MatchInt(s)
    ensures MatchInt(s).Some? ==> var m := StepLen(s); Escape(s) == s[..m] + Escape(s[m..])
  {
    forall n: nat ensures IsMatch(Escape(s), n) <==> IsMatch(s, n) {
      if IsMatch(Escape(s), n) {
        MatchUnescape(s, n);
      }
      if IsMatch(s, n) {
        MatchKeep(s, n);
      }
    }
    SameMatch(Escape(s), s);
    if MatchInt(s).Some? {
      MatchKeep(s, MatchInt(s).value);
    }
  }

  lemma MatchUnescape(s: string, n: nat)
    requires IsMatch(Escape(s), n)
    ensures IsMatch(s, n)
  {
    MatchOrdinary(Escape(s), n);
    hide IsMatch, Escape, EscapeChar;
    EscapePrefix(s, 11 + n);
    SamePrefix(Escape(s), s, Escape(s[11 + n..]), 11 + n);
    MatchPrefix(Escape(s), s, n);
  }

  lemma MatchKeep(s: string, n: nat)
    requires IsMatch(s, n)
    ensures IsMatch(Escape(s), n) && Escape(s) == s[..11 + n] + Escape(s[11 + n..])
  {
    MatchOrdinary(s, n);
    hide IsMatch, Escape, EscapeChar;
    EscapeKeep(s, 11 + n);
    SamePrefix(Escape(s), s, Escape(s[11 + n..]), 11 + n);
    MatchPrefix(Escape(s), s, n);
  }

  lemma {:induction false} CleanEscape(s: string)
    ensures Clean(Escape(s)) == Escape(Clean(s))
    decreases |s|
  {
    if s != "" {
      var n := StepLen(s);
      CleanEscape(s[n..]);
      EscapeSplit(StepOut(s), Clean(s[n..]));
      if MatchInt(s).Some? {
        CleanEscapeMatch(s, MatchInt(s).value);
      } else {
        CleanEscapeChar(s);
      }
    }
  }

  lemma CleanByPrefix(t: string, s: string, z: string, n: nat)
    requires MatchInt(t) == Some(n) && 11 + n <= |s| && t == s[..11 + n] + z
    ensures Clean(t) == s[10..10 + n] + Clean(z)
  {
    SamePrefix(t, s, z, 11 + n);
    assert t[10..10 + n] == t[..11 + n][10..10 + n];
    assert s[10..10 + n] == s[..11 + n][10..10 + n];
  }

  lemma CleanEscapeMatch(s: string, n: nat)
    requires MatchInt(s) == Some(n)
    ensures Clean(Escape(s)) == Escape(StepOut(s)) + Clean(Escape(s[StepLen(s)..]))
  {
    MatchEscape(s);
    CleanByPrefix(Escape(s), s, Escape(s[11 + n..]), n);
    EscapeDigits(s, n);
  }

  lemma CleanEscapeChar(s: string)
    requires s != "" && MatchInt(s).None?
    ensures Clean(Escape(s)) == Escape(StepOut(s)) + Clean(Escape(s[1..]))
  {
    EscapeHead(s);
    EscapeOne(s[0]);
    MatchEscape(s);
    EscapedShape(s[0]);
    hide Escape, EscapeChar, MatchInt;
    if EscapeChar(s[0]) == [s[0]] {
      CleanNone(Escape(s), s[0], Escape(s[1..]));
    } else {
      CleanSkip(EscapeChar(s[0]), Escape(s[1..]));
    }
  }

  lemma EscapedShape(c: char)
    ensures EscapeChar(c) == [c] || 'N' !in EscapeChar(c)
  {
  }

  lemma CleanNone(t: string, c: char, z: string)
    requires t == [c] + z && MatchInt(t).None?
    ensures Clean(t) == [c] + Clean(z)
  {
    assert t[1..] == z;
  }

  lemma EscapeDigits(s: string, n: nat)
    requires IsMatch(s, n)
    ensures Escape(s[10..10 + n]) == s[10..10 + n]
  {
    MatchChars(s, n);
    var d := s[10..10 + n];
    assert forall i :: 0 <= i < n ==> d[i] == s[10 + i];
    EscapeKeep(d, n);
    assert d[n..] == "" && d[..n] == d && Escape("") == "";
  }

  lemma {:induction false} CollapsePrefix(s: string, m: nat)
    requires m <= |Collapse(s)| && forall i :: 0 <= i < m ==> Collapse(s)[i] != ' '
    ensures m <= |s| && Collapse(s) == s[..m] + Collapse(s[m..])
  {
    if m > 0 {
      CollapseFirst(s);
      assert !IsBreak(s[0]);
      assert Collapse(s) == [s[0]] + Collapse(s[1..]);
      assert forall i :: 0 <= i < m - 1 ==> Collapse(s[1..])[i] == Collapse(s)[i + 1];
      CollapsePrefix(s[1..], m - 1);
      TakeDrop(s, m);
      Regroup([s[0]], s[1..][..m - 1], Collapse(s[m..]));
    }
  }

  lemma MatchCollapse(s: string)
    ensures MatchInt(Collapse(s)) == MatchInt(s)
  {
    forall n: nat ensures IsMatch(Collapse(s), n) <==> IsMatch(s, n) {
      if IsMatch(Collapse(s), n) {
        MatchUncollapse(s, n);
      }
      if IsMatch(s, n) {
        MatchKeepCollapse(s, n);
      }
    }
    SameMatch(Collapse(s), s);
  }

  lemma MatchUncollapse(s: string, n: nat)
    requires IsMatch(Collapse(s), n)
    ensures IsMatch(s, n)
  {
    MatchOrdinary(Collapse(s), n);
    hide IsMatch, Collapse, EscapeChar;
    CollapsePrefix(s, 11 + n);
    SamePrefix(Collapse(s), s, Collapse(s[11 + n..]), 11 + n);
    MatchPrefix(Collapse(s), s, n);
  }

  lemma MatchKeepCollapse(s: string, n: nat)
    requires IsMatch(s, n)
    ensures IsMatch(Collapse(s), n)
  {
    MatchOrdinary(s, n);
    hide IsMatch, Collapse, EscapeChar;
    CollapseTake(s, 11 + n);
    SamePrefix(Collapse(s), s, Collapse(s[11 + n..]), 11 + n);
    MatchPrefix(Collapse(s), s, n);
  }

  lemma {:induction false} CleanCollapse(s: string)
    ensures Clean(Collapse(s)) == Collapse(Clean(s))
    decreases |s|
  {
    MatchCollapse(s);
    if s != "" {
      CleanCollapse(s[StepLen(s)..]);
      if MatchInt(s).Some? {
        CleanCollapseMatch(s, MatchInt(s).value);
      } else {
        CleanCollapseChar(s);
      }
    }
  }

  lemma CleanCollapseChar(s: string)
    requires s != "" && MatchInt(s).None? && MatchInt(Collapse(s)).None?
    requires Clean(Collapse(s[1..])) == Collapse(Clean(s[1..]))
    ensures Clean(Collapse(s)) == Collapse(Clean(s))
  {
    var u := Clean(s[1..]);
    CleanFirst(s[1..]);
    CleanNone(s, s[0], s[1..]);
    hide Clean, MatchInt;
    HeadTail(s[0], u);
    if IsBreak(s[0]) {
      if !(|s| > 1 && IsBreak(s[1])) {
        CleanSkip(" ", Collapse(s[1..]));
      }
    } else {
      CleanNone(Collapse(s), s[0], Collapse(s[1..]));
    }
  }

  lemma CleanCollapseMatch(s: string, n: nat)
    requires MatchInt(s) == MatchInt(Collapse(s)) == Some(n)
    requires Clean(Collapse(s[11 + n..])) == Collapse(Clean(s[11 + n..]))
    ensures Clean(Collapse(s)) == Collapse(Clean(s))
  {
    MatchOrdinary(s, n);
    var d, z := s[10..10 + n], s[11 + n..];
    assert forall i :: 0 <= i < n ==> d[i] == s[10 + i];
    assert Clean(s) == d + Clean(z);
    hide Clean, Collapse, IsMatch, MatchInt, EscapeChar, InMatch;
    CollapseTake(s, 11 + n);
    CleanByPrefix(Collapse(s), s, Collapse(z), n);
    CollapseOrdinary(d, Clean(z));
  }

  lemma CollapseOrdinary(d: string, z: string)
    requires forall i :: 0 <= i < |d| ==> Ordinary(d[i])
    ensures Collapse(d + z) == d + Collapse(z)
  {
    hide EscapeChar, Collapse;
    assert forall i :: 0 <= i < |d| ==> (d + z)[i] == d[i];
    CollapseTake(d + z, |d|);
    assert (d + z)[..|d|] == d && (d + z)[|d|..] == z;
  }

  lemma CleanFirst(s: string)
    ensures s == "" <==> Clean(s) == ""
    ensures s != "" ==> (IsBreak(Clean(s)[0]) <==> IsBreak(s[0]))
  {
    if MatchInt(s).Some? {
      MatchChars(s, MatchInt(s).value);
      assert Clean(s)[0] == s[10];
    }
  }

  // ----- What the clean-up does to a value -----

  function Fold(x: Value): Value {
    match x
    case NumInt(n) => Num(IntText(n))
    case Str(s) => Str(Clean(s))
    case Arr(elems) => Arr(FoldElems(elems))
    case Obj(fields) => Obj(FoldFields(fields))
    case _ => x
  }

  function FoldElems(elems: seq<Value>): (r: seq<Value>)
    ensures |r| == |elems| && forall i :: 0 <= i < |r| ==> r[i] == Fold(elems[i])
  {
    if elems == [] then [] else [Fold(elems[0])] + FoldElems(elems[1..])
  }

  function FoldFields(fields: seq<Field>): (r: seq<Field>)
    ensures |r| == |fields|
    ensures forall i :: 0 <= i < |r| ==> r[i] == Field(Clean(fields[i].key), Fold(fields[i].val))
  {
    if fields == [] then []
    else [Field(Clean(fields[0].key), Fold(fields[0].val))] + FoldFields(fields[1..])
  }

  lemma {:induction false} CleanSafe(k: string)
    requires SafeKey(k)
    ensures SafeKey(Clean(k))
    decreases |k|
  {
    if k != "" {
      CleanSafe(k[if MatchInt(k).Some? then 11 + MatchInt(k).value else 1..]);
    }
  }

  // A clean-up that changes anything leaves a digit behind.
  lemma {:induction false} CleanDigit(k: string)
    ensures (forall i :: 0 <= i < |Clean(k)| ==> !IsDigit(Clean(k)[i])) ==> Clean(k) == k
    decreases |k|
  {
    if k != "" {
      if MatchInt(k).Some? {
        var n := MatchInt(k).value;
        assert Clean(k)[n - 1] == k[10 + n - 1];
        assert IsDigit(Clean(k)[n - 1]);
      } else {
        CleanDigit(k[1..]);
        assert Clean(k)[1..] == Clean(k[1..]);
        assert forall i :: 0 <= i < |Clean(k[1..])| ==> Clean(k[1..])[i] == Clean(k)[i + 1];
      }
    }
  }

  // The clean-up of a value whose keys are safe leaves one whose keys are safe, and no NumberInt.
  lemma {:induction false} FoldSafe(x: Value)
    requires NumbersOk(x) && SafeKeys(x)
    ensures Tellable(Fold(x))
  {
    hide Clean, SafeKey;
    match x {
      case NumInt(n) =>
        WordLengthIs(IntText(n), |IntText(n)|);
      case Arr(elems) =>
        forall i | 0 <= i < |elems| ensures Tellable(FoldElems(elems)[i]) {
          FoldSafe(elems[i]);
        }
      case Obj(fields) =>
        var r := FoldFields(fields);
        forall i | 0 <= i < |fields|
          ensures Tellable(r[i].val) && SafeKey(r[i].key) && r[i].key != "toString"
        {
          FoldSafe(fields[i].val);
          CleanSafe(fields[i].key);
          CleanDigit(fields[i].key);
        }
        NoBorrow(r);
      case _ =>
    }
  }

  lemma {:induction false} NoBorrow(fields: seq<Field>)
    requires forall i :: 0 <= i < |fields| ==> !fields[i].val.NumInt?
    ensures BorrowedInt(fields).None?
  {
    if fields != [] {
      NoBorrow(fields[1..]);
    }
  }
}
