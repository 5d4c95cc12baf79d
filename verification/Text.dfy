// Decimal numerals and padding: what JavaScript's `'' + n`, `parseInt(s, 10)` and
// `String.prototype.pad` do.
module Text {

  datatype Option<+T> = None | Some(value: T)

  lemma Regroup(a: string, b: string, c: string)
    ensures (a + b) + c == a + (b + c)
  {
  }

  predicate IsDigit(c: char) {
    '0' <= c <= '9'
  }

  predicate AllDigits(s: string) {
    forall i :: 0 <= i < |s| ==> IsDigit(s[i])
  }

  function DigitValue(c: char): (d: nat)
    requires IsDigit(c)
    ensures d < 10
  {
    c as int - '0' as int
  }

  function DigitChar(d: nat): (c: char)
    requires d < 10
    ensures IsDigit(c) && DigitValue(c) == d
  {
    ('0' as int + d) as char
  }

  // parseInt(s, 10) on a string of digits.
  function NatValue(s: string): nat
    requires AllDigits(s)
  {
    if s == "" then 0 else 10 * NatValue(s[..|s| - 1]) + DigitValue(s[|s| - 1])
  }

  // '' + n for a whole number n.
  function NatText(n: nat): (s: string)
    ensures s != "" && AllDigits(s)
    ensures n >= 10 ==> s[0] != '0'
  {
    if n < 10 then [DigitChar(n)] else NatText(n / 10) + [DigitChar(n % 10)]
  }

  function IntText(n: int): (s: string)
    ensures s != "" && (IsDigit(s[0]) || (s[0] == '-' && |s| > 1))
    ensures forall i :: 1 <= i < |s| ==> IsDigit(s[i])
  {
    if n < 0 then "-" + NatText(-n) else NatText(n)
  }

  function IntValue(s: string): int
    requires AllDigits(s) || (s != "" && s[0] == '-' && AllDigits(s[1..]))
  {
    if s != "" && s[0] == '-' then 0 - NatValue(s[1..]) else NatValue(s)
  }

  lemma {:induction false} NatValueText(n: nat)
    ensures NatValue(NatText(n)) == n
  {
    if n >= 10 {
      var s := NatText(n);
      assert s[..|s| - 1] == NatText(n / 10);
      NatValueText(n / 10);
    }
  }

  lemma IntValueText(n: int)
    ensures AllDigits(IntText(n)) || (IntText(n)[0] == '-' && AllDigits(IntText(n)[1..]))
    ensures IntValue(IntText(n)) == n
  {
    if n < 0 {
      assert IntText(n)[1..] == NatText(-n);
      NatValueText(-n);
    } else {
      NatValueText(n);
    }
  }

  // No two whole numbers print alike.
  lemma IntTextInjective(m: int, n: int)
    requires IntText(m) == IntText(n)
    ensures m == n
  {
    IntValueText(m);
    IntValueText(n);
  }

  function Repeat(c: char, n: nat): (s: string)
    ensures |s| == n && forall i :: 0 <= i < n ==> s[i] == c
  {
    if n == 0 then "" else [c] + Repeat(c, n - 1)
  }

  // The text `zeroPad(width)` leaves for a number printed as s.
  function Padded(s: string, width: nat): (p: string)
    ensures |p| == if |s| < width then width else |s|
  {
    if |s| < width then Repeat('0', width - |s|) + s else s
  }

  lemma {:induction false} NatValuePadded(s: string, width: nat)
    requires AllDigits(s)
    ensures AllDigits(Padded(s, width))
    ensures NatValue(Padded(s, width)) == NatValue(s)
  {
    if |s| < width {
      ZerosAddNothing(s, width - |s|);
    }
  }

  lemma {:induction false} ZerosAddNothing(s: string, k: nat)
    requires AllDigits(s)
    ensures AllDigits(Repeat('0', k) + s) && NatValue(Repeat('0', k) + s) == NatValue(s)
  {
    var t := Repeat('0', k) + s;
    if s != "" {
      ZerosAddNothing(s[..|s| - 1], k);
      assert t[..|t| - 1] == Repeat('0', k) + s[..|s| - 1];
    } else if k > 0 {
      ZerosAddNothing(s, k - 1);
      RepeatSnoc('0', k);
      assert t[..|t| - 1] == Repeat('0', k - 1) + s;
    }
  }

  lemma RepeatSnoc(c: char, k: nat)
    requires k > 0
    ensures Repeat(c, k)[..k - 1] == Repeat(c, k - 1)
  {
  }

  // A numeral of fewer than width + 1 digits is below 10^width.
  function Power10(k: nat): (p: nat)
    ensures p > 0
  {
    if k == 0 then 1 else 10 * Power10(k - 1)
  }

  lemma {:induction false} NatTextLength(n: nat, k: nat)
    requires k > 0
    ensures |NatText(n)| <= k <==> n < Power10(k)
  {
    if n >= 10 {
      if k > 1 {
        NatTextLength(n / 10, k - 1);
      }
    } else if k > 1 {
      NatTextLength(n, k - 1);
    }
  }

  lemma {:induction false} NatValueBelow(s: string)
    requires AllDigits(s)
    ensures NatValue(s) < Power10(|s|)
  {
    if s != "" {
      NatValueBelow(s[..|s| - 1]);
    }
  }

  // String.prototype.pad
  method Pad(text: string, length: int, right: bool, chr: char) returns (str: string)
    ensures var missing := if |text| < length then length - |text| else 0;
      str == if right then text + Repeat(chr, missing) else Repeat(chr, missing) + text
  {
    str := text;
    var i := length - |str|;
    ghost var missing := if i > 0 then i else 0;
    ghost var done := 0;
    assert Repeat(chr, 0) + text == text == text + Repeat(chr, 0);
    while i > 0
      invariant 0 <= done <= missing && (i > 0 ==> i == missing - done) && (i <= 0 ==> done == missing)
      invariant str == if right then text + Repeat(chr, done) else Repeat(chr, done) + text
    {
      RepeatSnoc(chr, done + 1);
      if right {
        assert Repeat(chr, done + 1) == Repeat(chr, done) + [chr];
        Regroup(text, Repeat(chr, done), [chr]);
        str := str + [chr];
      } else {
        Regroup([chr], Repeat(chr, done), text);
        str := [chr] + str;
      }
      i := i - 1;
      done := done + 1;
    }
  }

  method ZeroPad(n: int, width: nat) returns (str: string)
    ensures str == Padded(IntText(n), width)
  {
    str := Pad(IntText(n), width, false, '0');
  }

  lemma NegativeMultiple(d: int, q: int)
    requires d > 0 && q <= -1
    ensures d * q <= -d
  {
  }

  lemma QuotientNotNegative(n: nat, d: nat)
    requires d > 0
    ensures n / d >= 0
  {
    if n / d < 0 {
      NegativeMultiple(d, n / d);
    }
  }
}
