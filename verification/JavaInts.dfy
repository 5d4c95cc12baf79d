// Java's fixed-width integers where BSONizer.java depends on them.
module JavaInts {
  type Int8 = n: int | -0x80 <= n < 0x80
  type Int32 = n: int | -0x8000_0000 <= n < 0x8000_0000
  type Int64 = n: int | -0x8000_0000_0000_0000 <= n < 0x8000_0000_0000_0000
  type Byte = n: int | 0 <= n < 0x100

  // (byte) n for a BinData subtype.
  function ToInt8(n: int): Int8 {
    (n + 0x80) % 0x100 - 0x80
  }

  // (int) n
  function ToInt32(n: int): Int32 {
    (n + 0x8000_0000) % 0x1_0000_0000 - 0x8000_0000
  }

  // n / d on Java's integers, which drops the fraction.
  function Quotient(n: int, d: int): int
    requires d > 0
  {
    if n >= 0 then n / d else 0 - (0 - n) / d
  }

  // A number as its k lowest bytes, the lowest first, and back.
  function LittleEndian(n: int, k: nat): (b: seq<Byte>)
    ensures |b| == k
    decreases k
  {
    if k == 0 then [] else [n % 0x100] + LittleEndian(n / 0x100, k - 1)
  }

  function Unsigned(b: seq<Byte>): nat {
    if b == [] then 0 else b[0] + 0x100 * Unsigned(b[1..])
  }

  function Power256(k: nat): (p: nat)
    ensures p > 0
  {
    if k == 0 then 1 else 0x100 * Power256(k - 1)
  }

  lemma {:induction false} UnsignedBelow(b: seq<Byte>)
    ensures Unsigned(b) < Power256(|b|)
  {
    if b != [] {
      UnsignedBelow(b[1..]);
    }
  }

  // Adding a multiple of 256^k does not change the k lowest bytes.
  lemma {:induction false} WriteUnsigned(b: seq<Byte>, q: int)
    ensures LittleEndian(Unsigned(b) + q * Power256(|b|), |b|) == b
  {
    if b != [] {
      var n := Unsigned(b) + q * Power256(|b|);
      var m := Unsigned(b[1..]) + q * Power256(|b[1..]|);
      assert q * Power256(|b|) == 0x100 * (q * Power256(|b[1..]|));
      assert n == b[0] + 0x100 * m;
      assert n % 0x100 == b[0] && n / 0x100 == m;
      WriteUnsigned(b[1..], q);
    }
  }

  lemma {:induction false} ReadBytes(n: int, k: nat)
    ensures exists q: int :: n == Unsigned(LittleEndian(n, k)) + q * Power256(k)
    decreases k
  {
    if k == 0 {
      assert n == 0 + n * 1;
    } else {
      ReadBytes(n / 0x100, k - 1);
      var q: int :| n / 0x100 == Unsigned(LittleEndian(n / 0x100, k - 1)) + q * Power256(k - 1);
      var b := LittleEndian(n, k);
      assert b[1..] == LittleEndian(n / 0x100, k - 1);
      assert 0x100 * (q * Power256(k - 1)) == q * Power256(k);
      assert n == Unsigned(b) + q * Power256(k);
    }
  }

  // A little-endian ByteBuffer's getLong and putLong.
  function GetLong(b: seq<Byte>): Int64
    requires |b| == 8
  {
    UnsignedBelow(b);
    Eight();
    var n := Unsigned(b);
    if n < 0x8000_0000_0000_0000 then n else n - 0x1_0000_0000_0000_0000
  }

  function PutLong(n: Int64): (b: seq<Byte>)
    ensures |b| == 8
  {
    LittleEndian(n, 8)
  }

  lemma Eight()
    ensures Power256(8) == 0x1_0000_0000_0000_0000
  {
    assert Power256(4) == 0x1_0000_0000;
  }

  // The byte read first weighs least, and the last one carries the sign.
  lemma LongByBytes(b: seq<Byte>)
    requires |b| == 8
    ensures GetLong(b) + (if b[7] >= 0x80 then 0x1_0000_0000_0000_0000 else 0)
      == b[0] as int + 0x100 * b[1] as int + 0x1_0000 * b[2] as int + 0x100_0000 * b[3] as int
         + 0x1_0000_0000 * b[4] as int + 0x100_0000_0000 * b[5] as int
         + 0x1_0000_0000_0000 * b[6] as int + 0x100_0000_0000_0000 * b[7] as int
  {
    FourBytes(b);
    FourBytes(b[4..]);
    assert Unsigned(b[4..][4..]) == 0;
  }

  lemma FourBytes(b: seq<Byte>)
    requires |b| >= 4
    ensures Unsigned(b) == b[0] as int + 0x100 * b[1] as int + 0x1_0000 * b[2] as int + 0x100_0000 * b[3] as int
      + 0x1_0000_0000 * Unsigned(b[4..])
  {
    var c, d, e := b[1..], b[2..], b[3..];
    assert c[1..] == d && d[1..] == e && e[1..] == b[4..];
    assert Unsigned(b) == b[0] + 0x100 * Unsigned(c);
    assert Unsigned(c) == b[1] + 0x100 * Unsigned(d);
    assert Unsigned(d) == b[2] + 0x100 * Unsigned(e);
    assert Unsigned(e) == b[3] + 0x100 * Unsigned(b[4..]);
  }

  // A cast keeps the number, but for a multiple of 2^8 or 2^32.
  lemma CastsWrap(n: int)
    ensures (n - ToInt8(n)) % 0x100 == 0 && (n - ToInt32(n)) % 0x1_0000_0000 == 0
    ensures -0x80 <= n < 0x80 ==> ToInt8(n) == n
    ensures -0x8000_0000 <= n < 0x8000_0000 ==> ToInt32(n) == n
  {
  }

  lemma PutGet(b: seq<Byte>)
    requires |b| == 8
    ensures PutLong(GetLong(b)) == b
  {
    Eight();
    WriteUnsigned(b, if Unsigned(b) < 0x8000_0000_0000_0000 then 0 else -1);
  }

  lemma GetPut(n: Int64)
    ensures GetLong(PutLong(n)) == n
  {
    Eight();
    ReadBytes(n, 8);
    var b := PutLong(n);
    UnsignedBelow(b);
    var q: int :| n == Unsigned(b) + q * Power256(8);
    assert q == 0 || q == -1;
  }
}
