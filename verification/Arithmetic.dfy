// Products and quotients.
module Arithmetic {

  lemma Commute(a: int, b: int)
    ensures a * b == b * a
  {
  }

  lemma OneMoreTime(n: int, x: int)
    ensures (n + 1) * x == n * x + x
  {
  }

  lemma MulOrder(k: int, x: int, y: int)
    requires k >= 0 && x <= y
    ensures k * x <= k * y
  {
    assert k * (y - x) >= 0;
    assert k * (y - x) == k * y - k * x;
  }

  lemma Distribute(k: int, x: int, y: int)
    ensures k * (x - y) == k * x - k * y
    ensures k * (x + y) == k * x + k * y
  {
  }

  lemma SmallMultiple(k: int, x: int)
    requires k > 0 && -k < k * x < k
    ensures x == 0
  {
    if x >= 1 {
      MulOrder(k, 1, x);
    } else if x <= -1 {
      MulOrder(k, x, -1);
    }
  }

  lemma DivUnique(n: int, k: int, q: int, r: int)
    requires k > 0 && n == k * q + r && 0 <= r < k
    ensures n / k == q && n % k == r
  {
    Distribute(k, q, n / k);
    SmallMultiple(k, q - n / k);
  }

  lemma DivStep(n: int, k: int)
    requires k > 0
    ensures (n + 1) / k == n / k + if (n + 1) % k == 0 then 1 else 0
  {
    var q, r := n / k, n % k;
    assert n == k * q + r;
    if r == k - 1 {
      assert n + 1 == k * (q + 1);
      DivUnique(n + 1, k, q + 1, 0);
    } else {
      DivUnique(n + 1, k, q, r + 1);
    }
  }

  lemma DivShift(n: int, d: int, k: int)
    requires d > 0
    ensures (n + d * k) / d == n / d + k && (n + d * k) % d == n % d
  {
    DivUnique(n + d * k, d, n / d + k, n % d);
  }

  lemma Associate(a: int, b: int, c: int)
    ensures a * (b * c) == a * b * c
  {
  }

  lemma DivNest(t: int, a: int, b: int)
    requires a > 0 && b > 0
    ensures t / (a * b) == (t / a) / b
  {
    var q := t / a;
    var p, r := q / b, q % b;
    assert t == a * (b * p + r) + t % a;
    Distribute(a, b * p, r);
    Associate(a, b, p);
    MulOrder(a, 0, r);
    MulOrder(a, r, b - 1);
    Distribute(a, b, 1);
    Associate(a, b, 1);
    DivUnique(t, a * b, p, a * r + t % a);
  }

  lemma Quotient(n: nat, s: nat, m: nat)
    requires n > 0 && n * m <= s < n * m + n
    ensures s / n == m
  {
    DivUnique(s, n, m, s - n * m);
  }
}
