/** Products and remainders with a variable divisor. */
module Arithmetic {
  lemma ProductOrder(p: int, q: int, base: nat)
    ensures p <= q ==> p * base <= q * base
  {
  }

  lemma ProductStrict(a: nat, b: nat, w: nat)
    requires a < b && w > 0
    ensures a * w < b * w
  {
  }

  lemma ProductBound(d: int, n: nat)
    requires d >= 1
    ensures d * n >= n
  {
  }

  lemma Remainder(x: int, q: int, n: nat, r: int)
    requires 0 <= r < n && x == q * n + r
    ensures x % n == r && x / n == q
  {
    var d := x / n - q;
    assert d * n == r - x % n;
    if d >= 1 { ProductBound(d, n); } else if d <= -1 { ProductBound(-d, n); }
  }

  lemma ModSmall(x: nat, n: nat)
    requires x < n
    ensures x % n == x && x / n == 0
  {
  }

  lemma ModAdd(x: nat, k: nat, n: nat)
    requires n > 0
    ensures (x % n + k) % n == (x + k) % n
  {
    var q, r := (x % n + k) / n, (x % n + k) % n;
    assert x % n + k == q * n + r && x == x / n * n + x % n;
    assert x + k == (x / n + q) * n + r;
    Remainder(x + k, x / n + q, n, r);
  }

  lemma ModStep(x: nat, n: nat)
    requires n > 0
    ensures (x % n + 1) % n == (x + 1) % n
  {
    ModAdd(x, 1, n);
  }
}
