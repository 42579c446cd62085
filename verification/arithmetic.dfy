/** Facts about products and quotients of variables. */
module Arithmetic {

  lemma AtLeast(a: int, d: nat)
    requires a >= 1
    ensures a * d >= d
  {
    assert a * d == (a - 1) * d + d;
    assert (a - 1) * d >= 0;
  }

  lemma MulMonotone(a: nat, b: nat, c: nat)
    requires a <= b
    ensures a * c <= b * c
  {
    assert b * c == a * c + (b - a) * c;
  }

  lemma DivUnique(n: nat, d: nat, q: nat, r: nat)
    requires d > 0 && r < d && n == q * d + r
    ensures n / d == q
  {
    var k, m := n / d, n % d;
    assert n == k * d + m && 0 <= m < d;
    assert (k - q) * d == r - m && (q - k) * d == m - r;
    if k > q {
      AtLeast(k - q, d);
    } else if k < q {
      AtLeast(q - k, d);
    }
  }

  /** A product compares as its first factor does. */
  lemma FactorLess(a: nat, b: nat, c: nat)
    requires a * c < b * c
    ensures a < b
  {
    if a >= b {
      MulMonotone(b, a, c);
    }
  }

  lemma FactorAtMost(a: nat, b: nat, c: nat)
    requires a * c <= b * c && c > 0
    ensures a <= b
  {
    if a > b {
      MulMonotone(b + 1, a, c);
      MulSucc(c, b);
    }
  }

  lemma MulSucc(a: nat, b: nat)
    ensures a * (b + 1) == a * b + a && (b + 1) * a == b * a + a
  {
  }
}
