/** Facts about division that the solver does not find by itself. */
module Arithmetic {

  lemma DivModUnique(n: nat, d: nat, q: nat, r: nat)
    requires d > 0 && r < d && n == d * q + r
    ensures n / d == q && n % d == r
  {
    Unique(d, q, r, n / d, n % d);
  }

  lemma Unique(d: nat, q: nat, r: nat, k: nat, m: nat)
    requires r < d && m < d && d * q + r == d * k + m
    ensures q == k && r == m
  {
    if q < k {
      Apart(d, q, k);
    } else if k < q {
      Apart(d, k, q);
    }
  }

  lemma Apart(d: nat, q: nat, k: nat)
    requires q < k
    ensures d * q + d <= d * k
  {
    assert d * (k - q - 1) >= 0;
  }

  lemma DivBounds(n: nat, d: nat, k: nat)
    requires d > 0 && k * d <= n < (k + 1) * d
    ensures n / d == k
  {
    var q := n / d;
    assert q * d <= n < (q + 1) * d;
    assert q < k ==> (q + 1) * d <= k * d;
    assert q > k ==> (k + 1) * d <= q * d;
  }

  lemma MulDiv(q: nat, a: nat)
    requires a > 0
    ensures (q * a) / a == q
  {
    DivModUnique(q * a, a, q, 0);
  }

  lemma ModMore(x: nat, m: nat, d: nat)
    requires d > 0
    ensures (x + m * d) % d == x % d
  {
    var q := x / d;
    assert x + m * d == d * (q + m) + x % d;
    DivModUnique(x + m * d, d, q + m, x % d);
  }
}
