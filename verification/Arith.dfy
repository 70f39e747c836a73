/** Facts about products that the solver needs one at a time. */
module Arith {
  lemma {:induction false} Product(a: int, b: int)
    requires a >= 0 && b >= 0
    ensures a * b >= 0
  {
  }

  lemma {:induction false} Monotone(a: int, b: int, m: int)
    requires m >= 0
    ensures a <= b ==> a * m <= b * m
  {
    if a <= b {
      Product(b - a, m);
      assert (b - a) * m == b * m - a * m;
    }
  }

  lemma {:induction false} RemainderIs(q: nat, r: nat, m: nat)
    requires r < m
    ensures (m * q + r) % m == r
  {
    var d, s := (m * q + r) / m, (m * q + r) % m;
    assert m * (q - d) == s - r;
    FactorAtLeastOne(q - d, m);
  }

  lemma {:induction false} FactorAtLeastOne(k: int, p: nat)
    ensures k >= 1 ==> p * k >= p
    ensures k <= -1 ==> p * k + p <= 0
  {
  }

  lemma {:induction false} Distribute(m: int, p: int, q: int)
    ensures m * (p + q) == m * p + m * q
  {
  }

  /** Reducing a summand first changes nothing. */
  lemma {:induction false} ModAdd(x: nat, k: nat, m: nat)
    requires m > 0
    ensures (x % m + k) % m == (x + k) % m
  {
    var q, r := x / m, x % m;
    var d, s := (r + k) / m, (r + k) % m;
    assert x + k == m * q + (m * d + s);
    Distribute(m, q, d);
    RemainderIs(q + d, s, m);
  }
}
