/** Multiples, quotients and remainders. */
module Arith {

  lemma Multiple(x: int, y: int, q: nat)
    requires x < y
    ensures y * q >= x * q + q
  {
    assert (y - x - 1) * q >= 0;
    assert (y - x - 1) * q == y * q - x * q - q;
  }

  lemma DivIs(n: nat, q: nat, k: nat)
    requires q > 0 && k * q <= n < k * q + q
    ensures n / q == k
  {
    var m := n / q;
    assert m * q <= n < m * q + q;
    if m < k {
      Multiple(m, k, q);
    } else if m > k {
      Multiple(k, m, q);
    }
  }

  lemma DivModIs(n: nat, q: nat, k: nat, r: nat)
    requires r < q && n == k * q + r
    ensures n / q == k && n % q == r
  {
    DivIs(n, q, k);
    assert n == n / q * q + n % q;
  }

  lemma Regroup(q: nat, r: nat, m: nat, s: nat, t: nat)
    requires t == r * s
    ensures (q * r + m) * s == q * t + m * s
  {
  }

  /** A stretch of length s that starts at a multiple of s lies between two multiples of r * s. */
  lemma PartOfMultiple(x: nat, s: nat, r: nat, t: nat, k: nat)
    requires r > 0 && k < s && t == r * s
    ensures t > 0 && (x * s + k) / t == x * s / t && x * s % t + s <= t
  {
    var q, m := x / r, x % r;
    Multiple(0, r, s);
    Regroup(q, r, m, s, t);
    assert x == q * r + m;
    Multiple(m, r, s);
    DivModIs(x * s, t, q, m * s);
    DivModIs(x * s + k, t, q, m * s + k);
  }
}
