/** Elementary facts about products and quotients, one at a time. */
module Arith {

  lemma Distribute(a: int, b: int, c: int)
    ensures a * (b + c) == a * b + a * c
  {
  }

  lemma Associate(a: int, b: int, c: int)
    ensures a * (b * c) == (a * b) * c
  {
  }

  lemma Commute(a: int, b: int)
    ensures a * b == b * a
  {
  }

  lemma MulMono(a: int, b: int, c: nat)
    requires a <= b
    ensures a * c <= b * c && c * a <= c * b
  {
  }

  /** v divided by m, with remainder */
  lemma Split(v: nat, m: nat) returns (q: nat, r: nat)
    requires m > 0
    ensures v == m * q + r && q == v / m && r == v % m && r < m
  {
    q, r := v / m, v % m;
  }

  lemma Positive(p: nat, q: nat)
    requires p > 0 && q > 0
    ensures p * q > 0
  {
  }

  /** Fewer than n times m fit in m * n. */
  lemma QuotientBelow(m: nat, q: nat, r: nat, n: nat)
    requires m > 0 && m * q + r < m * n
    ensures q < n
  {
    if q >= n { MulMono(n, q, m); }
  }

  /** a / b, of natural numbers */
  function Quotient(a: nat, b: nat): nat
    requires b > 0
  {
    a / b
  }

  /** Division with remainder has one answer. */
  lemma ModUnique(v: nat, m: nat, q: nat, r: nat)
    requires m > 0 && v == m * q + r && r < m
    ensures v % m == r && v / m == q
  {
    var p, s := Split(v, m);
    if p < q {
      MulMono(p + 1, q, m);
      Distribute(m, p, 1);
    } else if q < p {
      MulMono(q + 1, p, m);
      Distribute(m, q, 1);
    }
  }

  /** Halving commutes with division by p and by 2p. */
  lemma HalfMod(v: nat, p: nat)
    requires p > 0
    ensures v % (2 * p) == 2 * (v / 2 % p) + v % 2
    ensures v / (2 * p) == v / 2 / p
  {
    var h, b := Split(v, 2);
    var q, r := Split(h, p);
    Associate(2, p, q);
    ModUnique(v, 2 * p, q, 2 * r + b);
  }

  /** Multiples of 8 */
  lemma Octets(a: int, b: int)
    requires a % 8 == b % 8 == 0
    ensures (a - b) % 8 == 0 && (a + b) % 8 == 0
  {
  }
}
