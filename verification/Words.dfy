/** Unsigned 32-bit words as natural numbers: the C operators on them. */
module Words {
  import opened Arith

  const WORD := 0x1_0000_0000

  function Pow2(k: nat): (r: nat)
    ensures r >= 1
  {
    if k == 0 then 1 else 2 * Pow2(k - 1)
  }

  /** Bit k of v. */
  predicate Bit(v: nat, k: nat)
    decreases k
  {
    if k == 0 then v % 2 == 1 else Bit(v / 2, k - 1)
  }

  /** a & b */
  function And(a: nat, b: nat): (r: nat)
    ensures r <= a && r <= b
  {
    if a == 0 || b == 0 then 0 else (if a % 2 == 1 && b % 2 == 1 then 1 else 0) + 2 * And(a / 2, b / 2)
  }

  /** a | b */
  function Or(a: nat, b: nat): nat {
    a + b - And(a, b)
  }

  /** a & ~b */
  function AndNot(a: nat, b: nat): nat {
    a - And(a, b)
  }

  /** a - b, wrapping */
  function Sub32(a: nat, b: nat): nat
    requires a < WORD && b < WORD
  {
    (a - b + WORD) % WORD
  }

  /** a << k, dropping the bits that leave the word */
  function Shl32(a: nat, k: nat): nat {
    a * Pow2(k) % WORD
  }

  /** a >> k */
  function Shr(a: nat, k: nat): nat {
    Quotient(a, Pow2(k))
  }

  lemma {:induction false} AndBits(a: nat, b: nat, k: nat)
    ensures Bit(And(a, b), k) == (Bit(a, k) && Bit(b, k))
    decreases k
  {
    if a == 0 || b == 0 {
      NoBit(0, 0, k);
    } else if k > 0 {
      AndBits(a / 2, b / 2, k - 1);
    }
  }

  /** No bit from position k up is set in a word below 2^k. */
  lemma {:induction false} NoBit(v: nat, k: nat, j: nat)
    requires v < Pow2(k) && k <= j
    ensures !Bit(v, j)
    decreases j
  {
    if j > 0 {
      NoBit(v / 2, if k == 0 then 0 else k - 1, j - 1);
    }
  }

  lemma {:induction false} PowBit(k: nat, j: nat)
    ensures Bit(Pow2(k), j) == (j == k)
    decreases j
  {
    if k == 0 && j > 0 { NoBit(Pow2(0), 1, j); }
    if k > 0 && j > 0 { PowBit(k - 1, j - 1); }
  }

  lemma {:induction false} AndPow(v: nat, k: nat)
    ensures And(v, Pow2(k)) == if Bit(v, k) then Pow2(k) else 0
    decreases k
  {
    if k == 0 {
    } else if v == 0 {
      NoBit(0, 0, k);
    } else {
      AndPow(v / 2, k - 1);
    }
  }

  /** v & (2^k - 1) is the remainder modulo 2^k. */
  lemma AndMask(v: nat, k: nat)
    ensures And(v, Pow2(k) - 1) == v % Pow2(k)
  {
    var q := MaskParts(v, k);
    ModUnique(v, Pow2(k), q, And(v, Pow2(k) - 1));
  }

  lemma {:induction false} MaskParts(v: nat, k: nat) returns (q: nat)
    ensures v == Pow2(k) * q + And(v, Pow2(k) - 1) && And(v, Pow2(k) - 1) < Pow2(k)
    decreases k
  {
    if k == 0 {
      q := v;
    } else {
      q := MaskParts(v / 2, k - 1);
      OddAnd(v, Pow2(k) - 1, Pow2(k - 1) - 1);
      DoubleParts(v, Pow2(k - 1), q, And(v / 2, Pow2(k - 1) - 1));
    }
  }

  lemma DoubleParts(v: nat, p: nat, q: nat, r: nat)
    requires v / 2 == p * q + r
    ensures v == (2 * p) * q + (v % 2 + 2 * r)
  {
    Associate(2, p, q);
  }

  lemma OddAnd(v: nat, w: nat, q: nat)
    requires w == 2 * q + 1
    ensures And(v, w) == v % 2 + 2 * And(v / 2, q)
  {
    assert w % 2 == 1 && w / 2 == q;
  }

  /** Setting bit k leaves the other bits alone. */
  lemma {:induction false} OrPowBits(v: nat, k: nat, j: nat)
    ensures Bit(Or(v, Pow2(k)), j) == (j == k || Bit(v, j))
    decreases k
  {
    AndPow(v, k);
    if k > 0 {
      AndPow(v / 2, k - 1);
      assert Or(v, Pow2(k)) / 2 == Or(v / 2, Pow2(k - 1));
      if j > 0 {
        OrPowBits(v / 2, k - 1, j - 1);
      }
    }
  }

  /** Clearing bit k leaves the other bits alone. */
  lemma {:induction false} AndNotPowBits(v: nat, k: nat, j: nat)
    ensures Bit(AndNot(v, Pow2(k)), j) == (j != k && Bit(v, j))
    decreases k
  {
    AndPow(v, k);
    if k == 0 {
    } else {
      AndPow(v / 2, k - 1);
      assert AndNot(v, Pow2(k)) / 2 == AndNot(v / 2, Pow2(k - 1));
      if j > 0 {
        AndNotPowBits(v / 2, k - 1, j - 1);
      }
    }
  }

  lemma {:induction false} OrPowBound(v: nat, k: nat)
    requires v < Pow2(32) && k < 32
    ensures Or(v, Pow2(k)) < Pow2(32)
  {
    OrBound(v, k, 32);
  }

  lemma {:induction false} OrBound(v: nat, k: nat, n: nat)
    requires v < Pow2(n) && k < n
    ensures Or(v, Pow2(k)) < Pow2(n)
    decreases k
  {
    var p := Pow2(n - 1);
    if k > 0 {
      OrHalf(v, k);
      OrBound(v / 2, k - 1, n - 1);
    } else {
      AndPow(v, 0);
      OrOne(v, p);
    }
  }

  lemma OrHalf(v: nat, k: nat)
    requires k > 0
    ensures Or(v, Pow2(k)) == 2 * Or(v / 2, Pow2(k - 1)) + v % 2
  {
    AndPow(v, k);
    AndPow(v / 2, k - 1);
  }

  lemma OrOne(v: nat, p: nat)
    requires v < 2 * p && And(v, 1) == v % 2
    ensures Or(v, 1) < 2 * p
  {
  }

  lemma {:induction false} PowMono(j: nat, k: nat)
    requires j <= k
    ensures Pow2(j) <= Pow2(k)
    decreases k
  {
    if j < k { PowMono(j, k - 1); }
  }

  lemma {:induction false} PowAdd(j: nat, k: nat)
    ensures Pow2(j + k) == Pow2(j) * Pow2(k)
    decreases k
  {
    if k > 0 { PowAdd(j, k - 1); }
  }

  /** A word of at least 2^k without bit k has a higher bit. */
  lemma {:induction false} HigherBit(v: nat, k: nat)
    requires v >= Pow2(k) && !Bit(v, k)
    ensures v >= Pow2(k + 1)
    decreases k
  {
    if k > 0 { HigherBit(v / 2, k - 1); }
  }

  lemma Powers()
    ensures Pow2(3) == 8 && Pow2(5) == 32 && Pow2(6) == 64 && Pow2(8) == 256
    ensures Pow2(14) == 0x4000 && Pow2(16) == 0x1_0000 && Pow2(31) == 0x8000_0000 && Pow2(32) == WORD
  {
    assert Pow2(8) == 256;
    PowAdd(6, 8);
    PowAdd(8, 8);
    PowAdd(16, 16);
    PowAdd(31, 1);
  }

  /** The largest m with 2^m <= x. */
  function Log2(x: nat): (m: nat)
    requires x > 0
  {
    if x == 1 then 0 else 1 + Log2(x / 2)
  }

  lemma {:induction false} Log2Bounds(x: nat)
    requires x > 0
    ensures Pow2(Log2(x)) <= x < 2 * Pow2(Log2(x))
  {
    if x > 1 { Log2Bounds(x / 2); }
  }

  lemma {:induction false} Log2Unique(x: nat, m: nat)
    requires Pow2(m) <= x < 2 * Pow2(m)
    ensures Log2(x) == m
  {
    if m > 0 { Log2Unique(x / 2, m - 1); }
  }

  lemma {:induction false} Log2Mono(x: nat, y: nat)
    requires 0 < x <= y
    ensures Log2(x) <= Log2(y)
  {
    if x > 1 { Log2Mono(x / 2, y / 2); }
  }
}
