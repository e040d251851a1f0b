/** Bin indexing of `shared/malloc.c`: the branch-free index computation and what it means. */
module MallocBins {
  import opened Words
  import opened Arith

  /** The bin of a chunk size: one bin per size below 256, then four bins per power of two. */
  ghost function IndexOf(size: nat): int {
    if size < 256 then size / 8
    else if size >= 0x100_0000 then 95
    else var m := Log2(size / 256); 28 + 4 * m + size / Pow2(m + 6)
  }

  /** A size of log class m has a quotient by 2^(m+6) of 4, 5, 6 or 7. */
  lemma ClassQuotient(size: nat)
    requires 256 <= size < 0x100_0000
    ensures var m := Log2(size / 256); m < 16 && 4 <= size / Pow2(m + 6) <= 7
  {
    var m := Log2(size / 256);
    var p := Pow2(m);
    Log2Bounds(size / 256);
    Powers();
    if m >= 16 { PowMono(16, m); }
    PowAdd(m, 6);
    assert 256 * p <= size < 512 * p;
    QuotientBounds(size, 64 * p, 4, 8);
  }

  lemma QuotientBounds(v: nat, d: nat, lo: nat, hi: nat)
    requires d > 0 && lo * d <= v < hi * d
    ensures lo <= v / d < hi
  {
    var q := v / d;
    assert v == d * q + v % d;
    assert q < lo ==> d * (q + 1) <= d * lo;
    assert q >= hi ==> d * q >= d * hi;
  }

  /** Indexes of legal chunk sizes name real bins, above the unsorted one. */
  lemma IndexRange(size: nat)
    requires 16 <= size
    ensures 2 <= IndexOf(size) <= 95 && (IndexOf(size) < 32 <==> size < 256)
  {
    if 256 <= size < 0x100_0000 { ClassQuotient(size); }
  }

  /** Four bins for each power of two, of equal width: bin 32 + 4m + r holds the sizes from
      (4 + r) * 2^(m + 6) up to the next such bound, for m below 16. */
  lemma IndexBounds(size: nat, m: nat, r: nat)
    requires 256 <= size < 0x100_0000 && m < 16 && r < 4
    ensures IndexOf(size) == 32 + 4 * m + r <==> (4 + r) * Pow2(m + 6) <= size < (5 + r) * Pow2(m + 6)
  {
    ClassQuotient(size);
    var k := Log2(size / 256);
    var q := size / Pow2(k + 6);
    if IndexOf(size) == 32 + 4 * m + r {
      SameIndex(k, q, m, r);
      QuotientOf(size, Pow2(m + 6), 4 + r);
    } else if (4 + r) * Pow2(m + 6) <= size < (5 + r) * Pow2(m + 6) {
      SameClass(size, m, r);
      QuotientBounds(size, Pow2(m + 6), 4 + r, 5 + r);
    }
  }

  lemma SameIndex(k: nat, q: nat, m: nat, r: nat)
    requires 4 <= q <= 7 && r < 4 && 28 + 4 * k + q == 32 + 4 * m + r
    ensures k == m && q == 4 + r
  {
  }

  lemma QuotientOf(v: nat, d: nat, q: nat)
    requires d > 0 && v / d == q
    ensures q * d <= v < (q + 1) * d
  {
    var _, r := Split(v, d);
    Distribute(d, q, 1);
  }

  lemma SameClass(size: nat, m: nat, r: nat)
    requires (4 + r) * Pow2(m + 6) <= size < (5 + r) * Pow2(m + 6) && r < 4
    ensures size >= 256 && Log2(size / 256) == m
  {
    var p := Pow2(m);
    PowAdd(m, 6);
    assert Pow2(6) == 64;
    assert Pow2(m + 6) == 64 * p;
    MulMono(4, 4 + r, 64 * p);
    MulMono(5 + r, 8, 64 * p);
    QuotientBounds(size, 256, p, 2 * p);
    Log2Unique(size / 256, m);
  }

  /** Larger chunks never go to lower bins. */
  lemma IndexMono(a: nat, b: nat)
    requires 16 <= a <= b
    ensures IndexOf(a) <= IndexOf(b)
  {
    IndexRange(a);
    IndexRange(b);
    if 256 <= a && b < 0x100_0000 {
      ClassQuotient(a);
      ClassQuotient(b);
      Log2Mono(a / 256, b / 256);
      var m := Log2(a / 256);
      if m == Log2(b / 256) {
        DivMono(a, b, Pow2(m + 6));
      }
    }
  }

  lemma DivMono(a: nat, b: nat, d: nat)
    requires a <= b && d > 0
    ensures a / d <= b / d
  {
    var q, r := a / d, b / d;
    assert d * q <= a && b < d * (r + 1);
    assert q > r ==> d * q >= d * (r + 1);
  }

  // --------------------------------------------------- the code's computation

  /** The upper half of the wrapped difference v - bound is all ones or all zeros. */
  lemma UpperHalf(v: nat, bound: nat)
    requires v < 0x1_0000 && 0 < bound <= 0x1_0000
    ensures Shr(Sub32(v, bound), 16) == if v < bound then 0xFFFF else 0
  {
    var d := Sub32(v, bound);
    Powers();
    assert d == if v < bound then v - bound + WORD else v - bound;
    assert Shr(d, 16) == d / 0x1_0000;
  }

  /** One halving step: the mask taken from that half is 2^k exactly when v is below the bound. */
  lemma StepMask(v: nat, bound: nat, k: nat)
    requires v < 0x1_0000 && 0 < bound <= 0x1_0000 && k < 16
    ensures And(Shr(Sub32(v, bound), 16), Pow2(k)) == if v < bound then Pow2(k) else 0
  {
    UpperHalf(v, bound);
    AndPow(0xFFFF, k);
    AndPow(0, k);
    NoBit(0, 0, k);
    Ones(16, k);
    Powers();
  }

  lemma {:induction false} Ones(n: nat, k: nat)
    requires k < n
    ensures Bit(Pow2(n) - 1, k)
    decreases k
  {
    if k > 0 {
      Ones(n - 1, k - 1);
      assert (Pow2(n) - 1) / 2 == Pow2(n - 1) - 1;
    }
  }

  lemma LastTwoBits(x: nat)
    requires 1 <= x <= 3
    ensures And(x, AndNot(WORD - 1, Shr(x, 1))) == if x == 1 then 1 else 2
  {
    AndPow(WORD - 1, 0);
    assert And(1, WORD - 1) == 1;
    assert And(3, WORD - 2) == 2;
    assert And(2, WORD - 2) == 2;
  }

  /** ((v - bound) >> 16) & bits */
  function Mask(v: nat, bound: nat, bits: nat): nat
    requires v < WORD && bound < WORD
  {
    And(Shr(Sub32(v, bound), 16), bits)
  }

  lemma Shifted(v: nat, bits: nat, scale: nat)
    requires scale == Pow2(bits) && v * scale < 0x1_0000
    ensures Shl32(v, bits) == v * scale
  {
  }

  /** A halving step shifts v up by bits = 2^k places exactly when it lies below the bound. */
  lemma Step(v: nat, bound: nat, k: nat, bits: nat, scale: nat)
    requires v < 0x1_0000 && 0 < bound <= 0x1_0000 && k < 4
    requires bits == Pow2(k) && scale == Pow2(bits) && bound * scale <= 0x1_0000
    ensures Mask(v, bound, bits) == if v < bound then bits else 0
    ensures var y := Shl32(v, Mask(v, bound, bits));
            y == v * Pow2(Mask(v, bound, bits)) && y < 0x1_0000
            && y == if v < bound then v * scale else v
  {
    StepMask(v, bound, k);
    if v < bound {
      MulMono(v + 1, bound, scale);
      Distribute(scale, v, 1);
    }
    Shifted(v, if v < bound then bits else 0, if v < bound then scale else 1);
  }

  /** Scaling x by 2^t into the range [2^14, 2^16) reveals its logarithm. */
  lemma {:induction false} ScaledLog(x: nat, t: nat, y: nat)
    requires x > 0 && y == x * Pow2(t) && 0x4000 <= y < 0x1_0000
    ensures Log2(x) + t == if y < 0x8000 then 14 else 15
  {
    Log2Scaled(x, t);
    Powers();
    Log2Unique(y, if y < 0x8000 then 14 else 15);
  }

  lemma {:induction false} Log2Scaled(x: nat, t: nat)
    requires x > 0
    ensures x * Pow2(t) > 0 && Log2(x * Pow2(t)) == Log2(x) + t
  {
    if t > 0 {
      Log2Scaled(x, t - 1);
      assert x * Pow2(t) == 2 * (x * Pow2(t - 1));
    }
  }

  /** The branch-free search for the highest set bit of x computes floor(log2 x). */
  function HighBit(x: nat): (m: nat)
    requires 1 <= x < 0x1_0000
    ensures m == Log2(x) && m < 16
  {
    HighBitCorrect(x);
    var n := Mask(x, 0x100, 8);
    var x1 := Shl32(x, n);
    var m1 := Mask(x1, 0x1000, 4);
    var x2 := Shl32(x1, m1);
    var m2 := Mask(x2, 0x4000, 2);
    var x3 := Shr(Shl32(x2, m2), 14);
    13 - (n + m1 + m2) + And(x3, AndNot(WORD - 1, Shr(x3, 1)))
  }

  lemma HighBitCorrect(x: nat)
    requires 1 <= x < 0x1_0000
    ensures var n := Mask(x, 0x100, 8);
            var x1 := Shl32(x, n);
            x1 < WORD &&
            var m1 := Mask(x1, 0x1000, 4);
            var x2 := Shl32(x1, m1);
            x2 < WORD &&
            var m2 := Mask(x2, 0x4000, 2);
            var x3 := Shr(Shl32(x2, m2), 14);
            && 13 - (n + m1 + m2) + And(x3, AndNot(WORD - 1, Shr(x3, 1))) == Log2(x)
            && Log2(x) < 16
  {
    assert Pow2(1) == 2 && Pow2(2) == 4 && Pow2(3) == 8 && Pow2(4) == 16 && Pow2(8) == 256;
    var t1 := Mask(x, 0x100, 8);
    Step(x, 0x100, 3, 8, 256);
    var x1 := Shl32(x, t1);
    var t2 := Mask(x1, 0x1000, 4);
    Step(x1, 0x1000, 2, 4, 16);
    var x2 := Shl32(x1, t2);
    var t3 := Mask(x2, 0x4000, 2);
    Step(x2, 0x4000, 1, 2, 4);
    var y := Shl32(x2, t3);
    Scales(x, t1, x1, t2, x2, t3, y);
    ScaledLog(x, t1 + t2 + t3, y);
    LastStep(y);
  }

  lemma LastStep(y: nat)
    requires 0x4000 <= y < 0x1_0000
    ensures var x3 := Shr(y, 14); And(x3, AndNot(WORD - 1, Shr(x3, 1))) == if y < 0x8000 then 1 else 2
  {
    assert Pow2(14) == 0x4000;
    LastTwoBits(y / 0x4000);
  }

  lemma Scales(x: nat, t1: nat, x1: nat, t2: nat, x2: nat, t3: nat, y: nat)
    requires x1 == x * Pow2(t1) && x2 == x1 * Pow2(t2) && y == x2 * Pow2(t3)
    ensures y == x * Pow2(t1 + t2 + t3)
  {
    PowAdd(t1, t2);
    PowAdd(t1 + t2, t3);
    Associate(x, Pow2(t1), Pow2(t2));
    Associate(x, Pow2(t1 + t2), Pow2(t3));
  }

  /** largebin_index */
  function LargeBinIndex(size: nat): (i: int)
    requires 256 <= size < WORD
    ensures i == IndexOf(size)
  {
    var x := Shr(size, 8);
    HighPart(size);
    if x >= 0x1_0000 then 95
    else
      var m := HighBit(x);
      LogIndex(size, m);
      32 + 4 * m + And(Shr(size, m + 6), 3)
  }

  lemma HighPart(size: nat)
    ensures Shr(size, 8) == size / 256 && (size / 256 >= 0x1_0000 <==> size >= 0x100_0000)
    ensures size >= 0x100_0000 ==> IndexOf(size) == 95
  {
    assert Pow2(8) == 256;
  }

  lemma LogIndex(size: nat, m: nat)
    requires 256 <= size < 0x100_0000 && m == Log2(size / 256)
    ensures IndexOf(size) == 32 + 4 * m + And(Shr(size, m + 6), 3)
  {
    LowTwoBits(size);
  }

  lemma LowTwoBits(size: nat)
    requires 256 <= size < 0x100_0000
    ensures And(Shr(size, Log2(size / 256) + 6), 3) == size / Pow2(Log2(size / 256) + 6) - 4
  {
    ClassQuotient(size);
    AndMask(size / Pow2(Log2(size / 256) + 6), 2);
    assert Pow2(2) == 4;
  }

  /** smallbin_index */
  function SmallBinIndex(size: nat): (i: int)
    ensures size < 256 ==> i == IndexOf(size)
  {
    assert Pow2(3) == 8;
    Shr(size, 3)
  }
}
