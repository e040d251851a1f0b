/** The arithmetic of memalign: powers of two, and the aligned spot inside a chunk. */
module MallocAlign {
  import opened Words
  import opened Arith
  import opened MallocHeap

  /** The least power of two from a up that is at least alignment. */
  function PowerFrom(a: nat, alignment: nat): (r: nat)
    requires a > 0
    ensures r >= a
    decreases if a < alignment then alignment - a else 0
  {
    if a >= alignment then a else PowerFrom(2 * a, alignment)
  }

  /** The alignment that memalign gives: 8 comes for free, others are powers of two from MINSIZE up. */
  function AlignTo(alignment: nat): (r: nat)
    ensures r >= 8
  {
    if alignment <= 8 then 8 else PowerFrom(MINSIZE, alignment)
  }

  lemma {:induction false} PowerFromBounds(k: nat, alignment: nat) returns (j: nat)
    requires k <= 31 && alignment <= 0x8000_0000
    ensures PowerFrom(Pow2(k), alignment) == Pow2(j) >= alignment && k <= j <= 31
    ensures j > k ==> Pow2(j - 1) < alignment
    decreases 31 - k
  {
    Powers();
    if Pow2(k) >= alignment {
      j := k;
    } else {
      if k == 31 { assert false; }
      j := PowerFromBounds(k + 1, alignment);
    }
  }

  /** A power of two from MINSIZE up is its own alignment. */
  lemma AlignToPower(n: nat)
    requires 4 <= n <= 31
    ensures AlignTo(Pow2(n)) == Pow2(n)
  {
    PowMono(n, 31);
    PowMono(4, n);
    Powers();
    assert Pow2(4) == 16;
    var j := PowerFromBounds(4, Pow2(n));
    if j < n { PowMono(j + 1, n); }
    if j > n { PowMono(n, j - 1); }
  }

  /** What is aligned as memalign aligns is a multiple of the power of two asked for. */
  lemma AlignedTo(x: nat, n: nat)
    requires n <= 31 && x % AlignTo(Pow2(n)) == 0
    ensures x % Pow2(n) == 0
  {
    if n >= 4 {
      AlignToPower(n);
    } else {
      assert Pow2(3) == 8 && Pow2(2) == 4 && Pow2(1) == 2 && Pow2(0) == 1;
      SmallMultiples(x);
    }
  }

  lemma SmallMultiples(x: nat)
    requires x % 8 == 0
    ensures x % 4 == 0 && x % 2 == 0 && x % 1 == 0
  {
    var q, r := Split(x, 8);
    ModUnique(x, 4, 2 * q, 0);
    ModUnique(x, 2, 4 * q, 0);
  }

  lemma {:induction false} AndSame(x: nat)
    ensures And(x, x) == x
  {
    if x > 0 { AndSame(x / 2); }
  }

  /** a & (a - 1) is zero exactly for powers of two. */
  lemma {:induction false} PowerTest(a: nat) returns (k: nat)
    requires a > 0
    ensures And(a, a - 1) == 0 <==> a == Pow2(k)
    ensures And(a, a - 1) != 0 ==> forall j {:trigger Pow2(j)} :: a != Pow2(j)
    decreases a
  {
    if a == 1 {
      k := 0;
    } else if a % 2 == 1 {
      AndSame(a / 2);
      k := 0;
    } else {
      k := PowerTest(a / 2);
      assert (a - 1) / 2 == a / 2 - 1 && And(a, a - 1) == 2 * And(a / 2, a / 2 - 1);
      k := k + 1;
      forall j: nat | And(a, a - 1) != 0 ensures a != Pow2(j) {
        if j > 0 { assert a / 2 != Pow2(j - 1); }
      }
    }
  }

  /** x & -2^k, on n-bit words, rounds down to a multiple of 2^k. */
  lemma AlignDown(x: nat, n: nat, k: nat)
    requires k <= n && x < Pow2(n) && Pow2(k) <= Pow2(n)
    ensures And(x, Pow2(n) - Pow2(k)) == x - x % Pow2(k)
  {
    var q, r := AlignParts(x, n, k, Pow2(n) - Pow2(k));
    ModUnique(x, Pow2(k), q, r);
  }

  lemma {:induction false} AlignParts(x: nat, n: nat, k: nat, mask: nat) returns (q: nat, r: nat)
    requires k <= n && x < Pow2(n) && mask == Pow2(n) - Pow2(k)
    ensures x == Pow2(k) * q + r && r < Pow2(k) && And(x, mask) == x - r
    decreases k
  {
    if k == 0 {
      AndAll(x, n);
      q, r := x, 0;
    } else {
      var s;
      var half := Pow2(n - 1) - Pow2(k - 1);
      PowMono(k - 1, n - 1);
      q, s := AlignParts(x / 2, n - 1, k - 1, half);
      AlignStep(x, mask, half, s);
      DoubleParts(x, Pow2(k - 1), q, s);
      r := 2 * s + x % 2;
    }
  }

  lemma AndAll(x: nat, n: nat)
    requires x < Pow2(n)
    ensures And(x, Pow2(n) - 1) == x
  {
    AndMask(x, n);
    ModUnique(x, Pow2(n), 0, x);
  }

  lemma AlignStep(x: nat, w: nat, y: nat, s: nat)
    requires w == 2 * y && And(x / 2, y) == x / 2 - s
    ensures And(x, w) == x - (2 * s + x % 2)
  {
    AndDouble(x, y);
  }

  lemma AndDouble(x: nat, y: nat)
    ensures And(x, 2 * y) == 2 * And(x / 2, y)
  {
    assert 2 * y / 2 == y;
  }

  lemma PowInRange(j: nat)
    requires MINSIZE <= Pow2(j) <= 0x8000_0000
    ensures 4 <= j <= 31
  {
    Powers();
    assert Pow2(4) == 16;
    if j > 31 { PowMono(32, j); }
    if j < 4 { PowMono(j + 1, 4); }
  }

  /** a = MALLOC_ALIGNMENT * 2, doubled until it reaches the alignment */
  method DoubleUp(alignment: nat) returns (a: nat, ghost k: nat)
    requires alignment <= 0x8000_0000
    ensures a == PowerFrom(MINSIZE, alignment) == Pow2(k) && 4 <= k <= 31
  {
    a := 16;
    k := 4;
    assert Pow2(4) == 16;
    while a < alignment
      invariant a == Pow2(k) && 4 <= k <= 31 && PowerFrom(a, alignment) == PowerFrom(MINSIZE, alignment)
      decreases 31 - k
    {
      BelowTop(k);
      a := Shl32(a, 1);
      k := k + 1;
    }
  }

  /** Shifting left by one moves a bit to the next position, or to zero past the last one. */
  lemma NextBit(k: nat)
    requires k < 32
    ensures Shl32(Pow2(k), 1) == if k + 1 == 32 then 0 else Pow2(k + 1)
  {
    Powers();
    assert Pow2(1) == 2;
    if k < 31 { PowMono(k + 1, 31); }
  }

  /** a after n rounds of the doubling, as a word */
  function DoubledWord(n: nat): nat {
    if n == 0 then 16 else Shl32(DoubledWord(n - 1), 1)
  }

  lemma {:induction false} DoubledPower(n: nat)
    ensures DoubledWord(n) == if n <= 27 then Pow2(n + 4) else 0
  {
    if n > 0 {
      DoubledPower(n - 1);
      if n <= 28 { NextBit(n + 3); }
    } else {
      SomePowers();
    }
  }

  /** The doubling comes to an end exactly for alignments up to 2^31; a larger one, which is no
      power of two, is never reached, because a becomes zero and stays so. */
  lemma DoublingEnds(alignment: nat)
    requires 0 < alignment < WORD
    ensures (exists n: nat :: DoubledWord(n) >= alignment) <==> alignment <= 0x8000_0000
    ensures alignment > 0x8000_0000 ==> And(alignment, alignment - 1) != 0
  {
    SomePowers();
    DoubledPower(27);
    forall n: nat | DoubledWord(n) >= alignment ensures alignment <= 0x8000_0000 {
      DoubledPower(n);
      if n <= 27 { PowMono(n + 4, 31); }
    }
    var k := PowerTest(alignment);
    if alignment > 0x8000_0000 && And(alignment, alignment - 1) == 0 {
      if k > 31 { PowMono(32, k); } else { PowMono(k, 31); }
    }
  }

  lemma BelowTop(k: nat)
    requires k <= 31 && Pow2(k) < 0x8000_0000
    ensures k < 31 && Shl32(Pow2(k), 1) == Pow2(k + 1)
  {
    SomePowers();
    NextBit(k);
  }

  /** The alignment used, computed as memalign does. */
  method Alignment(alignment: nat) returns (a: nat, ghost k: nat)
    requires 8 < alignment <= 0x8000_0000
    ensures a == AlignTo(alignment) == Pow2(k) && 4 <= k <= 31
  {
    a := if alignment < MINSIZE then MINSIZE else alignment;
    k := PowerTest(a);
    if And(a, a - 1) != 0 {
      a, k := DoubleUp(alignment);
    } else {
      PowInRange(k);
      AlignToPower(k);
    }
  }

  /** How far to move from the block m to an aligned spot: not at all if m is aligned, else
      far enough to leave at least MINSIZE bytes. */
  method Spot(m: nat, a: nat, ghost k: nat) returns (lead: nat)
    requires a == Pow2(k) && 4 <= k <= 31 && m % 8 == 0 && m + a <= WORD
    ensures (lead == 0 || MINSIZE <= lead <= a + 8) && lead % 8 == 0 && (m + lead) % a == 0
  {
    ghost var e := SpotArith(m, a, k);
    if m % a == 0 {
      return 0;
    }
    lead := And((m + a - 1) % WORD, WORD - a) - m;
    if lead < MINSIZE {
      lead := lead + a;
    }
  }

  /** The mask rounds m up by e, to an aligned address; so is the next one, a further. */
  lemma SpotArith(m: nat, a: nat, k: nat) returns (e: nat)
    requires a == Pow2(k) && 4 <= k <= 31 && m % 8 == 0 && m + a <= WORD
    ensures m % a == 0 ==> e == 0
    ensures m % a != 0 ==> And((m + a - 1) % WORD, WORD - a) == m + e && 8 <= e <= a - 8
    ensures e % 8 == 0 && (e + a) % 8 == 0 && (m + e) % a == 0 && (m + (e + a)) % a == 0
  {
    RoundDown(m + a - 1, a, k);
    var s := m % a;
    if s != 0 {
      RoundUp(m, a);
      OctetsBelow(a, s);
      e := a - s;
    } else {
      e := 0;
    }
    AddModulus(m + e, a);
  }

  lemma RoundDown(x: nat, a: nat, k: nat)
    requires a == Pow2(k) && 4 <= k <= 31 && x < WORD
    ensures 16 <= a < WORD && a % 8 == 0 && And(x % WORD, WORD - a) == x - x % a
  {
    PowMultiple(k);
    PowMono(4, k);
    PowMono(k, 31);
    SomePowers();
    AlignDown(x, 32, k);
    ModUnique(x, WORD, 0, x);
  }

  lemma SomePowers()
    ensures Pow2(4) == 16 && Pow2(31) == 0x8000_0000 && Pow2(32) == WORD
  {
    Powers();
  }

  lemma AddModulus(x: nat, a: nat)
    requires a > 0 && x % a == 0
    ensures (x + a) % a == 0
  {
    assert x == a * (x / a);
    ModUnique(x + a, a, x / a + 1, 0);
  }

  lemma MultipleMod(m: nat, a: nat)
    requires m % 8 == 0 && a % 8 == 0 && a > 0
    ensures m % a % 8 == 0
  {
    var e := a / 8;
    var q, r := m / 8 / e, m / 8 % e;
    assert m / 8 == e * q + r;
    assert m == 8 * (e * q) + 8 * r && 8 * (e * q) == (8 * e) * q;
    ModUnique(m, a, q, 8 * r);
  }

  /** Rounding m up to a multiple of a. */
  lemma RoundUp(m: nat, a: nat)
    requires a >= 16 && a % 8 == 0 && m % 8 == 0 && m % a != 0
    ensures 8 <= m % a <= a - 8 && m % a % 8 == 0
    ensures (m + a - 1) % a == m % a - 1 && (m + a - m % a) % a == 0
  {
    MultipleMod(m, a);
    var q, s := Divided(m, a);
    OctetsBelow(a, s);
    RoundUpParts(m, a, q, s);
  }

  lemma Divided(m: nat, a: nat) returns (q: nat, s: nat)
    requires a > 0
    ensures m == a * q + s && s == m % a && s < a
  {
    q, s := m / a, m % a;
  }

  lemma OctetsBelow(a: nat, s: nat)
    requires a % 8 == s % 8 == 0 && 0 < s < a
    ensures 8 <= s <= a - 8 && (a - s) % 8 == 0 && (a - s + a) % 8 == 0 && a % 8 == 0
  {
  }

  lemma RoundUpParts(m: nat, a: nat, q: nat, s: nat)
    requires 0 < s < a && m == a * q + s
    ensures (m + a - 1) % a == s - 1 && (m + a - s) % a == 0
  {
    assert a * (q + 1) == a * q + a;
    ModUnique(m + a - 1, a, q + 1, s - 1);
    ModUnique(m + a - s, a, q + 1, 0);
  }

  lemma PowMultiple(k: nat)
    requires k >= 3
    ensures Pow2(k) % 8 == 0
  {
    PowAdd(3, k - 3);
    assert Pow2(3) == 8;
  }
}
