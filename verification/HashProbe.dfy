/** The probe sequence of `kernel/hash.c`: index = 5 * index + perturb + 1 on 32-bit words.
    Once perturb has run out, it is one cycle through all slots. */
module HashProbe {
  import opened Words
  import opened Arith

  /** n steps of x -> 5x + 1, without wrapping */
  function Iter(n: nat, x: nat): (y: nat)
  {
    if n == 0 then x else 5 * Iter(n - 1, x) + 1
  }

  lemma {:induction false} IterAdd(m: nat, n: nat, x: nat)
    ensures Iter(m + n, x) == Iter(n, Iter(m, x))
  {
    if n > 0 { IterAdd(m, n - 1, x); }
  }

  /** The jump of 2^k steps multiplies by f and adds g: f is 1 modulo 4 * 2^k, and g an odd
      multiple of 2^k. */
  ghost predicate Jump(k: nat, f: nat, g: nat, a: nat, b: nat) {
    && f == 1 + 4 * (Pow2(k) * a) && g == Pow2(k) * (2 * b + 1)
    && forall x: nat {:trigger Iter(Pow2(k), x)} :: Iter(Pow2(k), x) == f * x + g
  }

  lemma {:induction false} Jumps(k: nat) returns (f: nat, g: nat, a: nat, b: nat)
    ensures Jump(k, f, g, a, b)
  {
    if k == 0 {
      f, g, a, b := 5, 1, 1, 0;
      forall x: nat ensures Iter(Pow2(0), x) == 5 * x + 1 {
        assert Iter(1, x) == 5 * Iter(0, x) + 1;
      }
    } else {
      var f1, g1, a1, b1 := Jumps(k - 1);
      var p := Pow2(k - 1);
      f, g := f1 * f1, f1 * g1 + g1;
      var w := p * a1;
      a, b := a1 + 2 * (w * a1), b1 + w * (2 * b1 + 1);
      SquareFactor(p, a1, w, f1);
      SquareTerm(p, w, b1, f1, g1);
      forall x: nat ensures Iter(Pow2(k), x) == f * x + g {
        IterAdd(p, p, x);
        assert Iter(p, Iter(p, x)) == f1 * Iter(p, x) + g1;
        Twice(f1, g1, x);
      }
    }
  }

  lemma Twice(f: nat, g: nat, x: nat)
    ensures f * (f * x + g) + g == (f * f) * x + (f * g + g)
  {
    Distribute(f, f * x, g);
    Associate(f, f, x);
  }

  lemma SquareFactor(p: nat, a: nat, w: nat, f: nat)
    requires w == p * a && f == 1 + 4 * w
    ensures f * f == 1 + 4 * ((2 * p) * (a + 2 * (w * a)))
  {
    Distribute(f, 1, 4 * w);
    Distribute(4 * w, 1, 4 * w);
    Distribute(2 * p, a, 2 * (w * a));
    Associate(w, p, a);
    Associate(p, w, a);
    assert (2 * p) * (2 * (w * a)) == 4 * (p * (w * a));
    assert p * w == w * p && (2 * p) * a == 2 * w;
    assert (4 * w) * (4 * w) == 16 * (w * w);
  }

  lemma SquareTerm(p: nat, w: nat, b: nat, f: nat, g: nat)
    requires f == 1 + 4 * w && g == p * (2 * b + 1)
    ensures f * g + g == (2 * p) * (2 * (b + w * (2 * b + 1)) + 1)
  {
    var o := 2 * b + 1;
    Associate(p, w, o);
    Associate(w, p, o);
    assert p * w == w * p;
    assert 2 * (b + w * o) + 1 == o + 2 * (w * o);
    Distribute(2 * p, o, 2 * (w * o));
    assert (2 * p) * o == 2 * g;
    assert (2 * p) * (2 * (w * o)) == 4 * (p * (w * o));
    assert f * g == g + 4 * (w * g);
  }

  /** Every slot of a table of 2^k is reached from x within 2^k steps. */
  lemma {:induction false} FullCycle(k: nat, x: nat, t: nat) returns (n: nat, q: nat)
    requires t < Pow2(k)
    ensures n < Pow2(k) && Iter(n, x) == Pow2(k) * q + t
  {
    if k == 0 {
      n, q := 0, x;
    } else {
      var p := Pow2(k - 1);
      var u, upper := if t < p then t else t - p, if t < p then 0 else 1;
      n, q := FullCycle(k - 1, x, u);
      n, q := PickHalf(k - 1, x, n, q, u, upper);
      Halve(p, q, upper);
      q := q / 2;
    }
  }

  /** With or without one more jump, the quotient is even or odd as wanted. */
  lemma PickHalf(k: nat, x: nat, n: nat, q: nat, u: nat, upper: nat) returns (n': nat, q': nat)
    requires Iter(n, x) == Pow2(k) * q + u && upper < 2
    ensures n <= n' <= n + Pow2(k) && q' % 2 == upper && Iter(n', x) == Pow2(k) * q' + u
  {
    n', q' := n, q;
    if q % 2 != upper {
      var p := Pow2(k);
      var f, g, a, b := Jumps(k);
      var y := Iter(n, x);
      IterAdd(n, p, x);
      assert Iter(p, y) == f * y + g;
      q' := Shift(p, f, g, a, b, q, u, y);
      n' := n + p;
    }
  }

  /** A jump of p steps changes the parity of the quotient. */
  lemma Shift(p: nat, f: nat, g: nat, a: nat, b: nat, q: nat, u: nat, y: nat) returns (q': nat)
    requires y == p * q + u && f == 1 + 4 * (p * a) && g == p * (2 * b + 1)
    ensures f * y + g == p * q' + u
    ensures q' % 2 != q % 2
  {
    var z := a * y;
    q' := q + 4 * z + 2 * b + 1;
    Associate(p, a, y);
    assert f * y == y + 4 * ((p * a) * y);
    Distribute(p, q + 4 * z, 2 * b + 1);
    Distribute(p, q, 4 * z);
    assert p * (4 * z) == 4 * (p * z);
    Parity(q, 2 * z + b);
  }

  lemma Parity(q: nat, w: nat)
    ensures (q + 2 * w + 1) % 2 != q % 2
  {
  }

  lemma Halve(p: nat, q: nat, r: nat)
    requires r < 2 && q % 2 == r
    ensures p * q == 2 * p * (q / 2) + r * p
  {
    var h := q / 2;
    assert q == 2 * h + r;
    assert p * (2 * h) == 2 * p * h;
  }

  // ------------------------------------------------- the code's sequence

  /** index and perturb after n steps from a hash code; only the first index is masked */
  function Index(hash: nat, size: nat, n: nat): nat
    requires size > 0
  {
    if n == 0 then hash % size else (5 * Index(hash, size, n - 1) + Perturb(hash, n - 1) + 1) % WORD
  }

  function Perturb(hash: nat, n: nat): nat {
    if n == 0 then hash else Shr(Perturb(hash, n - 1), 5)
  }

  /** The slot that probe n looks at, in a table of the given size. */
  function Probe(hash: nat, size: nat, n: nat): (s: nat)
    requires size > 0
    ensures s < size
  {
    Index(hash, size, n) % size
  }

  /** After n steps perturb is the hash code without its last 5n bits. */
  lemma {:induction false} PerturbIs(hash: nat, n: nat)
    ensures Perturb(hash, n) == Quotient(hash, Pow2(5 * n))
  {
    if n > 0 {
      PerturbIs(hash, n - 1);
      PowAdd(5 * (n - 1), 5);
      DividedTwice(hash, Pow2(5 * (n - 1)), Pow2(5));
    }
  }

  lemma DividedTwice(v: nat, a: nat, b: nat)
    requires a > 0 && b > 0
    ensures a * b > 0 && Quotient(Quotient(v, a), b) == Quotient(v, a * b)
  {
    Positive(a, b);
    var q, r := Split(v, a);
    var t, s := Split(q, b);
    Associate(a, b, t);
    Distribute(a, b * t, s);
    MulMono(s + 1, b, a);
    Distribute(a, s, 1);
    ModUnique(v, a * b, t, a * s + r);
  }

  /** perturb is zero after seven steps. */
  lemma {:induction false} PerturbEnds(hash: nat, n: nat)
    requires hash < WORD
    ensures n <= 6 ==> Perturb(hash, n) < Pow2(32 - 5 * n)
    ensures n >= 7 ==> Perturb(hash, n) == 0
  {
    if n == 0 {
      Powers();
    } else {
      PerturbEnds(hash, n - 1);
      if n <= 6 { PowAdd(32 - 5 * n, 5); }
      FiveBits(Perturb(hash, n - 1), if n <= 6 then Pow2(32 - 5 * n) else 1);
    }
  }

  /** Shifting by five divides by 32. */
  lemma FiveBits(v: nat, p: nat)
    requires v < p * 32
    ensures Pow2(5) == 32 && Pow2(2) == 4 && Shr(v, 5) < p
  {
    Powers();
    assert Pow2(2) == 4;
  }

  /** From then on, the index is the plain iteration, modulo the word. */
  lemma {:induction false} Settled(hash: nat, size: nat, n: nat)
    requires hash < WORD && size > 0
    ensures Index(hash, size, 7 + n) % WORD == Iter(n, Index(hash, size, 7)) % WORD
  {
    if n > 0 {
      Settled(hash, size, n - 1);
      var i, j := Index(hash, size, 7 + n - 1), Iter(n - 1, Index(hash, size, 7));
      StepMod(i, j);
      SettledStep(hash, size, n);
    }
  }

  lemma SettledStep(hash: nat, size: nat, n: nat)
    requires hash < WORD && size > 0 && n > 0
    ensures Index(hash, size, 7 + n) % WORD == (5 * Index(hash, size, 7 + n - 1) + 1) % WORD
  {
    PerturbEnds(hash, 7 + n - 1);
    var i := Index(hash, size, 7 + n - 1);
    assert Index(hash, size, 7 + n) == (5 * i + 0 + 1) % WORD;
    var q, r := Split(5 * i + 1, WORD);
    ModUnique(r, WORD, 0, r);
  }

  lemma StepMod(i: nat, j: nat)
    requires i % WORD == j % WORD
    ensures (5 * i + 1) % WORD == (5 * j + 1) % WORD
  {
    var a, r := Split(i, WORD);
    var b, r' := Split(j, WORD);
    var e, s := Split(5 * r + 1, WORD);
    ModUnique(5 * i + 1, WORD, 5 * a + e, s);
    ModUnique(5 * j + 1, WORD, 5 * b + e, s);
  }

  lemma {:induction false} ModDivides(v: nat, w: nat, k: nat, j: nat)
    requires v % Pow2(k + j) == w % Pow2(k + j)
    ensures v % Pow2(k) == w % Pow2(k)
  {
    PowAdd(k, j);
    var p, q := Pow2(k), Pow2(j);
    var m := p * q;
    NestedMod(v, p, q);
    NestedMod(w, p, q);
  }

  lemma NestedMod(v: nat, p: nat, q: nat)
    requires p > 0 && q > 0
    ensures p * q > 0 && v % (p * q) % p == v % p
  {
    Positive(p, q);
    var m := p * q;
    var a, r := Split(v, m);
    var b, s := Split(r, p);
    Associate(p, q, a);
    Distribute(p, q * a, b);
    ModUnique(v, p, q * a + b, s);
  }

  /** Every slot is probed within 7 + 2^k steps, whatever the hash code. */
  lemma ProbesAll(hash: nat, k: nat, t: nat) returns (n: nat)
    requires hash < WORD && k <= 32 && t < Pow2(k)
    ensures n < 7 + Pow2(k) && Probe(hash, Pow2(k), n) == t
  {
    var m, q := FullCycle(k, Index(hash, Pow2(k), 7), t);
    ModUnique(Iter(m, Index(hash, Pow2(k), 7)), Pow2(k), q, t);
    n := 7 + m;
    Settled(hash, Pow2(k), m);
    Powers();
    ModDivides(Index(hash, Pow2(k), n), Iter(m, Index(hash, Pow2(k), 7)), k, 32 - k);
  }
}
