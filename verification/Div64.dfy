/** 64-bit division out of the 32-bit divl instruction (`shared/div64.c`), against the plain
    shift-and-subtract division (`kernel/tests/lib/math.c`). */
module Div64 {
  import opened Words
  import opened Arith

  const DWORD := 0x1_0000_0000_0000_0000

  /** A quotient with its remainder, or the processor's divide error. */
  datatype Result = Quotient(q: nat, rem: nat) | Fault

  // -------------------------------------------------------- instructions

  /** divl: 64 by 32 bits; it faults on a zero divisor and when the quotient does not fit. */
  function Divl(hi: nat, lo: nat, d: nat): Result
    requires hi < WORD && lo < WORD && d < WORD
  {
    if d == 0 || hi >= d then Fault else Quotient((hi * WORD + lo) / d, (hi * WORD + lo) % d)
  }

  lemma DivlFits(hi: nat, lo: nat, d: nat)
    requires hi < d < WORD && lo < WORD
    ensures var q, r := (hi * WORD + lo) / d, (hi * WORD + lo) % d;
            q < WORD && r < d && hi * WORD + lo == d * q + r
  {
    var q, r := Split(hi * WORD + lo, d);
    MulMono(hi + 1, d, WORD);
    QuotientBelow(d, q, r, WORD);
  }

  /** shrdl by the low five bits of c: the double word hi:lo shifted right, low half. */
  function Shrd(hi: nat, lo: nat, c: nat): nat
    requires hi < WORD && lo < WORD
  {
    var n := c % 32;
    if n == 0 then lo else Shr(lo, n) + Shl32(hi, 32 - n)
  }

  /** shrl by the low five bits of c */
  function Shrl(x: nat, c: nat): nat {
    Shr(x, c % 32)
  }

  /** rshift64_32: hi:lo >> l, of which the low word is kept */
  function Rshift64Low(hi: nat, lo: nat, l: nat): nat
    requires hi < WORD && lo < WORD
  {
    if l / 32 % 2 == 1 then hi else Shrd(hi, lo, l)
  }

  /** rshift64: hi:lo >> l */
  function Rshift64(hi: nat, lo: nat, l: nat): (nat, nat)
    requires hi < WORD && lo < WORD
  {
    if l / 32 % 2 == 1 then (0, Shrl(hi, l)) else (Shrl(hi, l), Shrd(hi, lo, l))
  }

  /** A double word split at bit n: the shift drops the low part of lo and takes bits from hi. */
  lemma ShiftParts(hi: nat, lo: nat, p: nat, s: nat)
    requires hi < WORD && lo < WORD && p > 0 && p * s == WORD
    ensures (hi * WORD + lo) / p == hi * s + lo / p && lo / p < s
  {
    var q, r := Split(lo, p);
    Associate(p, s, hi);
    Commute(s, hi);
    Distribute(p, hi * s, q);
    ModUnique(hi * WORD + lo, p, hi * s + q, r);
    QuotientBelow(p, q, r, s);
  }

  /** Shifting hi left by 32 - n keeps its low n bits; shifting it right keeps the others. */
  lemma HighParts(hi: nat, p: nat, s: nat)
    requires hi < WORD && p > 0 && p * s == WORD
    ensures hi * s == WORD * (hi / p) + hi * s % WORD && hi * s % WORD + s <= WORD && hi / p < WORD
  {
    var q, r := Split(hi, p);
    Commute(hi, s);
    Distribute(s, p * q, r);
    Associate(s, p, q);
    Commute(s, p);
    MulMono(r + 1, p, s);
    Distribute(s, r, 1);
    ModUnique(hi * s, WORD, q, s * r);
    MulMono(1, p, q);
  }

  /** The double word a:b is x / p. */
  ghost predicate Divides(a: nat, b: nat, x: nat, p: nat) {
    p > 0 && a < WORD && b < WORD && a * WORD + b == x / p
  }

  /** The shifts compute (hi:lo) >> l, for l from 1 to 32. */
  lemma ShiftsRight(hi: nat, lo: nat, l: nat)
    requires hi < WORD && lo < WORD && 1 <= l <= 32
    ensures Divides(Rshift64(hi, lo, l).0, Rshift64(hi, lo, l).1, hi * WORD + lo, Pow2(l))
    ensures Rshift64Low(hi, lo, l) == Rshift64(hi, lo, l).1
  {
    if l < 32 {
      ShiftsSome(hi, lo, l);
    } else {
      ShiftsAll(hi, lo, l);
    }
  }

  lemma ShiftsSome(hi: nat, lo: nat, l: nat)
    requires hi < WORD && lo < WORD && 1 <= l < 32
    ensures Divides(Rshift64(hi, lo, l).0, Rshift64(hi, lo, l).1, hi * WORD + lo, Pow2(l))
    ensures Rshift64Low(hi, lo, l) == Rshift64(hi, lo, l).1
  {
    Counted(hi, lo, l);
    ShiftsPart(hi, lo, l);
  }

  lemma Counted(hi: nat, lo: nat, l: nat)
    requires hi < WORD && lo < WORD && 1 <= l < 32
    ensures Rshift64(hi, lo, l) == (Shr(hi, l), Shr(lo, l) + Shl32(hi, 32 - l))
    ensures Rshift64Low(hi, lo, l) == Shr(lo, l) + Shl32(hi, 32 - l)
  {
    assert l / 32 == 0 && l % 32 == l;
  }

  lemma ShiftsAll(hi: nat, lo: nat, l: nat)
    requires hi < WORD && lo < WORD && l == 32
    ensures Divides(Rshift64(hi, lo, l).0, Rshift64(hi, lo, l).1, hi * WORD + lo, Pow2(l))
    ensures Rshift64Low(hi, lo, l) == Rshift64(hi, lo, l).1
  {
    assert Shrl(hi, 32) == Shr(hi, 0) == hi;
    assert Pow2(32) == WORD by { Powers(); }
    ModUnique(hi * WORD + lo, WORD, hi, lo);
  }

  lemma ShiftsPart(hi: nat, lo: nat, l: nat)
    requires hi < WORD && lo < WORD && 1 <= l < 32
    ensures Divides(Shr(hi, l), Shr(lo, l) + Shl32(hi, 32 - l), hi * WORD + lo, Pow2(l))
  {
    var p, s := Pow2(l), Pow2(32 - l);
    assert p * s == WORD by {
      Powers();
      PowAdd(l, 32 - l);
    }
    ShiftParts(hi, lo, p, s);
    HighParts(hi, p, s);
  }

  // ----------------------------------------------------------- do_div64

  /** The shifted divisor is all ones, so that one more wraps to zero. */
  predicate Overshoots(y: nat) {
    y >= WORD && y / Pow2(Log2(y / WORD) + 1) == WORD - 1
  }

  /** Division by the shifted divisor plus one underestimates the quotient by at most two. */
  lemma Estimate(x: nat, y: nat, p: nat, u: nat, v: nat, q: nat, r: nat)
    requires p > 0 && u == x / p && v == y / p && u == (v + 1) * q + r && r < v + 1 && q < WORD <= 2 * v
    ensures q * y <= x < (q + 3) * y
  {
    var u', rx := Split(x, p);
    var v', ry := Split(y, p);
    calc {
      q * y;
    <= { MulMono(y, p * (v + 1), q); Distribute(p, v, 1); }
      q * (p * (v + 1));
    == { Associate(q, p, v + 1); Associate(p, q, v + 1); Commute(p, q); }
      p * (q * (v + 1));
    <= { Commute(q, v + 1); MulMono((v + 1) * q, u, p); }
      p * u;
    }
    calc {
      p * (u + 1);
    <= { Distribute(v + 1, q, 1); MulMono(u + 1, (v + 1) * (q + 1), p); }
      p * ((v + 1) * (q + 1));
    <= { Slack(q, v); MulMono((v + 1) * (q + 1), (q + 3) * v, p); }
      p * ((q + 3) * v);
    == { Associate(p, q + 3, v); Associate(q + 3, p, v); Commute(p, q + 3); }
      (q + 3) * (p * v);
    <= { MulMono(p * v, y, q + 3); }
      (q + 3) * y;
    }
    Distribute(p, u, 1);
  }

  lemma Slack(q: nat, v: nat)
    requires q + 1 <= 2 * v
    ensures (v + 1) * (q + 1) <= (q + 3) * v
  {
    assert (v + 1) * (q + 1) == v * q + v + q + 1;
    assert (q + 3) * v == v * q + 3 * v;
  }

  /** After the shift the divisor has its top bit in place, and the dividend's high word is smaller. */
  lemma Normalized(x: nat, y: nat, l: nat) returns (u: nat, v: nat)
    requires x < DWORD && WORD <= y < DWORD && l == Log2(y / WORD) + 1
    ensures 1 <= l <= 32 && u == x / Pow2(l) && v == y / Pow2(l)
    ensures WORD / 2 <= v < WORD && u < WORD * (WORD / 2)
  {
    var y1, y0 := Split(y, WORD);
    Log2Bounds(y1);
    Powers();
    if l > 32 { PowMono(32, l - 1); }
    var p := Pow2(l);
    var r, s;
    v, r := Split(y, p);
    assert p == 2 * Pow2(l - 1);
    assert p * (WORD / 2) <= y < p * WORD by {
      MulMono(Pow2(l - 1), y1, WORD);
      MulMono(y1 + 1, p, WORD);
      assert p * (WORD / 2) == Pow2(l - 1) * WORD;
    }
    QuotientBelow(p, v, r, WORD);
    if v + 1 <= WORD / 2 { MulMono(v + 1, WORD / 2, p); Distribute(p, v, 1); }
    u, s := Split(x, p);
    MulMono(2, p, u);
  }

  /** while (r >= y) { x0++; r -= y; }: at most two rounds. */
  method Correct(x: nat, y: nat, q0: nat) returns (q: nat, r: nat, ghost rounds: nat)
    requires x < DWORD && 0 < y && q0 * y <= x < (q0 + 3) * y
    ensures x == q * y + r && r < y && q == q0 + rounds && rounds <= 2
  {
    q, r := q0, (x - y * q0) % DWORD;
    rounds := 0;
    Commute(y, q0);
    ModUnique(x - y * q0, DWORD, 0, x - y * q0);
    Commute(q0 + 3, y);
    Distribute(y, q0, 3);
    while r >= y
      invariant x == q * y + r && q == q0 + rounds && rounds <= 2 && r + rounds * y < 3 * y
      decreases r
    {
      q := q + 1;
      r := r - y;
      rounds := rounds + 1;
      Commute(q, y);
      Distribute(y, q - 1, 1);
      Commute(q - 1, y);
    }
  }

  /** do_div64: the quotient and remainder, unless the shifted divisor wraps; x / 0 is 0, remainder x. */
  method DoDiv64(x: nat, y: nat) returns (res: Result)
    requires x < DWORD && y < DWORD
    ensures res == Fault <==> Overshoots(y)
    ensures res != Fault ==> res == if y == 0 then Quotient(0, x) else Quotient(x / y, x % y)
  {
    var y1, y0 := y / WORD, y % WORD;
    var x1, x0 := x / WORD, x % WORD;
    if y1 != 0 {
      res := DivLarge(x, y, x1, x0, y1, y0);
    } else if x1 < y0 {
      DivlFits(x1, x0, y0);
      res := Divl(x1, x0, y0);
    } else if y0 != 0 {
      res := DivSmall(x, y, x1, x0, y0);
    } else {
      res := Quotient(0, x);
    }
  }

  /** The case of a divisor of 33 bits or more. */
  method DivLarge(x: nat, y: nat, x1: nat, x0: nat, y1: nat, y0: nat) returns (res: Result)
    requires x < DWORD && WORD <= y < DWORD && y1 == y / WORD && y0 == y % WORD && x1 == x / WORD && x0 == x % WORD
    ensures res == if Overshoots(y) then Fault else Quotient(x / y, x % y)
  {
    var l := Log2(y1) + 1;
    ghost var u, v := Normalized(x, y, l);
    ShiftsRight(y1, y0, l);
    ShiftsRight(x1, x0, l);
    var e := DivShifted(x1, x0, y1, y0, l, u, v);
    if e.Fault? {
      return Fault;
    }
    Estimate(x, y, Pow2(l), u, v, e.q, e.rem);
    ghost var rounds;
    var q, r;
    q, r, rounds := Correct(x, y, e.q);
    Commute(q, y);
    ModUnique(x, y, q, r);
    res := Quotient(q, r);
  }

  /** Both numbers are shifted until the divisor fits one word, and one is added to it. */
  method DivShifted(x1: nat, x0: nat, y1: nat, y0: nat, l: nat, ghost u: nat, ghost v: nat) returns (e: Result)
    requires x1 < WORD && x0 < WORD && y1 < WORD && y0 < WORD
    requires var (a, b) := Rshift64(x1, x0, l); a < WORD && b < WORD && a * WORD + b == u
    requires var (a, b) := Rshift64(y1, y0, l); a < WORD && b < WORD && a * WORD + b == v && Rshift64Low(y1, y0, l) == b
    requires WORD / 2 <= v < WORD && u < WORD * (WORD / 2)
    ensures if v == WORD - 1 then e == Fault else e != Fault && u == (v + 1) * e.q + e.rem && e.rem < v + 1 && e.q < WORD
  {
    OneWord(Rshift64(y1, y0, l).0, Rshift64(y1, y0, l).1, v);
    var y0' := Rshift64Low(y1, y0, l);
    var (x1', x0') := Rshift64(x1, x0, l);
    e := Divl(x1', x0', (y0' + 1) % WORD);
    if v != WORD - 1 { DivlFits(x1', x0', v + 1); }
  }

  lemma OneWord(hi: nat, lo: nat, v: nat)
    requires hi < WORD && lo < WORD && hi * WORD + lo == v
    ensures v < WORD ==> lo == v
  {
  }

  /** Two divl in a row: the remainder of the high word joins the low word. */
  method DivSmall(x: nat, y: nat, x1: nat, x0: nat, y0: nat) returns (res: Result)
    requires x < DWORD && 0 < y0 == y < WORD && x1 == x / WORD && x0 == x % WORD
    ensures res == Quotient(x / y, x % y)
  {
    DivlFits(0, x1, y0);
    var e1 := Divl(0, x1, y0);
    DivlFits(e1.rem, x0, y0);
    var e0 := Divl(e1.rem, x0, y0);
    Chained(x, y0, x1, x0, e1.q, e1.rem, e0.q, e0.rem);
    res := Quotient(e1.q * WORD + e0.q, e0.rem);
  }

  lemma Chained(x: nat, y: nat, x1: nat, x0: nat, q1: nat, r1: nat, q0: nat, r0: nat)
    requires x == x1 * WORD + x0 && x1 == y * q1 + r1 && r1 * WORD + x0 == y * q0 + r0 && r0 < y
    ensures x / y == q1 * WORD + q0 && x % y == r0
  {
    Associate(y, q1, WORD);
    Distribute(y, q1 * WORD, q0);
    ModUnique(x, y, q1 * WORD + q0, r0);
  }

  /** The fault is real: for some divisors the division by y0 + 1 is a division by zero. */
  lemma OvershootExample()
    ensures Overshoots(0x1_FFFF_FFFF) && Overshoots(0xFFFF_FFFF_0000_0000) && !Overshoots(0x1_FFFF_FFFD) && !Overshoots(0x1_0000_0000)
  {
    Log2Unique(1, 0);
    assert Pow2(1) == 2 && Pow2(31) == 0x8000_0000 && Pow2(32) == WORD by { Powers(); }
    Log2Unique(0xFFFF_FFFF, 31);
  }

  // ----------------------------------------------- shift and subtract

  /** The test of bit 31 of the high word: clear exactly below 2^63. */
  lemma TopBit(div: nat)
    requires div < DWORD
    ensures And(div / WORD, 0x8000_0000) == 0 <==> div < DWORD / 2
  {
    var hi := div / WORD;
    Powers();
    AndPow(hi, 31);
    if hi < Pow2(31) {
      NoBit(hi, 31, 31);
    } else if !Bit(hi, 31) {
      HigherBit(hi, 31);
    }
  }

  /** The divisor has been doubled as often as the unit of the quotient. */
  ghost predicate Doubled(div: nat, mul: nat, div0: nat, k: nat) {
    mul == Pow2(k) && div == div0 * mul && div0 > 0
  }

  lemma Double(div: nat, mul: nat, div0: nat, k: nat)
    requires Doubled(div, mul, div0, k)
    ensures Doubled(div + div, mul + mul, div0, k + 1) && mul <= div
  {
    Distribute(div0, mul, mul);
    MulMono(1, div0, mul);
  }

  lemma Halve(div: nat, mul: nat, div0: nat, k: nat)
    requires Doubled(div, mul, div0, k)
    ensures k == 0 ==> mul / 2 == 0 && div == div0
    ensures k > 0 ==> Doubled(div / 2, mul / 2, div0, k - 1) && div == 2 * (div / 2)
  {
    if k > 0 {
      assert mul == 2 * Pow2(k - 1);
      Associate(div0, 2, Pow2(k - 1));
      Associate(2, div0, Pow2(k - 1));
    }
  }

  /** Addition of 64-bit words */
  function Add64(a: nat, b: nat): (r: nat)
    requires a < DWORD && b < DWORD
    ensures a + b < DWORD ==> r == a + b
  {
    (a + b) % DWORD
  }

  method HasTopBit(div: nat) returns (high: bool)
    requires div < DWORD
    ensures high <==> div >= DWORD / 2
  {
    TopBit(div);
    high := And(div / WORD, 0x8000_0000) != 0;
  }

  /** Doubles the divisor until it exceeds half of x, or has its top bit set. */
  method Grow(x: nat, div0: nat) returns (div: nat, mul: nat, ghost k: nat)
    requires 0 < div0 <= x < DWORD
    ensures Doubled(div, mul, div0, k) && div <= x < 2 * div
  {
    div, mul, k := div0, 1, 0;
    var top := HasTopBit(div);
    while !top
      invariant Doubled(div, mul, div0, k) && div <= x
      invariant top <==> div >= DWORD / 2
      decreases x - div
    {
      Double(div, mul, div0, k);
      var newd := Add64(div, div);
      if newd > x {
        return;
      }
      div := newd;
      mul := Add64(mul, mul);
      k := k + 1;
      top := HasTopBit(div);
    }
  }

  /** div64 */
  method ShiftSubtract(x0: nat, div0: nat) returns (q: nat, rem: nat)
    requires x0 < DWORD && div0 < DWORD
    ensures div0 == 0 ==> q == 0 && rem == x0
    ensures div0 != 0 ==> q == x0 / div0 && rem == x0 % div0
  {
    if div0 > x0 || div0 == 0 {
      if div0 > 0 { ModUnique(x0, div0, 0, x0); }
      return 0, x0;
    }
    var div, mul;
    ghost var k;
    div, mul, k := Grow(x0, div0);
    q := mul;
    var x: nat := x0 - div;
    while true
      invariant Doubled(div, mul, div0, k) && x0 == div0 * q + x && x < div
      decreases k
    {
      Halve(div, mul, div0, k);
      mul := mul / 2;
      div := div / 2;
      if mul == 0 {
        ModUnique(x0, div0, q, x);
        return q, x;
      }
      assert k > 0;
      k := k - 1;
      if x >= div {
        Distribute(div0, q, mul);
        q := q + mul;
        x := x - div;
      }
    }
  }

  /** The two divisions agree, wherever do_div64 does not fault. */
  method Agree(x: nat, y: nat) returns (fast: Result, plain: Result)
    requires x < DWORD && y < DWORD
    ensures fast == if Overshoots(y) then Fault else plain
  {
    fast := DoDiv64(x, y);
    var q, r := ShiftSubtract(x, y);
    plain := Quotient(q, r);
  }

  // ---------------------------------------------------------------- mul64

  /** mul64: schoolbook multiplication of 16-bit digits, modulo 2^64. */
  method Mul64(x: nat, y: nat) returns (res: nat)
    requires x < DWORD && y < DWORD
    ensures res == x * y % DWORD
  {
    var a, b, c, d := x % 0x1_0000, x / 0x1_0000 % 0x1_0000, x / WORD % 0x1_0000, x / WORD / 0x1_0000;
    var e, f, g, h := y % 0x1_0000, y / 0x1_0000 % 0x1_0000, y / WORD % 0x1_0000, y / WORD / 0x1_0000;
    Digits(x, a, b, c, d);
    Digits(y, e, f, g, h);
    var (u, v, w, z) := Columns(a, b, c, d, e, f, g, h);
    ghost var t := ShiftedOut(b, c, d, f, g, h);
    Schoolbook(x, y, a, b, c, d, e, f, g, h);
    res := AddUp(u, v, w, z, t);
  }

  /** The sums of digit products that count, from the highest. */
  function Columns(a: nat, b: nat, c: nat, d: nat, e: nat, f: nat, g: nat, h: nat): (nat, nat, nat, nat) {
    (d * e + c * f + b * g + a * h, c * e + b * f + a * g, b * e + a * f, a * e)
  }

  function ShiftedOut(b: nat, c: nat, d: nat, f: nat, g: nat, h: nat): nat {
    d * h * 0x1_0000_0000 + (d * g + c * h) * 0x1_0000 + (d * f + c * g + b * h)
  }

  /** The digit sums added up, shifting by 16 bits in between; t is what is shifted out. */
  method AddUp(u: nat, v: nat, w: nat, z: nat, ghost t: nat) returns (res: nat)
    ensures res == (z + w * 0x1_0000 + v * WORD + u * 0x1_0000_0000_0000 + t * DWORD) % DWORD
  {
    res := u;
    res := (res * 0x1_0000 + v) % DWORD;
    res := (res * 0x1_0000 + w) % DWORD;
    res := (res * 0x1_0000 + z) % DWORD;
    Horner(u, v, w, z, z + w * 0x1_0000 + v * WORD + u * 0x1_0000_0000_0000 + t * DWORD, t);
  }

  lemma Digits(x: nat, a: nat, b: nat, c: nat, d: nat)
    requires a == x % 0x1_0000 && b == x / 0x1_0000 % 0x1_0000 && c == x / WORD % 0x1_0000 && d == x / WORD / 0x1_0000
    ensures x == a + b * 0x1_0000 + c * WORD + d * 0x1_0000_0000_0000
  {
    var q1, r1 := Split(x, 0x1_0000);
    var q2, r2 := Split(q1, 0x1_0000);
    ModUnique(x, WORD, q2, r2 * 0x1_0000 + r1);
    var q3, r3 := Split(q2, 0x1_0000);
  }

  /** The product is the digit sums that are kept, plus a multiple of 2^64. */
  lemma Schoolbook(x: nat, y: nat, a: nat, b: nat, c: nat, d: nat, e: nat, f: nat, g: nat, h: nat)
    requires x == a + b * 0x1_0000 + c * WORD + d * 0x1_0000_0000_0000
    requires y == e + f * 0x1_0000 + g * WORD + h * 0x1_0000_0000_0000
    ensures var (u, v, w, z) := Columns(a, b, c, d, e, f, g, h);
            x * y == z + w * 0x1_0000 + v * WORD + u * 0x1_0000_0000_0000 + ShiftedOut(b, c, d, f, g, h) * DWORD
  {
    DigitProducts(x, y, a, b, c, d, e, f, g, h);
  }

  lemma DigitProducts(x: nat, y: nat, a: nat, b: nat, c: nat, d: nat, e: nat, f: nat, g: nat, h: nat)
    requires x == a + b * 0x1_0000 + c * WORD + d * 0x1_0000_0000_0000
    requires y == e + f * 0x1_0000 + g * WORD + h * 0x1_0000_0000_0000
    ensures x * y == a * e + (b * e + a * f) * 0x1_0000 + (c * e + b * f + a * g) * WORD
                     + (d * e + c * f + b * g + a * h) * 0x1_0000_0000_0000
                     + (d * h * 0x1_0000_0000 + (d * g + c * h) * 0x1_0000 + (d * f + c * g + b * h)) * DWORD
  {
  }

  lemma Horner(u: nat, v: nat, w: nat, z: nat, xy: nat, t: nat)
    requires xy == z + w * 0x1_0000 + v * WORD + u * 0x1_0000_0000_0000 + t * DWORD
    ensures var r := (u * 0x1_0000 + v) % DWORD;
            var s := (r * 0x1_0000 + w) % DWORD;
            (s * 0x1_0000 + z) % DWORD == xy % DWORD
  {
    var a := u * 0x1_0000 + v;
    HornerStep(a, w);
    HornerStep(a * 0x1_0000 + w, z);
    DropMultiple((a * 0x1_0000 + w) * 0x1_0000 + z, t);
  }

  /** Reducing early does not matter. */
  lemma HornerStep(a: nat, c: nat)
    ensures (a % DWORD * 0x1_0000 + c) % DWORD == (a * 0x1_0000 + c) % DWORD
  {
    var q, m := Split(a, DWORD);
    DropMultiple(m * 0x1_0000 + c, q * 0x1_0000);
  }

  lemma DropMultiple(x: nat, k: nat)
    ensures (x + k * DWORD) % DWORD == x % DWORD
  {
  }
}
