/** Printing numbers (`shared/doprnt.c`) and reading them back (`shared/strtoul.c`, `shared/strtol.c`). */
module Numbers {
  import opened Words
  import opened Arith

  const MAXBUF := 32  // sizeof(long int) * 8

  // -------------------------------------------------------------- digits

  /** digits[d] */
  function Digit(d: nat): char
    requires d < 16
  {
    if d < 10 then '0' + d as char else 'a' + (d - 10) as char
  }

  /** The value of a character as a digit in the given base, or -1. */
  function DigitValue(c: char, base: nat): int {
    if '0' <= c <= '9' && c as int - '0' as int < base then c as int - '0' as int
    else if 'a' <= c <= 'z' && c as int - 'a' as int + 10 < base then c as int - 'a' as int + 10
    else if 'A' <= c <= 'Z' && c as int - 'A' as int + 10 < base then c as int - 'A' as int + 10
    else -1
  }

  lemma DigitOf(d: nat, base: nat)
    requires d < base <= 16
    ensures DigitValue(Digit(d), base) == d && !IsSpace(Digit(d))
    ensures Digit(d) != 'x' && Digit(d) != 'X' && Digit(d) != '-' && Digit(d) != '+'
  {
  }

  /** The digits of u, without leading zeros. */
  function Digits(u: nat, base: nat): (s: string)
    requires 2 <= base <= 16
    ensures s != []
  {
    if u < base then [Digit(u)] else Digits(u / base, base) + [Digit(u % base)]
  }

  /** Reading digits from v on. */
  function Acc(base: nat, v: nat, s: string): nat {
    if s == [] then v
    else
      var d := DigitValue(s[|s| - 1], base);
      Acc(base, v, s[..|s| - 1]) * base + if d >= 0 then d else 0
  }

  predicate AllDigits(s: string, base: nat) {
    forall i {:trigger s[i]} :: 0 <= i < |s| ==> DigitValue(s[i], base) >= 0
  }

  lemma {:induction false} DigitsRead(u: nat, base: nat)
    requires 2 <= base <= 16
    ensures Acc(base, 0, Digits(u, base)) == u && AllDigits(Digits(u, base), base)
    ensures forall i :: 0 <= i < |Digits(u, base)| ==> Digits(u, base)[i] != 'x' && Digits(u, base)[i] != 'X'
    decreases u
  {
    DigitOf(u % base, base);
    if u >= base {
      var q, r := Split(u, base);
      Smaller(u, base);
      DigitsRead(q, base);
      Commute(q, base);
      var s := Digits(u, base);
      assert s[..|s| - 1] == Digits(q, base) && s[|s| - 1] == Digit(r);
    } else {
      DigitOf(u, base);
      assert Digits(u, base)[..0] == [];
    }
  }

  lemma Smaller(u: nat, base: nat)
    requires u >= base >= 2
    ensures u / base < u
  {
    var q, r := Split(u, base);
    MulMono(2, base, q);
  }

  function Zeros(n: nat): (s: string)
    ensures |s| == n && forall i :: 0 <= i < n ==> s[i] == '0'
  {
    seq(n, _ => '0')
  }

  function Spaces(n: nat): (s: string)
    ensures |s| == n && forall i :: 0 <= i < n ==> s[i] == ' '
  {
    seq(n, _ => ' ')
  }

  /** Leading zeros do not count. */
  lemma {:induction false} AccZeros(base: nat, n: nat, s: string)
    requires base >= 2
    ensures Acc(base, 0, Zeros(n) + s) == Acc(base, 0, s)
    decreases n + |s|
  {
    if s != [] {
      AccZeros(base, n, s[..|s| - 1]);
      assert (Zeros(n) + s)[..n + |s| - 1] == Zeros(n) + s[..|s| - 1];
    } else if n > 0 {
      AccZeros(base, n - 1, []);
      assert Zeros(n) + [] == Zeros(n) && Zeros(n)[..n - 1] == Zeros(n - 1) + [];
    } else {
      assert Zeros(0) + s == [];
    }
  }

  // ------------------------------------------------------------- reading

  predicate IsSpace(c: char) {
    c == ' ' || c == '\U{000C}' || c == '\n' || c == '\r' || c == '\t' || c == '\U{000B}'
  }

  /** The character at p, the terminator being at the end. */
  function At(s: string, p: nat): char {
    if p < |s| then s[p] else '\0'
  }

  /** Past the white space. */
  function SkipSpace(s: string, p: nat): (q: nat)
    decreases |s| - p
  {
    if p < |s| && IsSpace(s[p]) then SkipSpace(s, p + 1) else p
  }

  /** Past the digits, accumulating on an unsigned word. */
  function Scan(s: string, p: nat, base: nat, v: nat): (nat, nat)
    decreases |s| - p
  {
    if p < |s| && DigitValue(s[p], base) >= 0 then Scan(s, p + 1, base, (v * base + DigitValue(s[p], base)) % WORD)
    else (v, p)
  }

  /** The base, and where the digits start, after a possible "0x". */
  function Prefix(s: string, p: nat, base: nat): (nat, nat) {
    if (base == 16 || base == 0) && At(s, p) == '0' && (At(s, p + 1) == 'x' || At(s, p + 1) == 'X') then (16, p + 2)
    else if base == 0 then (if At(s, p) == '0' then 8 else 10, p)
    else (base, p)
  }

  /** What strtoul returns, and where it stops. */
  function Unsigned(s: string, base: nat): (nat, nat) {
    var (b, p) := Prefix(s, SkipSpace(s, 0), base);
    Scan(s, p, b, 0)
  }

  /** The digits of a base are the first so many of ten figures and 26 letters, in either case. */
  lemma DigitTable(c: char, base: nat, d: nat)
    requires d < 36
    ensures DigitValue(c, base) == d <==> d < base && if d < 10 then c == '0' + d as char else c == 'a' + (d - 10) as char || c == 'A' + (d - 10) as char
  {
  }

  lemma NoDigit(c: char, base: nat)
    ensures -1 <= DigitValue(c, base) < 36
  {
  }

  /** Where a number starts, and in which base it is read: "0x" is passed over for base 16 and for
      base 0, which then means 16; else base 0 means 8 after a leading zero, and 10 otherwise. */
  ghost predicate StartsAt(s: string, p0: nat, base0: nat, base: nat, p: nat) {
    var hex := At(s, p0) == '0' && At(s, p0 + 1) in "xX";
    && (base0 == 0 ==> base == (if hex then 16 else if At(s, p0) == '0' then 8 else 10))
    && (base0 != 0 ==> base == base0)
    && p == (if hex && base0 in {0, 16} then p0 + 2 else p0)
  }

  /** The first place from p on that is no white space. */
  ghost predicate FirstInk(s: string, p: nat, q: nat) {
    p <= q && (forall i {:trigger s[i]} :: p <= i < q && i < |s| ==> IsSpace(s[i])) && !IsSpace(At(s, q)) && q <= |s|
  }

  lemma {:induction false} SkipSpaceIs(s: string, p: nat)
    requires p <= |s|
    ensures FirstInk(s, p, SkipSpace(s, p))
    decreases |s| - p
  {
    if p < |s| && IsSpace(s[p]) { SkipSpaceIs(s, p + 1); }
  }

  /** The digits from p up to e, which no digit follows, have the value v modulo 2^32. */
  ghost predicate DigitsTo(s: string, p: nat, e: nat, base: nat, v: nat) {
    p <= e <= |s| && AllDigits(s[p..e], base) && DigitValue(At(s, e), base) < 0 && v == Acc(base, 0, s[p..e]) % WORD
  }

  lemma {:induction false} ScanIs(s: string, p: nat, k: nat, base: nat)
    requires p <= k <= |s| && AllDigits(s[p..k], base)
    ensures var (v, e) := Scan(s, k, base, Acc(base, 0, s[p..k]) % WORD); DigitsTo(s, p, e, base, v)
    decreases |s| - k
  {
    if k < |s| && DigitValue(s[k], base) >= 0 {
      var d := DigitValue(s[k], base);
      assert s[p..k + 1] == s[p..k] + [s[k]];
      assert s[p..k + 1][..k - p] == s[p..k];
      AccMod(Acc(base, 0, s[p..k]), base, d);
      ScanIs(s, p, k + 1, base);
    }
  }

  lemma AccMod(a: nat, base: nat, d: nat)
    ensures (a % WORD * base + d) % WORD == (a * base + d) % WORD
  {
    var q, r := Split(a, WORD);
    Associate(WORD, q, base);
    assert a * base == WORD * (q * base) + r * base;
    var x, y := Split(r * base + d, WORD);
    ModUnique(a * base + d, WORD, q * base + x, y);
  }

  /** strtoul: white space, a possible prefix, then all the digits there are; their value, modulo
      2^32, and the place where they end. */
  lemma UnsignedIs(s: string, base0: nat) returns (p0: nat, base: nat, p: nat)
    ensures FirstInk(s, 0, p0) && StartsAt(s, p0, base0, base, p)
    ensures var (v, e) := Unsigned(s, base0); DigitsTo(s, p, e, base, v)
  {
    SkipSpaceIs(s, 0);
    p0 := SkipSpace(s, 0);
    var b := Prefix(s, p0, base0);
    base, p := b.0, b.1;
    assert s[p..p] == [];
    ScanIs(s, p, p, base);
  }

  /** strtol: the same after an optional minus sign, which negates; a plus sign is no digit.  The
      value is brought into the range of a long. */
  lemma SignedIsRead(s: string, base0: nat) returns (p0: nat, base: nat, p: nat, v: nat)
    ensures FirstInk(s, 0, p0) && StartsAt(s, if At(s, p0) == '-' then p0 + 1 else p0, base0, base, p)
    ensures var (w, e) := Signed(s, base0);
            var x: int := if At(s, p0) == '-' then 0 - v else v;
            && DigitsTo(s, p, e, base, v) && v < WORD && -0x8000_0000 <= w < 0x8000_0000
            && (w == x || w == x + WORD || w == x - WORD)
  {
    SkipSpaceIs(s, 0);
    p0 := SkipSpace(s, 0);
    var q := if At(s, p0) == '-' then p0 + 1 else p0;
    base, p := Prefix(s, q, base0).0, Prefix(s, q, base0).1;
    assert s[p..p] == [];
    ScanIs(s, p, p, base);
    v := Scan(s, p, base, 0).0;
    LongIs(v);
  }

  lemma LongIs(v: nat)
    requires v < WORD
    ensures var a, b := Long((WORD - v) % WORD), Long(v % WORD);
            && -0x8000_0000 <= a < 0x8000_0000 && (a == 0 - v || a == WORD - v)
            && -0x8000_0000 <= b < 0x8000_0000 && (b == v || b == v - WORD)
  {
  }

  /** A word as a signed number. */
  function Long(w: nat): int {
    if w < WORD / 2 then w else w - WORD
  }

  /** What strtol returns, and where it stops.  A plus sign is looked at, but not passed over. */
  function Signed(s: string, base: nat): (int, nat) {
    var p0 := SkipSpace(s, 0);
    var neg := At(s, p0) == '-';
    var (b, p) := Prefix(s, if neg then p0 + 1 else p0, base);
    var (v, q) := Scan(s, p, b, 0);
    (Long(if neg then (WORD - v) % WORD else v % WORD), q)
  }

  /** strtoul */
  method Strtoul(s: string, base0: nat) returns (v: nat, p: nat)
    ensures (v, p) == Unsigned(s, base0)
  {
    p := 0;
    while IsSpace(At(s, p))
      invariant SkipSpace(s, 0) == SkipSpace(s, p)
      decreases |s| - p
    {
      p := p + 1;
    }
    var base := base0;
    if (base == 16 || base == 0) && At(s, p) == '0' && (At(s, p + 1) == 'x' || At(s, p + 1) == 'X') {
      p := p + 2;
      base := 16;
    }
    if base == 0 {
      base := if At(s, p) == '0' then 8 else 10;
    }
    v, p := ScanDigits(s, p, base);
  }

  /** The loop that strtoul and strtol have in common. */
  method ScanDigits(s: string, p0: nat, base: nat) returns (v: nat, p: nat)
    ensures (v, p) == Scan(s, p0, base, 0)
  {
    v, p := 0, p0;
    while true
      invariant Scan(s, p0, base, 0) == Scan(s, p, base, v)
      decreases |s| - p
    {
      var c := At(s, p);
      if '0' <= c <= '9' && c as int - '0' as int < base {
        v := (v * base + (c as int - '0' as int)) % WORD;
      } else if 'a' <= c <= 'z' && c as int - 'a' as int + 10 < base {
        v := (v * base + (c as int - 'a' as int + 10)) % WORD;
      } else if 'A' <= c <= 'Z' && c as int - 'A' as int + 10 < base {
        v := (v * base + (c as int - 'A' as int + 10)) % WORD;
      } else {
        return;
      }
      p := p + 1;
    }
  }

  /** strtol */
  method Strtol(s: string, base0: nat) returns (v: int, p: nat)
    ensures (v, p) == Signed(s, base0)
  {
    p := 0;
    while IsSpace(At(s, p))
      invariant SkipSpace(s, 0) == SkipSpace(s, p)
      decreases |s| - p
    {
      p := p + 1;
    }
    var neg := false;
    if At(s, p) == '-' {
      neg := true;
      p := p + 1;
    } else if At(s, p) == '+' {
      neg := false;
    }
    var base := base0;
    if (base == 16 || base == 0) && At(s, p) == '0' && (At(s, p + 1) == 'x' || At(s, p + 1) == 'X') {
      p := p + 2;
      base := 16;
    }
    if base == 0 {
      base := if At(s, p) == '0' then 8 else 10;
    }
    var w;
    w, p := ScanDigits(s, p, base);
    v := Long(if neg then (WORD - w) % WORD else w % WORD);
  }

  // ------------------------------------------------------------ printing

  /** The flags, width and precision of a conversion; sign is '\0', or what to print before the number. */
  datatype Format = Format(length: int, prec: int, ladjust: bool, zeropad: bool, altfmt: bool)

  /** The prefix of the alternate format. */
  function PrefixOf(u: nat, base: nat, altfmt: bool): string {
    if u != 0 && altfmt then (if base == 8 then "0" else if base == 16 then "0x" else "") else ""
  }

  function Max0(n: int): nat {
    if n > 0 then n else 0
  }

  function SignOf(sign: char): string {
    if sign == '\0' then "" else [sign]
  }

  /** How much is missing to the width. */
  function Missing(u: nat, base: nat, sign: char, f: Format): int
    requires 2 <= base <= 16
  {
    var n := |Digits(u, base)|;
    f.length - n - |SignOf(sign)| - |PrefixOf(u, base, f.altfmt)| - Max0(f.prec - n)
  }

  /** Blanks, sign, prefix, zeros, digits, blanks. */
  function Printed(u: nat, base: nat, sign: char, f: Format): string
    requires 2 <= base <= 16
  {
    var D := Digits(u, base);
    var pad := Max0(Missing(u, base, sign, f));
    Spaces(if !f.zeropad && !f.ladjust then pad else 0)
    + SignOf(sign) + PrefixOf(u, base, f.altfmt)
    + Zeros(Max0(f.prec - |D|) + if f.zeropad then pad else 0)
    + D
    + Spaces(if !f.zeropad && f.ladjust then pad else 0)
  }

  /** The two halves of the output. */
  function Head(sign: char, prefix: string, missing: int, f: Format): string {
    Spaces(if !f.zeropad && !f.ladjust then Max0(missing) else 0) + SignOf(sign) + prefix
  }

  function Tail(digits: string, prec: int, missing: int, f: Format): string {
    Zeros(Max0(prec) + if f.zeropad then Max0(missing) else 0) + digits + Spaces(if !f.zeropad && f.ladjust then Max0(missing) else 0)
  }

  lemma PrintedParts(u: nat, base: nat, sign: char, f: Format)
    requires 2 <= base <= 16
    ensures Printed(u, base, sign, f)
            == Head(sign, PrefixOf(u, base, f.altfmt), Missing(u, base, sign, f), f)
               + Tail(Digits(u, base), f.prec - |Digits(u, base)|, Missing(u, base, sign, f), f)
  {
    var h := Head(sign, PrefixOf(u, base, f.altfmt), Missing(u, base, sign, f), f);
    var D := Digits(u, base);
    var z := Zeros(Max0(f.prec - |D|) + if f.zeropad then Max0(Missing(u, base, sign, f)) else 0);
    var t := Spaces(if !f.zeropad && f.ladjust then Max0(Missing(u, base, sign, f)) else 0);
    assert h + z + D + t == h + (z + D + t);
  }

  /** The width is a minimum: nothing is cut off, and no more is added than needed. */
  lemma PrintedLength(u: nat, base: nat, sign: char, f: Format)
    requires 2 <= base <= 16
    ensures var n := |Digits(u, base)|;
            var core := n + Max0(f.prec - n) + |SignOf(sign)| + |PrefixOf(u, base, f.altfmt)|;
            |Printed(u, base, sign, f)| == if f.length > core then f.length else core
  {
  }

  // ------------------------------------------------------ what is where

  const HEX := "0123456789abcdef"

  function Power(base: nat, i: nat): (p: nat)
    requires base > 0
    ensures p > 0
  {
    if i == 0 then 1 else
      Positive(base, Power(base, i - 1));
      base * Power(base, i - 1)
  }

  lemma DigitIs(d: nat)
    requires d < 16
    ensures Digit(d) == HEX[d]
  {
  }

  /** The digit at place i from the right is that of base^i, in lower case. */
  lemma {:induction false} DigitAt(u: nat, base: nat, i: nat)
    requires 2 <= base <= 16 && i < |Digits(u, base)|
    ensures Digits(u, base)[|Digits(u, base)| - 1 - i] == HEX[Quotient(u, Power(base, i)) % base]
    decreases u
  {
    var D := Digits(u, base);
    DigitIs(u % base);
    if u < base {
      ModUnique(u, base, 0, u);
      ModUnique(u, 1, u, 0);
    } else if i == 0 {
      ModUnique(u, 1, u, 0);
    } else {
      Smaller(u, base);
      DigitAt(u / base, base, i - 1);
      QuotientTwice(u, base, Power(base, i - 1));
      assert D == Digits(u / base, base) + [Digit(u % base)];
    }
  }

  /** Dividing twice is dividing by the product. */
  lemma QuotientTwice(u: nat, b: nat, p: nat)
    requires b > 0 && p > 0
    ensures b * p > 0 && Quotient(u / b, p) == Quotient(u, b * p)
  {
    Positive(b, p);
    var q, r := Split(u, b);
    var s, v := Split(q, p);
    Distribute(b, p * s, v);
    Associate(b, p, s);
    MulMono(v + 1, p, b);
    Distribute(b, v, 1);
    ModUnique(u, b * p, s, b * v + r);
  }

  /** There are as many digits as the number needs: no zero leads but that of zero itself. */
  lemma {:induction false} DigitsFew(u: nat, base: nat)
    requires 2 <= base <= 16
    ensures Digits(u, base)[0] == '0' <==> u == 0
    ensures u == 0 ==> |Digits(u, base)| == 1
    decreases u
  {
    if u < base {
      DigitIs(u);
    } else {
      Smaller(u, base);
      var q, r := Split(u, base);
      DigitsFew(q, base);
    }
  }

  /** The characters of s from a up to b are all c. */
  predicate AllAre(s: string, a: int, b: int, c: char)
    requires 0 <= a <= b <= |s|
  {
    forall i {:trigger s[i]} :: a <= i < b ==> s[i] == c
  }

  /** The length of a sign, and of the prefix: "0" or "0x" before a number other than zero, if asked for. */
  function SignLength(sign: char): nat {
    if sign == '\0' then 0 else 1
  }

  function PrefixLength(u: nat, base: nat, altfmt: bool): nat {
    if !altfmt || u == 0 then 0 else if base == 8 then 1 else if base == 16 then 2 else 0
  }

  /** Sign, prefix, the zeros that the precision asks for, and digits. */
  function CoreLength(u: nat, base: nat, sign: char, f: Format): nat
    requires 2 <= base <= 16
  {
    var n := |Digits(u, base)|;
    SignLength(sign) + PrefixLength(u, base, f.altfmt) + (if f.prec > n then f.prec - n else 0) + n
  }

  /** Between a and b are the sign, the prefix, nothing but zeros, and the digits. */
  ghost predicate CoreAt(s: string, a: int, b: int, u: nat, base: nat, sign: char, f: Format)
    requires 2 <= base <= 16
  {
    var p := a + SignLength(sign);
    var q := p + PrefixLength(u, base, f.altfmt);
    var r := b - |Digits(u, base)|;
    && 0 <= a && b <= |s| && a + CoreLength(u, base, sign, f) <= b
    && (sign != '\0' ==> s[a] == sign)
    && (q > p ==> s[p] == '0') && (q == p + 2 ==> s[p + 1] == 'x')
    && AllAre(s, q, r, '0') && s[r..b] == Digits(u, base)
  }

  /** What fills the width: with the zero flag, zeros between prefix and digits and no blank; with the
      flag for the left, blanks at the end; else blanks at the start. */
  lemma Filled(u: nat, base: nat, sign: char, f: Format)
    requires 2 <= base <= 16
    ensures var s := Printed(u, base, sign, f);
            var n := CoreLength(u, base, sign, f);
            && n <= |s|
            && (f.zeropad ==> CoreAt(s, 0, |s|, u, base, sign, f))
            && (!f.zeropad && f.ladjust ==> CoreAt(s, 0, n, u, base, sign, f) && AllAre(s, n, |s|, ' '))
            && (!f.zeropad && !f.ladjust ==> CoreAt(s, |s| - n, |s|, u, base, sign, f) && AllAre(s, 0, |s| - n, ' '))
  {
    var D := Digits(u, base);
    var pad := Max0(Missing(u, base, sign, f));
    var lead := if !f.zeropad && !f.ladjust then pad else 0;
    var z := Max0(f.prec - |D|) + if f.zeropad then pad else 0;
    var t := if !f.zeropad && f.ladjust then pad else 0;
    assert Printed(u, base, sign, f) == Spaces(lead) + SignOf(sign) + PrefixOf(u, base, f.altfmt) + Zeros(z) + D + Spaces(t);
    CoreOf(lead, z, t, u, base, sign, f);
  }

  lemma CoreOf(lead: nat, z: nat, t: nat, u: nat, base: nat, sign: char, f: Format)
    requires 2 <= base <= 16 && z >= Max0(f.prec - |Digits(u, base)|)
    ensures var s := Spaces(lead) + SignOf(sign) + PrefixOf(u, base, f.altfmt) + Zeros(z) + Digits(u, base) + Spaces(t);
            var b := lead + SignLength(sign) + PrefixLength(u, base, f.altfmt) + z + |Digits(u, base)|;
            && |s| == b + t && CoreAt(s, lead, b, u, base, sign, f) && AllAre(s, 0, lead, ' ') && AllAre(s, b, |s|, ' ')
  {
    var a, S, P, Z, D, T := Spaces(lead), SignOf(sign), PrefixOf(u, base, f.altfmt), Zeros(z), Digits(u, base), Spaces(t);
    var s := a + S + P + Z + D + T;
    Pieces(a, S, P, Z, D, T);
    var p := lead + |S|;
    var q := p + |P|;
    if sign != '\0' { assert s[lead..p][0] == sign; }
    if |P| > 0 { assert s[p..q][0] == P[0] && (|P| == 2 ==> s[p..q][1] == P[1]); }
    SliceAll(s, q, q + z, '0', Z);
    SliceAll(s, 0, lead, ' ', a);
    SliceAll(s, q + z + |D|, |s|, ' ', T);
  }

  lemma SliceAll(s: string, a: nat, b: nat, c: char, w: string)
    requires a <= b <= |s| && s[a..b] == w && forall i :: 0 <= i < |w| ==> w[i] == c
    ensures AllAre(s, a, b, c)
  {
    forall i | a <= i < b ensures s[i] == c {
      assert s[a..b][i - a] == w[i - a];
    }
  }

  /** Two digits of time, and a negative number of three places. */
  lemma FillExamples()
    ensures Printed(5, 10, '\0', Format(2, -1, false, true, false)) == "05"
    ensures Printed(5, 10, '-', Format(3, -1, false, true, false)) == "-05"
    ensures Printed(5, 10, '-', Format(3, -1, false, false, false)) == " -5"
    ensures Printed(5, 10, '-', Format(3, -1, true, false, false)) == "-5 "
  {
    assert Digits(5, 10) == "5";
  }

  lemma Pieces(a: string, b: string, c: string, d: string, e: string, g: string)
    ensures var s := a + b + c + d + e + g;
            var n1 := |a| + |b|;
            var n2 := n1 + |c|;
            var n3 := n2 + |d|;
            var n4 := n3 + |e|;
            && |s| == n4 + |g| && s[..|a|] == a && s[|a|..n1] == b && s[n1..n2] == c && s[n2..n3] == d && s[n3..n4] == e && s[n4..] == g
  {
  }

  /** The output device: putc appends. */
  class Sink {
    var out: string

    constructor ()
      ensures out == []
    {
      out := [];
    }

    method Putc(c: char)
      modifies this
      ensures out == old(out) + [c]
    {
      out := out + [c];
    }

    /** n times the same character */
    method Pad(c: char, n: int)
      modifies this
      ensures out == old(out) + seq(Max0(n), _ => c)
    {
      var k := n - 1;
      ghost var i: nat := 0;
      while k >= 0
        invariant -1 <= k || n <= 0
        invariant i == Max0(n) - Max0(k + 1) && out == old(out) + seq(i, _ => c)
        decreases k
      {
        Putc(c);
        k := k - 1;
        i := i + 1;
        assert seq(i, _ => c) == seq(i - 1, _ => c) + [c];
      }
    }

    method Puts(s: string)
      modifies this
      ensures out == old(out) + s
    {
      var i := 0;
      while i < |s|
        invariant 0 <= i <= |s| && out == old(out) + s[..i]
      {
        Putc(s[i]);
        i := i + 1;
      }
    }

    /** The part of _doprnt that prints a number; the digits are put in a buffer from its end. */
    method PrintNum(u0: nat, base: nat, sign: char, f: Format)
      requires u0 < WORD && 2 <= base <= 16
      modifies this
      ensures out == old(out) + Printed(u0, base, sign, f)
    {
      var buf, p, prec := Build(u0, base, f.prec);
      var prefix := PrefixOf(u0, base, f.altfmt);
      var length := Margin(f.length, MAXBUF - 1 - p, sign, prefix, prec);
      PrintedParts(u0, base, sign, f);
      Emit(buf, p, length, prec, sign, prefix, f);
    }

    /** What is missing to the width. */
    static method Margin(width: int, digits: int, sign: char, prefix: string, prec: int) returns (length: int)
      ensures length == width - digits - |SignOf(sign)| - |prefix| - Max0(prec)
    {
      length := width - digits;
      if sign != '\0' {
        length := length - 1;
      }
      length := length - |prefix|;
      if prec > 0 {
        length := length - prec;
      }
    }

    /** The output, once the digits are known. */
    method Emit(buf: array<char>, p0: int, length0: int, prec: int, sign: char, prefix: string, f: Format)
      requires buf.Length == MAXBUF && -1 <= p0 < MAXBUF
      modifies this
      ensures out == old(out) + (Head(sign, prefix, length0, f) + Tail(buf[p0 + 1..], prec, length0, f))
    {
      var length := EmitHead(length0, sign, prefix, f);
      EmitTail(buf[p0 + 1..], length, prec, f);
    }

    /** Blanks, sign and prefix. */
    method EmitHead(length0: int, sign: char, prefix: string, f: Format) returns (length: int)
      modifies this
      ensures out == old(out) + Head(sign, prefix, length0, f)
      ensures length == if !f.zeropad && !f.ladjust then -1 else length0
    {
      length := length0;
      if !f.zeropad && !f.ladjust {
        Pad(' ', length);
        length := -1;
      }
      if sign != '\0' {
        Putc(sign);
      }
      Puts(prefix);
    }

    /** Zeros, digits and blanks. */
    method EmitTail(digits: string, length0: int, prec: int, f: Format)
      modifies this
      ensures out == old(out) + Tail(digits, prec, length0, f)
    {
      var length := length0;
      Pad('0', prec);
      if f.zeropad {
        Pad('0', length);
        length := -1;
      }
      Puts(digits);
      if f.ladjust {
        Pad(' ', length);
      }
    }

    static method Store(buf: array<char>, p: nat, c: char)
      requires p < buf.Length
      modifies buf
      ensures buf[p..] == [c] + old(buf[p + 1..])
    {
      buf[p] := c;
    }

    /** do { *p-- = digits[u % base]; u /= base; prec--; } while (u != 0) */
    method Build(u0: nat, base: nat, prec0: int) returns (buf: array<char>, p: int, prec: int)
      requires u0 < WORD && 2 <= base <= 16
      ensures fresh(buf) && buf.Length == MAXBUF && -1 <= p < MAXBUF - 1
      ensures buf[p + 1..] == Digits(u0, base) && prec == prec0 - |Digits(u0, base)|
    {
      buf := new char[MAXBUF];
      p, prec := MAXBUF - 1, prec0;
      var u: nat := u0;
      ghost var done: string := "";
      FitsBuffer(u0, u, 0);
      while true
        invariant 0 <= p < MAXBUF && u * Pow2(|done|) <= u0 && (done != "" ==> u > 0)
        invariant buf[p + 1..] == done && prec == prec0 - |done| && |done| == MAXBUF - 1 - p
        invariant Digits(u0, base) == Digits(u, base) + done
        decreases u
      {
        var c := Digit(u % base);
        Store(buf, p, c);
        p := p - 1;
        prec := prec - 1;
        if u < base {
          LastDigit(u, base);
          done := [c] + done;
          return;
        }
        Smaller(u, base);
        Shorter(u, base, |done|, u0);
        DigitsSplit(u, base, done);
        done := [c] + done;
        u := u / base;
        FitsBuffer(u0, u, |done|);
      }
    }
  }

  lemma LastDigit(u: nat, base: nat)
    requires u < base && 2 <= base <= 16
    ensures u % base == u && Digits(u, base) == [Digit(u % base)]
  {
    ModUnique(u, base, 0, u);
  }

  /** Numbers below 2^32 have at most 32 digits. */
  lemma FitsBuffer(u0: nat, u: nat, n: nat)
    requires u0 < WORD && u * Pow2(n) <= u0 && (n > 0 ==> u > 0)
    ensures n < MAXBUF
  {
    Powers();
    if n >= 32 {
      PowMono(32, n);
      MulMono(1, u, Pow2(n));
    }
  }

  lemma Shorter(u: nat, base: nat, n: nat, u0: nat)
    requires u >= base >= 2 && u * Pow2(n) <= u0
    ensures u / base > 0 && u / base * Pow2(n + 1) <= u0
  {
    var q, r := Split(u, base);
    assert base * q > 0;
    MulMono(2, base, q);
    Associate(q, 2, Pow2(n));
    MulMono(q * 2, u, Pow2(n));
  }

  lemma DigitsSplit(u: nat, base: nat, done: string)
    requires u >= base && 2 <= base <= 16
    ensures Digits(u, base) + done == Digits(u / base, base) + ([Digit(u % base)] + done)
  {
  }

  // ---------------------------------------------------------- round trips

  /** Reading stops after the white space. */
  lemma {:induction false} SkipLead(s: string, p: nat, n: nat)
    requires p <= n <= |s| && (forall i :: p <= i < n ==> s[i] == ' ') && !IsSpace(At(s, n))
    ensures SkipSpace(s, p) == n
    decreases n - p
  {
    if p < n { SkipLead(s, p + 1, n); }
  }

  lemma AccGrows(base: nat, v: nat, s: string)
    requires s != [] && base >= 1
    ensures Acc(base, v, s[..|s| - 1]) <= Acc(base, v, s)
  {
    MulMono(1, base, Acc(base, v, s[..|s| - 1]));
  }

  /** Digits are read as long as the number fits a word. */
  lemma {:induction false} ScanRun(s: string, p: nat, base: nat, v: nat, D: string)
    requires p + |D| <= |s| && s[p..p + |D|] == D && AllDigits(D, base) && base >= 1
    requires v < WORD && Acc(base, v, D) < WORD
    ensures Scan(s, p, base, v) == Scan(s, p + |D|, base, Acc(base, v, D))
    decreases |D|
  {
    if D != [] {
      var n := |D| - 1;
      AccGrows(base, v, D);
      ScanRun(s, p, base, v, D[..n]);
      assert s[p + n] == D[n];
      OneDigit(s, p + n, base, Acc(base, v, D[..n]));
    }
  }

  lemma OneDigit(s: string, p: nat, base: nat, v: nat)
    requires p < |s| && DigitValue(s[p], base) >= 0 && v * base + DigitValue(s[p], base) < WORD
    ensures Scan(s, p, base, v) == Scan(s, p + 1, base, v * base + DigitValue(s[p], base))
  {
    var w := v * base + DigitValue(s[p], base);
    assert w >= 0 by { Positive0(v, base); }
    ModUnique(w, WORD, 0, w);
  }

  lemma Positive0(v: nat, base: nat)
    ensures v * base >= 0
  {
  }

  /** Zeros and digits, then blanks or the end. */
  lemma BodyRead(s: string, p: nat, u: nat, base: nat, z: nat)
    requires u < WORD && 2 <= base <= 16
    requires var B := Zeros(z) + Digits(u, base); p + |B| <= |s| && s[p..p + |B|] == B && (p + |B| < |s| ==> s[p + |B|] == ' ')
    ensures Scan(s, p, base, 0) == (u, p + z + |Digits(u, base)|)
  {
    var D := Digits(u, base);
    var B := Zeros(z) + D;
    DigitsRead(u, base);
    AccZeros(base, z, D);
    forall i | 0 <= i < |B| ensures DigitValue(B[i], base) >= 0 {
      if i >= z { assert B[i] == D[i - z]; }
    }
    ScanRun(s, p, base, 0, B);
  }

  /** What follows blanks and sign: prefix, zeros, digits, blanks. */
  ghost predicate BodyAt(s: string, p: nat, u: nat, base: nat, alt: bool, z: nat, t: nat)
    requires 2 <= base <= 16
  {
    p <= |s| && s[p..] == PrefixOf(u, base, alt) + Zeros(z) + Digits(u, base) + Spaces(t)
  }

  /** The number read after white space and sign. */
  function NumberAt(s: string, p: nat, base: nat): nat {
    var (b, q) := Prefix(s, p, base);
    Scan(s, q, b, 0).0
  }

  /** The number with its sign, for numbers that fit. */
  lemma SignedIs(s: string, base: nat, p: nat, u: nat)
    requires SkipSpace(s, 0) == p && u < WORD / 2
    ensures At(s, p) == '-' && NumberAt(s, p + 1, base) == u ==> Signed(s, base).0 == 0 - u
    ensures At(s, p) != '-' && NumberAt(s, p, base) == u ==> Signed(s, base).0 == u
  {
    if u > 0 { ModUnique(WORD - u, WORD, 0, WORD - u); }
    ModUnique(u, WORD, 0, u);
  }

  lemma PrefixedRead(s: string, p: nat, u: nat, base: nat, alt: bool, z: nat, t: nat)
    requires u < WORD && base in {8, 10, 16} && BodyAt(s, p, u, base, alt, z, t)
    ensures NumberAt(s, p, base) == u
    ensures !IsSpace(At(s, p)) && At(s, p) != '-'
  {
    if PrefixOf(u, base, alt) == "0x" {
      HexRead(s, p, u, z, t);
    } else {
      PlainRead(s, p, u, base, alt, z, t);
    }
  }

  lemma HexRead(s: string, p: nat, u: nat, z: nat, t: nat)
    requires u < WORD && p <= |s| && s[p..] == "0x" + Zeros(z) + Digits(u, 16) + Spaces(t)
    ensures Prefix(s, p, 16) == (16, p + 2) && Scan(s, p + 2, 16, 0).0 == u
    ensures At(s, p) == '0'
  {
    var r := s[p..];
    assert r == "0x" + ((Zeros(z) + Digits(u, 16)) + Spaces(t));
    assert s[p] == r[0] == '0' && s[p + 1] == r[1] == 'x';
    Located(s, p, "0x", Zeros(z) + Digits(u, 16), t);
    BodyRead(s, p + 2, u, 16, z);
  }

  lemma PlainRead(s: string, p: nat, u: nat, base: nat, alt: bool, z: nat, t: nat)
    requires u < WORD && base in {8, 10, 16} && BodyAt(s, p, u, base, alt, z, t) && PrefixOf(u, base, alt) != "0x"
    ensures Prefix(s, p, base) == (base, p) && Scan(s, p, base, 0).0 == u
    ensures !IsSpace(At(s, p)) && At(s, p) != '-'
  {
    var D, P := Digits(u, base), PrefixOf(u, base, alt);
    var y := z + |P|;
    PlainZeros(u, base, alt, z);
    assert s[p..] == Zeros(y) + D + Spaces(t);
    Located(s, p, [], Zeros(y) + D, t);
    FirstTwo(s, p, u, base, y, t);
    BodyRead(s, p, u, base, y);
  }

  lemma PlainZeros(u: nat, base: nat, alt: bool, z: nat)
    requires 2 <= base <= 16 && PrefixOf(u, base, alt) != "0x"
    ensures var P := PrefixOf(u, base, alt); P + Zeros(z) == Zeros(z + |P|)
  {
  }

  /** Where the middle of a concatenation lies. */
  lemma Located(s: string, p: nat, a: string, b: string, t: nat)
    requires p <= |s| && s[p..] == a + (b + Spaces(t))
    ensures p + |a| + |b| <= |s| && s[p + |a|..p + |a| + |b|] == b
    ensures p + |a| + |b| < |s| ==> s[p + |a| + |b|] == ' '
  {
    var r := s[p..];
    assert r[|a|..|a| + |b|] == b;
    assert s[p + |a|..p + |a| + |b|] == r[|a|..|a| + |b|];
    assert |s| == p + |a| + |b| + t;
    if t > 0 { assert s[p + |a| + |b|] == r[|a| + |b|]; }
  }

  /** No "0x" is seen where there is none. */
  lemma FirstTwo(s: string, p: nat, u: nat, base: nat, y: nat, t: nat)
    requires 2 <= base <= 16 && p <= |s| && s[p..] == Zeros(y) + Digits(u, base) + Spaces(t)
    ensures p < |s| && DigitValue(s[p], base) >= 0 && At(s, p + 1) != 'x' && At(s, p + 1) != 'X'
    ensures !IsSpace(s[p]) && s[p] != '-'
  {
    DigitsRead(u, base);
    var D := Digits(u, base);
    var r := s[p..];
    assert s[p] == r[0] && (y == 0 ==> r[0] == D[0]);
    if p + 1 < |s| {
      assert s[p + 1] == r[1];
      if 1 < y {
      } else if 1 < y + |D| {
        assert r[1] == D[1 - y];
      }
    }
  }

  /** The parts of what is printed. */
  lemma PrintedBody(u: nat, base: nat, sign: char, f: Format) returns (lead: nat, z: nat, t: nat)
    requires 2 <= base <= 16
    ensures var s := Printed(u, base, sign, f);
            lead + |SignOf(sign)| <= |s| && s[..lead + |SignOf(sign)|] == Spaces(lead) + SignOf(sign)
            && BodyAt(s, lead + |SignOf(sign)|, u, base, f.altfmt, z, t)
  {
    var pad := Max0(Missing(u, base, sign, f));
    var D := Digits(u, base);
    lead := if !f.zeropad && !f.ladjust then pad else 0;
    z := Max0(f.prec - |D|) + if f.zeropad then pad else 0;
    t := if !f.zeropad && f.ladjust then pad else 0;
    assert Printed(u, base, sign, f) == Spaces(lead) + SignOf(sign) + PrefixOf(u, base, f.altfmt) + Zeros(z) + D + Spaces(t);
    Regroup(Spaces(lead) + SignOf(sign), PrefixOf(u, base, f.altfmt), Zeros(z), D, Spaces(t));
    Laid(u, base, sign, f, lead, z, t);
  }

  /** The body starts after the blanks and the sign. */
  lemma Laid(u: nat, base: nat, sign: char, f: Format, lead: nat, z: nat, t: nat)
    requires 2 <= base <= 16
    requires var h := Spaces(lead) + SignOf(sign);
             var s := Printed(u, base, sign, f);
             |h| <= |s| && s[..|h|] == h && s[|h|..] == PrefixOf(u, base, f.altfmt) + Zeros(z) + Digits(u, base) + Spaces(t)
    ensures var s := Printed(u, base, sign, f);
            var p := lead + |SignOf(sign)|;
            p <= |s| && s[..p] == Spaces(lead) + SignOf(sign) && BodyAt(s, p, u, base, f.altfmt, z, t)
  {
    assert |Spaces(lead) + SignOf(sign)| == lead + |SignOf(sign)|;
  }

  lemma Regroup(h: string, a: string, b: string, c: string, d: string)
    ensures h + a + b + c + d == h + (a + b + c + d)
    ensures (h + a + b + c + d)[..|h|] == h && (h + a + b + c + d)[|h|..] == a + b + c + d
  {
  }

  /** strtoul undoes printing, whatever the flags, width and precision. */
  lemma UnsignedRoundTrip(u: nat, base: nat, f: Format)
    requires u < WORD && base in {8, 10, 16}
    ensures Unsigned(Printed(u, base, '\0', f), base).0 == u
  {
    var lead, z, t := PrintedBody(u, base, '\0', f);
    var s := Printed(u, base, '\0', f);
    PrefixedRead(s, lead, u, base, f.altfmt, z, t);
    LeadIs(s, lead, '\0');
    SkipLead(s, 0, lead);
  }

  /** print_signed: the sign and the absolute value that are printed for n; plus is '\0', ' ' or '+'. */
  function PrintedLong(n: int, base: nat, plus: char, f: Format): string
    requires 2 <= base <= 16
  {
    if n >= 0 then Printed(n, base, plus, f) else Printed(-n, base, '-', f)
  }

  /** The sign is a minus for negative numbers, and plus for the others. */
  lemma FilledLong(n: int, base: nat, plus: char, f: Format)
    requires 2 <= base <= 16
    ensures var s := PrintedLong(n, base, plus, f);
            var sign := if n < 0 then '-' else plus;
            var u := if n < 0 then -n else n;
            var k := CoreLength(u, base, sign, f);
            && k <= |s|
            && CoreAt(s, if f.zeropad || f.ladjust then 0 else |s| - k, if f.ladjust && !f.zeropad then k else |s|, u, base, sign, f)
  {
    Filled(if n < 0 then -n else n, base, if n < 0 then '-' else plus, f);
  }

  /** strtol undoes printing, for all numbers but the least, exactly if no plus sign is printed
      before a number other than zero: then it reads 0. */
  lemma SignedRoundTrip(n: int, base: nat, plus: char, f: Format)
    requires -0x8000_0000 < n < 0x8000_0000 && base in {8, 10, 16} && (plus == '\0' || plus == ' ' || plus == '+')
    ensures Signed(PrintedLong(n, base, plus, f), base).0 == n <==> n <= 0 || plus != '+'
    ensures n > 0 && plus == '+' ==> Signed(PrintedLong(n, base, plus, f), base).0 == 0
  {
    SignedRead(n, base, plus, f);
  }

  lemma SignedRead(n: int, base: nat, plus: char, f: Format)
    requires -0x8000_0000 < n < 0x8000_0000 && base in {8, 10, 16} && (plus == '\0' || plus == ' ' || plus == '+')
    ensures Signed(PrintedLong(n, base, plus, f), base).0 == if n > 0 && plus == '+' then 0 else n
  {
    if n < 0 {
      MinusRead(-n, base, f);
    } else if plus == '+' {
      PlusRead(n, base, f);
    } else {
      PositiveRead(n, base, plus, f);
    }
  }

  lemma MinusRead(u: nat, base: nat, f: Format)
    requires 0 < u < 0x8000_0000 && base in {8, 10, 16}
    ensures Signed(Printed(u, base, '-', f), base).0 == 0 - u
  {
    var lead, z, t := PrintedBody(u, base, '-', f);
    MinusText(Printed(u, base, '-', f), lead, u, base, f.altfmt, z, t);
  }

  lemma MinusText(s: string, lead: nat, u: nat, base: nat, alt: bool, z: nat, t: nat)
    requires 0 < u < 0x8000_0000 && base in {8, 10, 16}
    requires lead + 1 <= |s| && s[..lead + 1] == Spaces(lead) + SignOf('-') && BodyAt(s, lead + 1, u, base, alt, z, t)
    ensures Signed(s, base).0 == 0 - u
  {
    LeadIs(s, lead, '-');
    PrefixedRead(s, lead + 1, u, base, alt, z, t);
    SkipLead(s, 0, lead);
    SignedIs(s, base, lead, u);
  }

  lemma PositiveRead(u: nat, base: nat, plus: char, f: Format)
    requires u < 0x8000_0000 && base in {8, 10, 16} && (plus == '\0' || plus == ' ')
    ensures Signed(Printed(u, base, plus, f), base).0 == u
  {
    var lead, z, t := PrintedBody(u, base, plus, f);
    PositiveText(Printed(u, base, plus, f), lead, u, base, plus, f.altfmt, z, t);
  }

  lemma PositiveText(s: string, lead: nat, u: nat, base: nat, plus: char, alt: bool, z: nat, t: nat)
    requires u < 0x8000_0000 && base in {8, 10, 16} && (plus == '\0' || plus == ' ')
    requires var p := lead + |SignOf(plus)|; p <= |s| && s[..p] == Spaces(lead) + SignOf(plus) && BodyAt(s, p, u, base, alt, z, t)
    ensures Signed(s, base).0 == u
  {
    var p := lead + |SignOf(plus)|;
    PrefixedRead(s, p, u, base, alt, z, t);
    LeadIs(s, lead, plus);
    SkipLead(s, 0, p);
    SignedIs(s, base, p, u);
  }

  /** Blanks, then the sign. */
  lemma LeadIs(s: string, lead: nat, sign: char)
    requires lead + |SignOf(sign)| <= |s| && s[..lead + |SignOf(sign)|] == Spaces(lead) + SignOf(sign)
    ensures forall i :: 0 <= i < lead ==> s[i] == ' '
    ensures sign != '\0' ==> s[lead] == sign
  {
    var h := s[..lead + |SignOf(sign)|];
    assert forall i :: 0 <= i < lead ==> s[i] == h[i];
    if sign != '\0' { assert s[lead] == h[lead]; }
  }

  /** A plus sign is not passed over, and no digit. */
  lemma PlusRead(u: nat, base: nat, f: Format)
    requires u < 0x8000_0000 && base in {8, 10, 16}
    ensures Signed(Printed(u, base, '+', f), base).0 == 0
  {
    var lead, z, t := PrintedBody(u, base, '+', f);
    var s := Printed(u, base, '+', f);
    LeadIs(s, lead, '+');
    SkipLead(s, 0, lead);
  }
}
