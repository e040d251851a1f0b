/** Packets of the GDB remote serial protocol, as `kernel/gdb_serial.c` sends them (GDB User
    Manual, appendix "GDB Remote Serial Protocol", section "Overview"). */
module Gdb {
  import opened Options

  type Byte = b: int | 0 <= b < 256

  const DOLLAR: Byte := '$' as int
  const HASH: Byte := '#' as int
  const STAR: Byte := '*' as int
  const PLUS: Byte := '+' as int

  // ---------------------------------------------------------- hex digits

  /** hexchars */
  function HexChar(n: nat): Byte
    requires n < 16
  {
    if n < 10 then '0' as int + n else 'a' as int + (n - 10)
  }

  /** hex: the value of a digit, or -1 */
  function Hex(ch: Byte): int {
    if '0' as int <= ch <= '9' as int then ch - '0' as int
    else if 'a' as int <= ch <= 'f' as int then ch - 'a' as int + 10
    else if 'A' as int <= ch <= 'F' as int then ch - 'A' as int + 10
    else -1
  }

  lemma HexOfChar(n: nat)
    requires n < 16
    ensures Hex(HexChar(n)) == n && HexChar(n) != STAR && HexChar(n) != HASH && HexChar(n) != DOLLAR
  {
  }

  /** A digit may be in either case, and nothing else is one. */
  lemma HexTable(ch: Byte, d: nat)
    requires d < 16
    ensures Hex(ch) == d <==> if d < 10 then ch == '0' as int + d else ch == 'a' as int + d - 10 || ch == 'A' as int + d - 10
    ensures -1 <= Hex(ch) < 16
  {
  }

  /** (hex(a) << 4) | hex(b), which is negative if either digit is bad */
  function HexPair(a: Byte, b: Byte): int {
    if Hex(a) < 0 || Hex(b) < 0 then -1 else 16 * Hex(a) + Hex(b)
  }

  /** The bytes that a string of hex digits stands for. */
  function Bin(s: seq<Byte>): (r: seq<int>)
    requires |s| % 2 == 0
    ensures |r| == |s| / 2
  {
    if s == [] then [] else [HexPair(s[0], s[1])] + Bin(s[2..])
  }

  lemma {:induction false} BinAt(s: seq<Byte>, i: nat)
    requires |s| % 2 == 0 && 2 * i < |s|
    ensures Bin(s)[i] == HexPair(s[2 * i], s[2 * i + 1])
  {
    if i > 0 { BinAt(s[2..], i - 1); }
  }

  /** hex2bin: decodes len bytes, up to the first bad digit. */
  method Hex2Bin(s: seq<Byte>, out: array<Byte>, len: nat) returns (r: int)
    requires 2 * len <= |s| && len <= out.Length
    modifies out
    ensures r == 0 || r == -1
    ensures r == 0 <==> forall i :: 0 <= i < len ==> Bin(s[..2 * len])[i] >= 0
    ensures r == 0 ==> out[..len] == Bin(s[..2 * len])
    ensures forall i :: len <= i < out.Length ==> out[i] == old(out[i])
  {
    var i := 0;
    ghost var bin := Bin(s[..2 * len]);
    while i < len
      invariant 0 <= i <= len
      invariant forall k :: 0 <= k < i ==> bin[k] >= 0 && out[k] == bin[k]
      invariant forall k :: i <= k < out.Length ==> out[k] == old(out[k])
    {
      BinAt(s[..2 * len], i);
      var ch := HexPair(s[2 * i], s[2 * i + 1]);
      if ch < 0 {
        return -1;
      }
      out[i] := ch;
      i := i + 1;
    }
    r := 0;
  }

  // ----------------------------------------------------------- encoding

  /** How many bytes at the front equal the first one, at most `limit` of them. */
  function Run(d: seq<Byte>, limit: nat): (n: nat)
    requires d != [] && limit >= 1
    ensures 1 <= n <= limit && n <= |d|
    ensures forall i :: 0 <= i < n ==> d[i] == d[0]
    ensures n < limit && n < |d| ==> d[n] != d[0]
  {
    if limit == 1 || |d| == 1 || d[1] != d[0] then 1 else 1 + Run(d[1..], limit - 1)
  }

  /** A run of two bytes or more whose two hex digits are equal: four or more equal characters. */
  predicate HexRun(d: seq<Byte>) {
    |d| >= 2 && d[1] == d[0] && Twin(d[0])
  }

  predicate PlainRun(d: seq<Byte>) {
    |d| >= 4 && d[1] == d[0] && d[2] == d[0] && d[3] == d[0]
  }

  /** A character, the star, and the repeat character for a run of rl characters. */
  function Repeated(ch: Byte, rl: nat): seq<Byte>
    requires 4 <= rl <= 98
  {
    [ch, STAR, 29 + rl - 1]
  }

  /** The characters sent for a fragment of binary data, in hex. */
  function EncodeHex(d: seq<Byte>): seq<Byte> {
    if d == [] then []
    else if HexRun(d) then
      var n := Run(d, 49);
      assert n >= 2;
      Repeated(HexChar(d[0] % 16), 2 * n) + EncodeHex(d[n..])
    else [HexChar(d[0] / 16), HexChar(d[0] % 16)] + EncodeHex(d[1..])
  }

  /** The characters sent for a fragment of text. */
  function EncodePlain(d: seq<Byte>): seq<Byte> {
    if d == [] then []
    else if PlainRun(d) then
      var n := Run(d, 98);
      assert Run(d[1..], 97) >= 3 by { assert Run(d[1..][1..], 96) >= 2; }
      Repeated(d[0], n) + EncodePlain(d[n..])
    else [d[0]] + EncodePlain(d[1..])
  }

  // ----------------------------------------------------------- decoding

  function Times(ch: Byte, n: nat): (s: seq<Byte>)
    ensures |s| == n && forall i :: 0 <= i < n ==> s[i] == ch
  {
    if n == 0 then [] else [ch] + Times(ch, n - 1)
  }

  /** What the receiver makes of run-length encoding: a star repeats the character before it as
      often as the character after it, less 29, says. */
  function Expand(s: seq<Byte>): seq<Byte> {
    if s == [] then []
    else if |s| >= 3 && s[1] == STAR && s[2] >= 29 then Times(s[0], s[2] - 28) + Expand(s[3..])
    else [s[0]] + Expand(s[1..])
  }

  lemma ExpandOne(c: Byte, s: seq<Byte>)
    requires s == [] || s[0] != STAR
    ensures Expand([c] + s) == [c] + Expand(s)
  {
    assert ([c] + s)[1..] == s;
  }

  lemma ExpandTwo(a: Byte, b: Byte, s: seq<Byte>)
    requires b != STAR && (s == [] || s[0] != STAR)
    ensures Expand([a, b] + s) == [a, b] + Expand(s)
  {
    ExpandOne(b, s);
    ExpandOne(a, [b] + s);
    Pair(a, b, s);
    Pair(a, b, Expand(s));
  }

  lemma Pair(a: Byte, b: Byte, s: seq<Byte>)
    ensures [a, b] + s == [a] + ([b] + s)
  {
  }

  lemma ExpandRun(c: Byte, rl: nat, s: seq<Byte>)
    requires 4 <= rl <= 98
    ensures Expand(Repeated(c, rl) + s) == Times(c, rl) + Expand(s)
  {
    assert (Repeated(c, rl) + s)[3..] == s;
  }

  /** Two digits for each byte. */
  function HexOf(d: seq<Byte>): seq<Byte> {
    if d == [] then [] else [HexChar(d[0] / 16), HexChar(d[0] % 16)] + HexOf(d[1..])
  }

  lemma {:induction false} HexOfAppend(d: seq<Byte>, e: seq<Byte>)
    ensures HexOf(d + e) == HexOf(d) + HexOf(e)
  {
    if d == [] {
      assert d + e == e;
    } else {
      assert (d + e)[1..] == d[1..] + e;
      HexOfAppend(d[1..], e);
    }
  }

  /** A run of n equal bytes is a run of 2n digits, if the digits are equal. */
  lemma {:induction false} HexOfRun(d: seq<Byte>, n: nat)
    requires n <= |d| && n > 0 && Twin(d[0]) && forall i :: 0 <= i < n ==> d[i] == d[0]
    ensures HexOf(d[..n]) == Times(HexChar(d[0] % 16), 2 * n)
  {
    var c := HexChar(d[0] % 16);
    if n == 1 {
      assert HexOf(d[..1][1..]) == [];
      assert Times(c, 2) == [c] + Times(c, 1) && Times(c, 1) == [c] + Times(c, 0);
    } else {
      HexOfRun(d[1..], n - 1);
      assert d[..n][1..] == d[1..][..n - 1];
      assert Times(c, 2 * n) == [c] + ([c] + Times(c, 2 * n - 2));
    }
  }

  /** Encodings never start with a star. */
  lemma EncodeStart(d: seq<Byte>)
    ensures EncodeHex(d) != [] ==> EncodeHex(d)[0] != STAR
  {
    if d != [] {
      HexOfChar(d[0] / 16);
      HexOfChar(d[0] % 16);
    }
  }

  lemma {:induction false} BinOfHex(d: seq<Byte>)
    ensures |HexOf(d)| == 2 * |d| && Bin(HexOf(d)) == d
  {
    if d != [] {
      HexOfChar(d[0] / 16);
      HexOfChar(d[0] % 16);
      BinOfHex(d[1..]);
      assert HexOf(d)[2..] == HexOf(d[1..]);
    }
  }

  /** The round trip: sent in hex with run lengths, expanded, and decoded, data comes back. */
  lemma RoundTrip(d: seq<Byte>)
    ensures var s := Expand(EncodeHex(d)); |s| == 2 * |d| && Bin(s) == d
  {
    ExpandHexThen(d, []);
    assert EncodeHex(d) + [] == EncodeHex(d) && HexOf(d) + [] == HexOf(d);
    BinOfHex(d);
  }

  /** The same for text, as long as it has no star of its own. */
  lemma ExpandPlain(d: seq<Byte>)
    requires STAR !in d
    ensures Expand(EncodePlain(d)) == d
  {
    ExpandPlainThen(d, []);
    assert EncodePlain(d) + [] == EncodePlain(d) && d + [] == d;
  }

  lemma PlainStart(d: seq<Byte>)
    requires STAR !in d
    ensures EncodePlain(d) != [] ==> EncodePlain(d)[0] != STAR
  {
    if d != [] { assert d[0] in d; }
  }

  // ------------------------------------------- the characters that occur

  /** Characters that a packet of binary data is made of: hex digits, the star, and repeat
      characters, which are even and lie between 32 and 126. */
  predicate HexPacketChar(b: Byte) {
    Hex(b) >= 0 || b == STAR || (32 <= b <= 126 && b % 2 == 0)
  }

  lemma {:induction false} EncodeChars(d: seq<Byte>, i: nat)
    requires i < |EncodeHex(d)|
    ensures HexPacketChar(EncodeHex(d)[i]) && 32 <= EncodeHex(d)[i] <= 126
    ensures EncodeHex(d)[i] != HASH
    decreases |d|
  {
    HexOfChar(d[0] / 16);
    HexOfChar(d[0] % 16);
    if HexRun(d) {
      var n := Run(d, 49);
      assert Repeated(HexChar(d[0] % 16), 2 * n)[2] == 28 + 2 * n;
      if i >= 3 { EncodeChars(d[n..], i - 3); }
    } else {
      if i >= 2 { EncodeChars(d[1..], i - 2); }
    }
  }

  /** The length of the run at the front, without limit. */
  function Whole(d: seq<Byte>): (n: nat)
    requires d != []
    ensures 1 <= n <= |d|
    ensures forall i :: 0 <= i < n ==> d[i] == d[0]
    ensures n < |d| ==> d[n] != d[0]
  {
    if |d| == 1 || d[1] != d[0] then 1 else 1 + Whole(d[1..])
  }

  /** Some maximal run of a byte with two equal digits has a length of 4 modulo 49. */
  predicate FourRun(d: seq<Byte>)
    decreases |d|
  {
    d != [] && ((Twin(d[0]) && Whole(d) % 49 == 4) || FourRun(d[Whole(d)..]))
  }

  lemma {:induction false} RunOfWhole(d: seq<Byte>, limit: nat)
    requires d != [] && limit >= 1
    ensures Run(d, limit) == if Whole(d) < limit then Whole(d) else limit
    decreases |d|
  {
    if limit > 1 && |d| > 1 && d[1] == d[0] { RunOfWhole(d[1..], limit - 1); }
  }

  lemma {:induction false} WholeRest(d: seq<Byte>, n: nat)
    requires d != [] && n < Whole(d)
    ensures Whole(d[n..]) == Whole(d) - n && d[n] == d[0]
  {
    if n == 0 {
      assert d[0..] == d;
    } else {
      WholeRest(d[1..], n - 1);
      assert d[1..][n - 1..] == d[n..];
    }
  }

  lemma InRepeated(c: Byte, rl: nat, s: seq<Byte>)
    requires 4 <= rl <= 98 && c != DOLLAR
    ensures DOLLAR in Repeated(c, rl) + s <==> rl == 8 || DOLLAR in s
  {
    assert Repeated(c, rl)[2] == 28 + rl;
  }

  /** The two hex digits of a byte are equal. */
  predicate Twin(b: Byte) {
    b / 16 == b % 16
  }

  /** Of a run longer than 49, 49 bytes can be put aside. */
  lemma FourTail(d: seq<Byte>)
    requires d != [] && 49 < Whole(d)
    ensures FourRun(d) <==> FourRun(d[49..])
  {
    var e := d[49..];
    WholeRest(d, 49);
    assert e[Whole(e)..] == d[Whole(d)..];
    LessFortyNine(Whole(d));
    assert FourRun(e) <==> (Twin(e[0]) && Whole(e) % 49 == 4) || FourRun(e[Whole(e)..]);
  }

  lemma LessFortyNine(w: nat)
    requires w > 49
    ensures (w - 49) % 49 == w % 49
  {
  }

  /** Bytes with different digits do not count. */
  lemma FourSkip(d: seq<Byte>)
    requires d != [] && !Twin(d[0])
    ensures FourRun(d) <==> FourRun(d[1..])
  {
    if 1 < Whole(d) {
      WholeRest(d, 1);
      assert d[1..][Whole(d) - 1..] == d[Whole(d)..];
    }
  }

  lemma DollarRun(d: seq<Byte>)
    requires d != [] && HexRun(d)
    requires DOLLAR in EncodeHex(d[Run(d, 49)..]) <==> FourRun(d[Run(d, 49)..])
    ensures DOLLAR in EncodeHex(d) <==> FourRun(d)
  {
    HexOfChar(d[0] % 16);
    var n := Run(d, 49);
    RunOfWhole(d, 49);
    InRepeated(HexChar(d[0] % 16), 2 * n, EncodeHex(d[n..]));
    if n < Whole(d) {
      FourTail(d);
    } else {
      UpToFortyNine(n);
    }
  }

  lemma UpToFortyNine(n: nat)
    requires n <= 49
    ensures 2 * n == 8 <==> n % 49 == 4
  {
  }

  /** The dollar sign, which the protocol forbids as a repeat character, is sent exactly for a
      run of eight digits. */
  lemma {:induction false} DollarSent(d: seq<Byte>)
    ensures DOLLAR in EncodeHex(d) <==> FourRun(d)
    decreases |d|
  {
    if d == [] {
    } else if HexRun(d) {
      DollarSent(d[Run(d, 49)..]);
      DollarRun(d);
    } else {
      HexOfChar(d[0] / 16);
      HexOfChar(d[0] % 16);
      DollarSent(d[1..]);
      if Twin(d[0]) {
        assert Whole(d) == 1;
      } else {
        FourSkip(d);
      }
    }
  }

  // ----------------------------------------------------- hashes in text

  /** Some maximal run has a length of 7 modulo 98. */
  predicate SevenRun(d: seq<Byte>)
    decreases |d|
  {
    d != [] && (Whole(d) % 98 == 7 || SevenRun(d[Whole(d)..]))
  }

  /** Of a run longer than 98, 98 characters can be put aside. */
  lemma SevenTail(d: seq<Byte>)
    requires d != [] && 98 < Whole(d)
    ensures SevenRun(d) <==> SevenRun(d[98..])
  {
    var e := d[98..];
    WholeRest(d, 98);
    assert e[Whole(e)..] == d[Whole(d)..];
    LessNinetyEight(Whole(d));
    assert SevenRun(e) <==> Whole(e) % 98 == 7 || SevenRun(e[Whole(e)..]);
  }

  lemma LessNinetyEight(w: nat)
    requires w > 98
    ensures (w - 98) % 98 == w % 98
  {
  }

  /** Short runs do not count. */
  lemma SevenSkip(d: seq<Byte>)
    requires d != [] && Whole(d) <= 3
    ensures SevenRun(d) <==> SevenRun(d[1..])
  {
    SevenShort(d);
    if 1 < Whole(d) {
      WholeRest(d, 1);
      assert d[1..][Whole(d) - 1..] == d[Whole(d)..];
      SevenShort(d[1..]);
    }
  }

  lemma SevenShort(d: seq<Byte>)
    requires d != [] && Whole(d) <= 3
    ensures SevenRun(d) <==> SevenRun(d[Whole(d)..])
  {
    UpToNinetyEight(Whole(d));
  }

  lemma ShortRun(d: seq<Byte>)
    requires d != [] && !PlainRun(d)
    ensures Whole(d) <= 3
  {
    var n := Whole(d);
  }

  lemma HashRun(d: seq<Byte>)
    requires PlainRun(d)
    ensures var n := Run(d, 98);
            && 4 <= n <= 98 && EncodePlain(d) == Repeated(d[0], n) + EncodePlain(d[n..])
            && (HASH in d <==> d[0] == HASH || HASH in d[n..])
  {
    var n := Run(d, 98);
    assert Run(d[1..], 97) >= 3 by { assert Run(d[1..][1..], 96) >= 2; }
    assert d == d[..n] + d[n..] && d[0] in d;
  }

  lemma SevenStep(d: seq<Byte>)
    requires d != []
    ensures SevenRun(d) <==> Run(d, 98) == 7 || SevenRun(d[Run(d, 98)..])
  {
    RunOfWhole(d, 98);
    if 98 < Whole(d) { SevenTail(d); } else { UpToNinetyEight(Whole(d)); }
  }

  lemma UpToNinetyEight(n: nat)
    requires n <= 98
    ensures n % 98 == 7 <==> n == 7
  {
  }

  /** The hash, which ends a packet, is sent exactly if the text has one, or a run of which 7
      characters are sent as a run: then it is the repeat character. */
  lemma {:induction false} HashSent(d: seq<Byte>)
    ensures HASH in EncodePlain(d) <==> HASH in d || SevenRun(d)
    decreases |d|
  {
    if d == [] {
    } else if PlainRun(d) {
      var n := Run(d, 98);
      HashRun(d);
      SevenStep(d);
      HashSent(d[n..]);
      assert Repeated(d[0], n)[2] == 28 + n;
    } else {
      ShortRun(d);
      SevenSkip(d);
      HashSent(d[1..]);
      assert d == [d[0]] + d[1..];
    }
  }

  /** A part of an encoding stands for something else than the whole. */
  lemma {:induction false} PartDiffers(d: seq<Byte>, k: nat)
    requires STAR !in d && k < |EncodePlain(d)|
    ensures Expand(EncodePlain(d)[..k]) != d
    decreases |d|
  {
    if k == 0 {
      assert EncodePlain(d)[..0] == [];
    } else if PlainRun(d) {
      HashRun(d);
      if k >= 3 {
        PartDiffers(d[Run(d, 98)..], k - 3);
        AfterRun(d, k);
      } else {
        InRun(d, k);
      }
    } else {
      PartDiffers(d[1..], k - 1);
      AfterOne(d, k);
    }
  }

  lemma AfterRun(d: seq<Byte>, k: nat)
    requires PlainRun(d) && 3 <= k <= |EncodePlain(d)|
    ensures var n := Run(d, 98);
            var t := EncodePlain(d[n..]);
            k - 3 <= |t| && (Expand(t[..k - 3]) != d[n..] ==> Expand(EncodePlain(d)[..k]) != d)
  {
    HashRun(d);
    var n := Run(d, 98);
    var s := EncodePlain(d[n..])[..k - 3];
    assert EncodePlain(d)[..k] == Repeated(d[0], n) + s;
    ExpandRun(d[0], n, s);
    assert (Times(d[0], n) + Expand(s))[n..] == Expand(s);
  }

  lemma InRun(d: seq<Byte>, k: nat)
    requires PlainRun(d) && STAR !in d && 1 <= k <= 2
    ensures k < |EncodePlain(d)| && Expand(EncodePlain(d)[..k]) != d
  {
    HashRun(d);
    var s := EncodePlain(d)[..k];
    assert s == if k == 1 then [d[0]] else [d[0], STAR];
    assert |Expand(s[1..])| <= 1;
  }

  lemma AfterOne(d: seq<Byte>, k: nat)
    requires d != [] && !PlainRun(d) && STAR !in d && 1 <= k <= |EncodePlain(d)|
    ensures var t := EncodePlain(d[1..]);
            k - 1 <= |t| && (Expand(t[..k - 1]) != d[1..] ==> Expand(EncodePlain(d)[..k]) != d)
  {
    var s := EncodePlain(d[1..])[..k - 1];
    PlainStart(d[1..]);
    assert EncodePlain(d)[..k] == [d[0]] + s;
    ExpandOne(d[0], s);
    assert ([d[0]] + Expand(s))[1..] == Expand(s);
  }

  // ------------------------------------------------------------ packets

  function Sum(s: seq<Byte>): nat {
    if s == [] then 0 else Sum(s[..|s| - 1]) + s[|s| - 1]
  }

  /** The running checksum, after the characters of s. */
  function Check(c: Byte, s: seq<Byte>): Byte {
    if s == [] then c else (Check(c, s[..|s| - 1]) + s[|s| - 1]) % 256
  }

  lemma {:induction false} CheckAppend(c: Byte, s: seq<Byte>, t: seq<Byte>)
    ensures Check(c, s + t) == Check(Check(c, s), t)
    decreases |t|
  {
    if t == [] {
      assert s + t == s;
    } else {
      assert (s + t)[..|s + t| - 1] == s + t[..|t| - 1];
      CheckAppend(c, s, t[..|t| - 1]);
    }
  }

  /** It is the sum modulo 256. */
  lemma {:induction false} CheckIsSum(s: seq<Byte>)
    ensures Check(0, s) == Sum(s) % 256
    decreases |s|
  {
    if s != [] {
      CheckIsSum(s[..|s| - 1]);
      AddMod(Sum(s[..|s| - 1]), s[|s| - 1]);
    }
  }

  lemma AddMod(a: nat, b: nat)
    ensures (a % 256 + b) % 256 == (a + b) % 256
  {
  }

  /** A piece of a packet: memory from an address on, of which len bytes are meant, or those
      up to the terminator if len is zero; to be sent in hex or as it is. */
  datatype Frag = Frag(data: seq<Byte>, len: nat, hexify: bool)

  predicate WellFormed(f: Frag) {
    if f.len == 0 then 0 in f.data else f.len <= |f.data|
  }

  /** Where the first zero is. */
  function Terminator(d: seq<Byte>): (z: nat)
    requires 0 in d
    ensures z < |d| && d[z] == 0 && forall i :: 0 <= i < z ==> d[i] != 0
  {
    if d[0] == 0 then 0 else 1 + Terminator(d[1..])
  }

  function Contents(f: Frag): (c: seq<Byte>)
    requires WellFormed(f)
    ensures c <= f.data
    ensures f.len == 0 ==> |c| < |f.data| && f.data[|c|] == 0 && forall i :: 0 <= i < |c| ==> c[i] != 0
    ensures f.len != 0 ==> |c| == f.len
  {
    if f.len == 0 then f.data[..Terminator(f.data)] else f.data[..f.len]
  }

  function EncodeAs(hexify: bool, d: seq<Byte>): seq<Byte> {
    if hexify then EncodeHex(d) else EncodePlain(d)
  }

  function Encode(f: Frag): seq<Byte>
    requires WellFormed(f)
  {
    EncodeAs(f.hexify, Contents(f))
  }

  function Payload(frags: seq<Frag>): seq<Byte>
    requires forall f :: f in frags ==> WellFormed(f)
  {
    if frags == [] then [] else Payload(frags[..|frags| - 1]) + Encode(frags[|frags| - 1])
  }

  /** $<payload>#<checksum> */
  function Packet(payload: seq<Byte>): seq<Byte> {
    var c := Sum(payload) % 256;
    [DOLLAR] + payload + [HASH, HexChar(c / 16), HexChar(c % 16)]
  }

  /** The receiver: the data up to the first hash, if the two digits after it are its sum. */
  function Receive(s: seq<Byte>, n: nat): Option<seq<Byte>>
    requires n <= |s|
    decreases |s| - n
  {
    if n >= |s| then None
    else if s[n] != HASH then Receive(s, n + 1)
    else if n >= 1 && s[0] == DOLLAR && n + 2 < |s| && HexPair(s[n + 1], s[n + 2]) == Sum(s[1..n]) % 256 then Some(s[1..n])
    else None
  }

  /** A packet is received as it was sent, if its payload has no hash. */
  lemma {:induction false} Received(p: seq<Byte>, n: nat)
    requires HASH !in p && 0 < n <= |p| + 1
    ensures Receive(Packet(p), n) == Some(p)
    decreases |p| + 1 - n
  {
    var s := Packet(p);
    if n <= |p| {
      assert s[n] == p[n - 1] && p[n - 1] in p;
      Received(p, n + 1);
    } else {
      var c := Sum(p) % 256;
      HexOfChar(c / 16);
      HexOfChar(c % 16);
      assert s[1..n] == p;
    }
  }

  /** Binary data sent as one fragment arrives: received, expanded and decoded, it is the same. */
  lemma EndToEnd(d: seq<Byte>)
    ensures var r := Receive(Packet(EncodeHex(d)), 0);
            r.Some? && |Expand(r.value)| == 2 * |d| && Bin(Expand(r.value)) == d
  {
    NoHexHash(d);
    Received(EncodeHex(d), 1);
    RoundTrip(d);
  }

  /** What is received of a packet is a part of its payload, and all of it only without a hash. */
  lemma {:induction false} ReceivedPart(p: seq<Byte>, n: nat)
    requires HASH in p && 0 < n <= |p| && HASH !in p[..n - 1]
    ensures var r := Receive(Packet(p), n); r.Some? ==> exists k: nat :: k < |p| && r.value == p[..k]
    decreases |p| - n
  {
    var s := Packet(p);
    assert s[n] == p[n - 1];
    if s[n] == HASH {
      assert s[1..n] == p[..n - 1];
    } else {
      assert p[..n] == p[..n - 1] + [p[n - 1]];
      assert p[..|p|] == p;
      ReceivedPart(p, n + 1);
    }
  }

  /** Text without a star, sent as one fragment, arrives exactly if it has no hash and no maximal
      run of length 7 modulo 98. */
  lemma TextEndToEnd(d: seq<Byte>)
    requires STAR !in d
    ensures var r := Receive(Packet(EncodePlain(d)), 0);
            r.Some? && Expand(r.value) == d <==> HASH !in d && !SevenRun(d)
  {
    var p := EncodePlain(d);
    HashSent(d);
    assert Receive(Packet(p), 0) == Receive(Packet(p), 1);
    if HASH in p {
      ReceivedPart(p, 1);
      var r := Receive(Packet(p), 0);
      if r.Some? {
        var k: nat :| k < |p| && r.value == p[..k];
        PartDiffers(d, k);
      }
    } else {
      Received(p, 1);
      ExpandPlain(d);
    }
  }

  /** Seven equal characters do not arrive. */
  lemma SevenExample()
    ensures var d: seq<Byte> := Times('=' as int, 7);
            EncodePlain(d) == ['=' as int, STAR, HASH] && SevenRun(d)
  {
    var d := Times('=' as int, 7);
    RunIs(d, 98, 7);
    RunOfWhole(d, 98);
    assert d[7..] == [];
  }

  // ------------------------------------------- packets of several parts

  ghost predicate NoStar(s: seq<Byte>) {
    s == [] || s[0] != STAR
  }

  /** The characters of binary data are expanded by themselves, whatever follows. */
  lemma {:induction false} ExpandHexThen(d: seq<Byte>, t: seq<Byte>)
    requires NoStar(t)
    ensures Expand(EncodeHex(d) + t) == HexOf(d) + Expand(t)
    decreases |d|
  {
    if d == [] {
      assert [] + t == t && [] + Expand(t) == Expand(t);
    } else if HexRun(d) {
      ExpandHexThen(d[Run(d, 49)..], t);
      HexRunThen(d, t);
    } else {
      ExpandHexThen(d[1..], t);
      HexPairThen(d, t);
    }
  }

  lemma HexRunThen(d: seq<Byte>, t: seq<Byte>)
    requires HexRun(d)
    requires var e := d[Run(d, 49)..]; Expand(EncodeHex(e) + t) == HexOf(e) + Expand(t)
    ensures Expand(EncodeHex(d) + t) == HexOf(d) + Expand(t)
  {
    var n := Run(d, 49);
    var e := EncodeHex(d[n..]);
    var a := Repeated(HexChar(d[0] % 16), 2 * n);
    Assoc(a, e, t);
    ExpandRun(HexChar(d[0] % 16), 2 * n, e + t);
    HexOfRun(d, n);
    HexOfAppend(d[..n], d[n..]);
    assert d == d[..n] + d[n..];
    Assoc(HexOf(d[..n]), HexOf(d[n..]), Expand(t));
  }

  lemma HexPairThen(d: seq<Byte>, t: seq<Byte>)
    requires d != [] && !HexRun(d) && NoStar(t) && Expand(EncodeHex(d[1..]) + t) == HexOf(d[1..]) + Expand(t)
    ensures Expand(EncodeHex(d) + t) == HexOf(d) + Expand(t)
  {
    HexOfChar(d[0] / 16);
    HexOfChar(d[0] % 16);
    EncodeStart(d[1..]);
    var p := [HexChar(d[0] / 16), HexChar(d[0] % 16)];
    Assoc(p, EncodeHex(d[1..]), t);
    ExpandTwo(HexChar(d[0] / 16), HexChar(d[0] % 16), EncodeHex(d[1..]) + t);
    Assoc(p, HexOf(d[1..]), Expand(t));
  }

  /** So are those of text without a star. */
  lemma {:induction false} ExpandPlainThen(d: seq<Byte>, t: seq<Byte>)
    requires STAR !in d && NoStar(t)
    ensures Expand(EncodePlain(d) + t) == d + Expand(t)
    decreases |d|
  {
    if d == [] {
      assert [] + t == t && [] + Expand(t) == Expand(t);
    } else if PlainRun(d) {
      ExpandPlainThen(d[Run(d, 98)..], t);
      PlainRunThen(d, t);
    } else {
      ExpandPlainThen(d[1..], t);
      PlainCharThen(d, t);
    }
  }

  lemma PlainRunThen(d: seq<Byte>, t: seq<Byte>)
    requires PlainRun(d)
    requires var e := d[Run(d, 98)..]; Expand(EncodePlain(e) + t) == e + Expand(t)
    ensures Expand(EncodePlain(d) + t) == d + Expand(t)
  {
    var n := Run(d, 98);
    HashRun(d);
    Assoc(Repeated(d[0], n), EncodePlain(d[n..]), t);
    ExpandRun(d[0], n, EncodePlain(d[n..]) + t);
    RunSplit(d, n);
    Assoc(Times(d[0], n), d[n..], Expand(t));
  }

  lemma RunSplit(d: seq<Byte>, n: nat)
    requires 0 < n <= |d| && forall i :: 0 <= i < n ==> d[i] == d[0]
    ensures d == Times(d[0], n) + d[n..]
  {
  }

  lemma PlainCharThen(d: seq<Byte>, t: seq<Byte>)
    requires d != [] && !PlainRun(d) && STAR !in d && NoStar(t) && Expand(EncodePlain(d[1..]) + t) == d[1..] + Expand(t)
    ensures Expand(EncodePlain(d) + t) == d + Expand(t)
  {
    PlainStart(d[1..]);
    Assoc([d[0]], EncodePlain(d[1..]), t);
    ExpandOne(d[0], EncodePlain(d[1..]) + t);
    Assoc([d[0]], d[1..], Expand(t));
    assert d == [d[0]] + d[1..];
  }

  /** The text fragments have no star. */
  ghost predicate Starless(frags: seq<Frag>) {
    forall f :: f in frags ==> WellFormed(f) && (!f.hexify ==> STAR !in Contents(f))
  }

  lemma EncodeThen(f: Frag, t: seq<Byte>)
    requires Starless([f]) && NoStar(t)
    ensures Expand(Encode(f) + t) == (if f.hexify then HexOf(Contents(f)) else Contents(f)) + Expand(t)
    ensures NoStar(Encode(f) + t)
  {
    assert f in [f];
    if f.hexify {
      ExpandHexThen(Contents(f), t);
      EncodeStart(Contents(f));
    } else {
      ExpandPlainThen(Contents(f), t);
      PlainStart(Contents(f));
    }
  }

  lemma {:induction false} PayloadThen(frags: seq<Frag>, t: seq<Byte>)
    requires Starless(frags) && NoStar(t)
    ensures Expand(Payload(frags) + t) == Expand(Payload(frags)) + Expand(t)
    decreases |frags|
  {
    if frags == [] {
      assert [] + t == t && [] + Expand(t) == Expand(t);
    } else {
      var rest, f := frags[..|frags| - 1], frags[|frags| - 1];
      assert f in frags;
      EncodeThen(f, t);
      EncodeThen(f, []);
      assert Encode(f) + [] == Encode(f);
      PayloadThen(rest, Encode(f) + t);
      PayloadThen(rest, Encode(f));
      Assoc(Payload(rest), Encode(f), t);
      Regroup(Expand(Payload(rest)), if f.hexify then HexOf(Contents(f)) else Contents(f), Expand(t));
    }
  }

  lemma Regroup(a: seq<Byte>, b: seq<Byte>, c: seq<Byte>)
    ensures a + (b + c) == (a + (b + [])) + c && b + [] == b
  {
    Assoc(a, b, c);
  }

  /** The string s is, for each fragment in turn, two hex digits for each of its bytes, or its text. */
  predicate Conveys(s: seq<Byte>, frags: seq<Frag>)
    requires forall f :: f in frags ==> WellFormed(f)
    decreases |frags|
  {
    if frags == [] then s == []
    else
      var f := frags[|frags| - 1];
      var c := Contents(f);
      var n := if f.hexify then 2 * |c| else |c|;
      n <= |s| && (if f.hexify then Bin(s[|s| - n..]) == c else s[|s| - n..] == c) && Conveys(s[..|s| - n], frags[..|frags| - 1])
  }

  /** What is sent for a list of fragments expands to their contents in order. */
  lemma {:induction false} PayloadConveys(frags: seq<Frag>)
    requires Starless(frags)
    ensures Conveys(Expand(Payload(frags)), frags)
  {
    if frags != [] {
      var rest, f := frags[..|frags| - 1], frags[|frags| - 1];
      assert f in frags;
      PayloadConveys(rest);
      EncodeThen(f, []);
      assert Encode(f) + [] == Encode(f) && Expand([]) == [];
      PayloadThen(rest, Encode(f));
      var a, b := Expand(Payload(rest)), Expand(Encode(f));
      BinOfHex(Contents(f));
      assert (a + b)[..|a|] == a && (a + b)[|a|..] == b;
      assert b == if f.hexify then HexOf(Contents(f)) else Contents(f);
    }
  }

  /** A text fragment in which a hash is sent. */
  ghost predicate Hashes(f: Frag)
    requires WellFormed(f)
  {
    !f.hexify && (HASH in Contents(f) || SevenRun(Contents(f)))
  }

  /** A packet contains a hash before its end exactly if one of its text fragments does. */
  lemma {:induction false} PayloadHash(frags: seq<Frag>)
    requires forall f :: f in frags ==> WellFormed(f)
    ensures HASH in Payload(frags) <==> exists f :: f in frags && Hashes(f)
  {
    if frags != [] {
      var rest, f := frags[..|frags| - 1], frags[|frags| - 1];
      assert frags == rest + [f];
      assert f in frags;
      PayloadHash(rest);
      EncodedHash(f);
      assert Payload(frags) == Payload(rest) + Encode(f);
      if g :| g in rest && Hashes(g) { assert g in frags; }
    }
  }

  lemma EncodedHash(f: Frag)
    requires WellFormed(f)
    ensures HASH in Encode(f) <==> Hashes(f)
  {
    if f.hexify { NoHexHash(Contents(f)); } else { HashSent(Contents(f)); }
  }

  lemma NoHexHash(d: seq<Byte>)
    ensures HASH !in EncodeHex(d)
  {
    if HASH in EncodeHex(d) {
      var i: nat :| i < |EncodeHex(d)| && EncodeHex(d)[i] == HASH;
      EncodeChars(d, i);
    }
  }

  /** A packet brings its fragments to the receiver, if the text among them has no star and sends no hash. */
  ghost predicate Brings(packet: seq<Byte>, frags: seq<Frag>) {
    Starless(frags) && (forall f :: f in frags ==> !Hashes(f)) ==>
      var r := Receive(packet, 0); r.Some? && Conveys(Expand(r.value), frags)
  }

  lemma PacketBrings(frags: seq<Frag>)
    requires forall f :: f in frags ==> WellFormed(f)
    ensures Brings(Packet(Payload(frags)), frags)
  {
    if Starless(frags) && forall f :: f in frags ==> !Hashes(f) {
      PayloadHash(frags);
      PayloadConveys(frags);
      Received(Payload(frags), 1);
      assert Receive(Packet(Payload(frags)), 0) == Receive(Packet(Payload(frags)), 1);
    }
  }

  /** The reply OK is sent as it is, and the byte 'O' in hex as 4f. */
  lemma PlainExample()
    ensures var ok := Frag(['O' as int, 'K' as int, 0], 0, false);
            var hex := Frag(['O' as int], 1, true);
            WellFormed(ok) && Payload([ok]) == ['O' as int, 'K' as int] && Payload([hex]) == ['4' as int, 'f' as int]
  {
    var ok := Frag(['O' as int, 'K' as int, 0], 0, false);
    var c := Contents(ok);
    assert ok.data[2] == 0;
    assert |c| == 2 by {
      assert ok.data[0] != 0 && ok.data[1] != 0;
    }
    assert c == ['O' as int, 'K' as int];
    assert c[1..] == ['K' as int] && c[1..][1..] == [];
    assert EncodePlain(c[1..]) == ['K' as int];
    assert [ok][..0] == [] && Payload([]) == [];
    var hex := Frag(['O' as int], 1, true);
    assert Contents(hex) == ['O' as int];
    assert ['O' as int][1..] == [] && EncodeHex([]) == [];
    assert EncodeHex(Contents(hex)) == ['4' as int, 'f' as int];
    assert [hex][..0] == [];
  }

  /** The packet of the reply OK is $OK#9a. */
  lemma PacketExample()
    ensures Packet(['O' as int, 'K' as int]) == ['$' as int, 'O' as int, 'K' as int, '#' as int, '9' as int, 'a' as int]
  {
    var s := ['O' as int, 'K' as int];
    assert s[..1] == ['O' as int] && s[..1][..0] == [];
    assert Sum(s[..1]) == 79;
    assert Sum(s) == 0x9a;
  }

  // ------------------------------------------------------- sending them

  /** The serial line: what has been sent, and what will be received. */
  class Serial {
    var sent: seq<Byte>
    var replies: seq<Byte>

    constructor (replies: seq<Byte>)
      ensures sent == [] && this.replies == replies
    {
      sent := [];
      this.replies := replies;
    }

    /** SEND */
    method Send(ch: Byte, checksum: Byte) returns (sum: Byte)
      modifies this`sent
      ensures sent == old(sent) + [ch] && sum == (checksum + ch) % 256 && sum == Check(checksum, [ch])
    {
      sent := sent + [ch];
      sum := (checksum + ch) % 256;
      assert [ch][..0] == [];
    }

    /** Finds the end of the run at p. */
    method EndOfRun(f: Frag, p: nat, start: nat, cap: nat) returns (q: nat)
      requires WellFormed(f) && p < start <= |Contents(f)| && start <= p + cap
      requires forall i :: p <= i < start ==> f.data[i] == f.data[p]
      ensures p < q <= |Contents(f)| && q - p == Run(Contents(f)[p..], cap)
    {
      ghost var c := Contents(f);
      q := start;
      var limit := if f.len != 0 && p + cap > f.len then f.len else p + cap;
      assert f.data[p] == c[p];
      while q < limit && f.data[q] == f.data[p]
        invariant start <= q <= limit && q <= |c| && forall i :: p <= i < q ==> c[i] == c[p]
      {
        assert q < |c|;
        q := q + 1;
      }
      RunIs(c[p..], cap, q - p);
    }

    /** The characters of a run, if there is one at p. */
    method SendRun(ch: Byte, rl: nat, checksum: Byte) returns (sum: Byte)
      requires 4 <= rl <= 98
      modifies this`sent
      ensures sent == old(sent) + Repeated(ch, rl) && sum == Check(checksum, Repeated(ch, rl))
    {
      sum := Send(ch, checksum);
      sum := Send(STAR, sum);
      sum := Send(29 + rl - 1, sum);
      CheckThree(checksum, ch, STAR, 29 + rl - 1);
    }

    /** One fragment. */
    method SendFrag(f: Frag, checksum0: Byte) returns (checksum: Byte)
      requires WellFormed(f)
      modifies this`sent
      ensures sent == old(sent) + Encode(f) && checksum == Check(checksum0, Encode(f))
    {
      var p := 0;
      checksum := checksum0;
      ghost var out, c := [], Contents(f);
      assert c[0..] == c;
      while if f.len != 0 then p < f.len else f.data[p] != 0
        invariant p <= |c| && sent == old(sent) + out && checksum == Check(checksum0, out)
        invariant out + EncodeAs(f.hexify, c[p..]) == Encode(f)
        decreases |c| - p
      {
        ghost var step;
        if f.hexify {
          p, checksum, step := SendHex(f, p, checksum);
        } else {
          p, checksum, step := SendPlain(f, p, checksum);
        }
        CheckAppend(checksum0, out, step);
        Assoc(old(sent), out, step);
        Assoc(out, step, EncodeAs(f.hexify, c[p..]));
        out := out + step;
      }
      assert c[p..] == [] && out + [] == out;
    }

    /** One run, or one byte, of a fragment sent in hex. */
    method SendHex(f: Frag, p: nat, checksum0: Byte) returns (q: nat, checksum: Byte, ghost step: seq<Byte>)
      requires WellFormed(f) && p < |Contents(f)|
      modifies this`sent
      ensures p < q <= |Contents(f)| && sent == old(sent) + step && checksum == Check(checksum0, step)
      ensures EncodeHex(Contents(f)[p..]) == step + EncodeHex(Contents(f)[q..])
    {
      var d := f.data;
      ghost var c := Contents(f);
      assert d[p] == c[p];
      if (f.len == 0 || p + 1 < f.len) && d[p + 1] == d[p] && Twin(d[p]) {
        assert p + 1 < |c| && c[p + 1] == d[p + 1];
        q := EndOfRun(f, p, p + 2, 98 / 2);
        var rl := (q - p) * 2;
        HexRunStep(c, p, q);
        checksum := SendRun(HexChar(d[p] % 16), rl, checksum0);
        step := Repeated(HexChar(d[p] % 16), rl);
      } else {
        checksum := Send(HexChar(d[p] / 16), checksum0);
        checksum := Send(HexChar(d[p] % 16), checksum);
        q := p + 1;
        step := [HexChar(d[p] / 16), HexChar(d[p] % 16)];
        CheckTwo(checksum0, step[0], step[1]);
        HexByteStep(c, p);
      }
    }

    /** One run, or one character, of a fragment of text. */
    method SendPlain(f: Frag, p: nat, checksum0: Byte) returns (q: nat, checksum: Byte, ghost step: seq<Byte>)
      requires WellFormed(f) && p < |Contents(f)|
      modifies this`sent
      ensures p < q <= |Contents(f)| && sent == old(sent) + step && checksum == Check(checksum0, step)
      ensures EncodePlain(Contents(f)[p..]) == step + EncodePlain(Contents(f)[q..])
    {
      var d := f.data;
      ghost var c := Contents(f);
      assert d[p] == c[p];
      if (f.len == 0 || p + 3 < f.len) && d[p + 1] == d[p] && d[p + 2] == d[p] && d[p + 3] == d[p] {
        FourEqual(f, p);
        q, checksum, step := SendPlainRun(f, p, checksum0);
      } else {
        checksum := Send(d[p], checksum0);
        q := p + 1;
        step := [d[p]];
        PlainCharStep(f, p);
      }
    }

    /** A run of four or more equal characters. */
    method SendPlainRun(f: Frag, p: nat, checksum0: Byte) returns (q: nat, checksum: Byte, ghost step: seq<Byte>)
      requires WellFormed(f) && p + 3 < |Contents(f)| && PlainRun(Contents(f)[p..])
      requires forall i :: p <= i < p + 4 ==> f.data[i] == f.data[p]
      modifies this`sent
      ensures p < q <= |Contents(f)| && sent == old(sent) + step && checksum == Check(checksum0, step)
      ensures EncodePlain(Contents(f)[p..]) == step + EncodePlain(Contents(f)[q..])
    {
      q := EndOfRun(f, p, p + 4, 98);
      PlainRunStep(Contents(f), p, q);
      assert f.data[p] == Contents(f)[p];
      checksum := SendRun(f.data[p], q - p, checksum0);
      step := Repeated(f.data[p], q - p);
    }

    /** putfrags: the packet, again and again until the other side likes it; waiting is true if
        no further reply comes.  Each packet brings its fragments to the receiver. */
    method PutFrags(frags: seq<Frag>) returns (waiting: bool)
      requires forall f :: f in frags ==> WellFormed(f)
      modifies this
      ensures Brings(Packet(Payload(frags)), frags)
      ensures !waiting ==> exists n: nat :: Liked(old(replies), n) && replies == old(replies)[n..]
                                         && sent == old(sent) + Repeat(Packet(Payload(frags)), n)
      ensures waiting ==> Refused(old(replies), |old(replies)|) && replies == []
                          && sent == old(sent) + Repeat(Packet(Payload(frags)), |old(replies)| + 1)
    {
      PacketBrings(frags);
      waiting := Insist(frags);
    }

    /** The packet, again and again until the other side likes it. */
    method Insist(frags: seq<Frag>) returns (waiting: bool)
      requires forall f :: f in frags ==> WellFormed(f)
      modifies this
      ensures !waiting ==> exists n: nat :: Liked(old(replies), n) && replies == old(replies)[n..]
                                         && sent == old(sent) + Repeat(Packet(Payload(frags)), n)
      ensures waiting ==> Refused(old(replies), |old(replies)|) && replies == []
                          && sent == old(sent) + Repeat(Packet(Payload(frags)), |old(replies)| + 1)
    {
      ghost var n, packet, said := 0, Packet(Payload(frags)), replies;
      var liked := false;
      while !liked
        invariant 0 <= n <= |said| && replies == said[n..]
        invariant sent == old(sent) + Repeat(packet, n)
        invariant if liked then Liked(said, n) else Refused(said, n)
        decreases !liked, |replies|
      {
        waiting, liked := Round(frags, packet, said, old(sent), n);
        if waiting {
          return;
        }
        n := n + 1;
      }
      return false;
    }

    /** One packet and the reply to it, if there is one. */
    method Round(frags: seq<Frag>, ghost packet: seq<Byte>, ghost said: seq<Byte>, ghost start: seq<Byte>, ghost n: nat)
      returns (waiting: bool, liked: bool)
      requires (forall f :: f in frags ==> WellFormed(f)) && packet == Packet(Payload(frags))
      requires Refused(said, n) && replies == said[n..] && sent == start + Repeat(packet, n)
      modifies this
      ensures sent == start + Repeat(packet, n + 1) && waiting == (n == |said|)
      ensures if waiting then replies == [] else replies == said[n + 1..]
      ensures !waiting ==> if liked then Liked(said, n + 1) else Refused(said, n + 1)
    {
      RepeatMore(start, packet, n);
      SendPacket(frags);
      if replies == [] {
        return true, false;
      }
      Tail(said, n);
      Answered(said, n);
      liked := Reply();
      waiting := false;
    }

    /** gdb_serial_recv, and the test for '+' */
    method Reply() returns (liked: bool)
      requires replies != []
      modifies this`replies
      ensures replies == old(replies)[1..] && (liked <==> old(replies)[0] % 128 == PLUS)
    {
      liked := replies[0] % 128 == PLUS;
      replies := replies[1..];
    }

    method SendPacket(frags: seq<Frag>)
      requires forall f :: f in frags ==> WellFormed(f)
      modifies this`sent
      ensures sent == old(sent) + Packet(Payload(frags))
    {
      sent := sent + [DOLLAR];
      var checksum := SendAll(frags);
      CheckIsSum(Payload(frags));
      PacketParts(old(sent), Payload(frags), checksum);
      SendTrailer(checksum);
    }

    method SendAll(frags: seq<Frag>) returns (checksum: Byte)
      requires forall f :: f in frags ==> WellFormed(f)
      modifies this`sent
      ensures sent == old(sent) + Payload(frags) && checksum == Check(0, Payload(frags))
    {
      checksum := 0;
      var i := 0;
      while i < |frags|
        invariant 0 <= i <= |frags| && sent == old(sent) + Payload(frags[..i])
        invariant checksum == Check(0, Payload(frags[..i]))
      {
        PayloadOne(frags, i);
        CheckAppend(0, Payload(frags[..i]), Encode(frags[i]));
        Assoc(old(sent), Payload(frags[..i]), Encode(frags[i]));
        checksum := SendFrag(frags[i], checksum);
        i := i + 1;
      }
      assert frags[..|frags|] == frags;
    }

    method SendTrailer(checksum: Byte)
      modifies this`sent
      ensures sent == old(sent) + [HASH, HexChar(checksum / 16), HexChar(checksum % 16)]
    {
      sent := sent + [HASH];
      sent := sent + [HexChar(checksum / 16)];
      sent := sent + [HexChar(checksum % 16)];
    }
  }

  lemma PayloadOne(frags: seq<Frag>, i: nat)
    requires i < |frags| && forall f :: f in frags ==> WellFormed(f)
    ensures Payload(frags[..i + 1]) == Payload(frags[..i]) + Encode(frags[i])
  {
    assert frags[..i + 1][..i] == frags[..i];
  }

  lemma RepeatMore(s: seq<Byte>, p: seq<Byte>, n: nat)
    ensures (s + Repeat(p, n)) + p == s + Repeat(p, n + 1)
  {
  }

  lemma PacketParts(s: seq<Byte>, p: seq<Byte>, c: Byte)
    requires c == Sum(p) % 256
    ensures s + [DOLLAR] + p + [HASH, HexChar(c / 16), HexChar(c % 16)] == s + Packet(p)
  {
  }

  /** The n-th reply is the first that is a plus, apart from bit 7. */
  ghost predicate Liked(replies: seq<Byte>, n: nat) {
    && 0 < n <= |replies| && replies[n - 1] % 128 == PLUS
    && forall k :: 0 <= k < n - 1 ==> replies[k] % 128 != PLUS
  }

  /** The first n replies do not accept the packet. */
  ghost predicate Refused(replies: seq<Byte>, n: nat) {
    n <= |replies| && forall k :: 0 <= k < n ==> replies[k] % 128 != PLUS
  }

  lemma Answered(replies: seq<Byte>, n: nat)
    requires n < |replies| && Refused(replies, n)
    ensures if replies[n] % 128 == PLUS then Liked(replies, n + 1) else Refused(replies, n + 1)
  {
  }

  lemma Assoc(a: seq<Byte>, b: seq<Byte>, c: seq<Byte>)
    ensures a + (b + c) == (a + b) + c
  {
  }

  lemma Tail(s: seq<Byte>, n: nat)
    requires n < |s|
    ensures s[n..] != [] && s[n..][0] == s[n] && s[n..][1..] == s[n + 1..]
  {
  }

  lemma HexRunStep(d: seq<Byte>, p: nat, q: nat)
    requires p < q <= |d| && HexRun(d[p..]) && q - p == Run(d[p..], 49)
    ensures 4 <= 2 * (q - p) <= 98 && EncodeHex(d[p..]) == Repeated(HexChar(d[p] % 16), 2 * (q - p)) + EncodeHex(d[q..])
  {
    assert d[p..][q - p..] == d[q..];
  }

  /** Four equal characters before the terminator, or in len bytes. */
  lemma FourEqual(f: Frag, p: nat)
    requires WellFormed(f) && p < |Contents(f)| && (f.len == 0 || p + 3 < f.len)
    requires p + 1 < |f.data| && f.data[p + 1] == f.data[p]
    requires p + 2 < |f.data| && f.data[p + 2] == f.data[p]
    requires p + 3 < |f.data| && f.data[p + 3] == f.data[p]
    ensures p + 3 < |Contents(f)| && PlainRun(Contents(f)[p..])
  {
    var c := Contents(f);
    assert c[p] == f.data[p];
    assert p + 1 < |c| && c[p + 1] == f.data[p + 1];
    assert p + 2 < |c| && c[p + 2] == f.data[p + 2];
    assert p + 3 < |c| && c[p + 3] == f.data[p + 3];
  }

  lemma PlainRunStep(c: seq<Byte>, p: nat, q: nat)
    requires p < q <= |c| && PlainRun(c[p..]) && q - p == Run(c[p..], 98)
    ensures 4 <= q - p <= 98 && EncodePlain(c[p..]) == Repeated(c[p], q - p) + EncodePlain(c[q..])
  {
    HashRun(c[p..]);
    assert c[p..][q - p..] == c[q..];
  }

  lemma PlainCharStep(f: Frag, p: nat)
    requires WellFormed(f) && p < |Contents(f)|
    requires (f.len != 0 && p + 3 >= f.len) || !(p + 3 < |f.data| && f.data[p + 1] == f.data[p] && f.data[p + 2] == f.data[p] && f.data[p + 3] == f.data[p])
    ensures EncodePlain(Contents(f)[p..]) == [f.data[p]] + EncodePlain(Contents(f)[p + 1..])
  {
    var d := Contents(f)[p..];
    assert d[1..] == Contents(f)[p + 1..];
    if |d| >= 4 { assert d[1] == f.data[p + 1] && d[2] == f.data[p + 2] && d[3] == f.data[p + 3]; }
  }

  lemma HexByteStep(d: seq<Byte>, p: nat)
    requires p < |d| && !HexRun(d[p..])
    ensures EncodeHex(d[p..]) == [HexChar(d[p] / 16), HexChar(d[p] % 16)] + EncodeHex(d[p + 1..])
  {
    assert d[p..][1..] == d[p + 1..];
  }

  function Repeat(s: seq<Byte>, n: nat): seq<Byte> {
    if n == 0 then [] else Repeat(s, n - 1) + s
  }

  lemma {:induction false} RunIs(d: seq<Byte>, limit: nat, n: nat)
    requires d != [] && 1 <= n <= limit && n <= |d| && (forall i :: 0 <= i < n ==> d[i] == d[0])
    requires n == limit || n == |d| || d[n] != d[0]
    ensures Run(d, limit) == n
    decreases n
  {
    if n > 1 { RunIs(d[1..], limit - 1, n - 1); }
  }

  lemma CheckTwo(c: Byte, a: Byte, b: Byte)
    ensures Check(c, [a, b]) == Check(Check(c, [a]), [b])
  {
    CheckAppend(c, [a], [b]);
    assert [a] + [b] == [a, b];
  }

  lemma CheckThree(c: Byte, a: Byte, b: Byte, d: Byte)
    ensures Check(c, [a, b, d]) == Check(Check(Check(c, [a]), [b]), [d])
  {
    CheckTwo(c, a, b);
    CheckAppend(c, [a, b], [d]);
    assert [a, b] + [d] == [a, b, d];
  }
}
