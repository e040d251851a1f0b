/** memcmp, memmem ("Not So Naive" search) and strstr of `shared/string.c`. */
module Search {
  import opened Options

  newtype Byte = b: int | 0 <= b < 256

  /** memcmp of n bytes: the difference of the first two bytes that differ, or zero. */
  method MemCmp(s1: seq<Byte>, s2: seq<Byte>, n: nat) returns (d: int)
    requires n <= |s1| && n <= |s2|
    ensures d == 0 <==> s1[..n] == s2[..n]
    ensures d != 0 ==> exists i :: 0 <= i < n && s1[..i] == s2[..i] && d == s1[i] as int - s2[i] as int
  {
    d := 0;
    var i := 0;
    while i < n
      invariant 0 <= i <= n && d == 0 && s1[..i] == s2[..i]
    {
      d := s1[i] as int - s2[i] as int;
      if d != 0 {
        assert s1[..n][i] != s2[..n][i];
        return;
      }
      i := i + 1;
    }
  }

  /** The needle x occurs in y at j. */
  ghost predicate Occurs(y: seq<Byte>, x: seq<Byte>, j: int) {
    0 <= j <= |y| - |x| && y[j..j + |x|] == x
  }

  /** No occurrence before j. */
  ghost predicate NoneBefore(y: seq<Byte>, x: seq<Byte>, j: int) {
    forall i {:trigger Occurs(y, x, i)} :: i < j ==> !Occurs(y, x, i)
  }

  lemma OccursAt(y: seq<Byte>, x: seq<Byte>, j: int, i: int)
    requires Occurs(y, x, j) && 0 <= i < |x|
    ensures y[j + i] == x[i]
  {
    assert y[j..j + |x|][i] == x[i];
  }

  /** An occurrence shows in its first two bytes. */
  lemma FirstTwo(y: seq<Byte>, x: seq<Byte>, j: int)
    requires |x| >= 2 && Occurs(y, x, j)
    ensures y[j] == x[0] && y[j + 1] == x[1]
  {
    OccursAt(y, x, j, 0);
    OccursAt(y, x, j, 1);
  }

  /** After a mismatch of the second byte, the skip k passes over no occurrence. */
  lemma SkipMismatch(y: seq<Byte>, x: seq<Byte>, j: int)
    requires |x| >= 2 && 0 <= j <= |y| - |x| && NoneBefore(y, x, j) && x[1] != y[j + 1]
    ensures NoneBefore(y, x, j + if x[0] == x[1] then 2 else 1)
  {
    if Occurs(y, x, j) { FirstTwo(y, x, j); }
    if Occurs(y, x, j + 1) { FirstTwo(y, x, j + 1); }
  }

  /** After a match of the second byte that is no occurrence, neither does the skip l. */
  lemma SkipMatch(y: seq<Byte>, x: seq<Byte>, j: int)
    requires |x| >= 2 && 0 <= j <= |y| - |x| && NoneBefore(y, x, j) && x[1] == y[j + 1] && !Occurs(y, x, j)
    ensures NoneBefore(y, x, j + if x[0] == x[1] then 1 else 2)
  {
    if Occurs(y, x, j + 1) { FirstTwo(y, x, j + 1); }
  }

  /** The test of the search: second byte, the rest, then the first byte. */
  lemma ThreeParts(y: seq<Byte>, x: seq<Byte>, j: int)
    requires |x| >= 2 && 0 <= j <= |y| - |x|
    ensures Occurs(y, x, j) <==> x[1] == y[j + 1] && x[2..] == y[j + 2..][..|x| - 2] && x[0] == y[j]
  {
    var w := y[j..j + |x|];
    assert y[j + 2..][..|x| - 2] == w[2..];
    assert w[0] == y[j] && w[1] == y[j + 1];
    assert w == [w[0], w[1]] + w[2..] && x == [x[0], x[1]] + x[2..];
  }

  /** memmem: the first occurrence of a needle that is not empty; an empty one is not found. */
  method MemMem(y: seq<Byte>, x: seq<Byte>) returns (r: Option<nat>)
    ensures r == None <==> x == [] || forall j :: !Occurs(y, x, j)
    ensures r.Some? ==> Occurs(y, x, r.value) && NoneBefore(y, x, r.value)
  {
    var n, m := |y|, |x|;
    if m > n || m == 0 || n == 0 {
      return None;
    }
    if m != 1 {
      r := SearchLong(y, x);
    } else {
      r := SearchByte(y, x);
    }
  }

  method SearchLong(y: seq<Byte>, x: seq<Byte>) returns (r: Option<nat>)
    requires 2 <= |x| <= |y|
    ensures r == None <==> forall j :: !Occurs(y, x, j)
    ensures r.Some? ==> Occurs(y, x, r.value) && NoneBefore(y, x, r.value)
  {
    var n, m := |y|, |x|;
    var k, l;
    if x[0] == x[1] {
      k, l := 2, 1;
    } else {
      k, l := 1, 2;
    }
    var j := 0;
    while j <= n - m
      invariant 0 <= j && NoneBefore(y, x, j)
      decreases n - j
    {
      ThreeParts(y, x, j);
      if x[1] != y[j + 1] {
        SkipMismatch(y, x, j);
        j := j + k;
      } else {
        var d := MemCmp(x[2..], y[j + 2..], m - 2);
        assert x[2..][..m - 2] == x[2..];
        if d == 0 && x[0] == y[j] {
          return Some(j);
        }
        SkipMatch(y, x, j);
        j := j + l;
      }
    }
    r := None;
    forall i ensures !Occurs(y, x, i) {}
  }

  method SearchByte(y: seq<Byte>, x: seq<Byte>) returns (r: Option<nat>)
    requires 1 == |x| <= |y|
    ensures r == None <==> forall j :: !Occurs(y, x, j)
    ensures r.Some? ==> Occurs(y, x, r.value) && NoneBefore(y, x, r.value)
  {
    var n, p := |y|, 0;
    while true
      invariant 0 < n <= |y| && p == |y| - n && NoneBefore(y, x, p)
      decreases n
    {
      assert Occurs(y, x, p) <==> y[p] == x[0] by { assert y[p..p + 1] == [y[p]] && x == [x[0]]; }
      if y[p] == x[0] {
        return Some(p);
      }
      p := p + 1;
      n := n - 1;
      if n == 0 {
        break;
      }
    }
    r := None;
    forall i ensures !Occurs(y, x, i) {}
  }

  // ------------------------------------------------- terminated strings

  /** Memory from a pointer to a terminated string on. */
  ghost predicate Terminated(s: seq<Byte>) {
    0 in s
  }

  /** The bytes before the terminator. */
  ghost function Chars(s: seq<Byte>): (c: seq<Byte>)
    requires Terminated(s)
    ensures c <= s && 0 !in c && |c| < |s| && s[|c|] == 0
  {
    if s[0] == 0 then [] else [s[0]] + Chars(s[1..])
  }

  lemma NoZeroInside(s: seq<Byte>)
    requires Terminated(s)
    ensures forall k :: 0 <= k < |Chars(s)| ==> s[k] != 0
  {
    var c := Chars(s);
    forall k | 0 <= k < |c| ensures s[k] != 0 {
      assert c[k] in c;
    }
  }

  /** strlen */
  method StrLen(s: seq<Byte>) returns (n: nat)
    requires Terminated(s)
    ensures n == |Chars(s)|
  {
    n := 0;
    ghost var c := Chars(s);
    NoZeroInside(s);
    while s[n] != 0
      invariant n <= |c|
      decreases |c| - n
    {
      n := n + 1;
    }
  }

  /** strstr, except that an empty needle is not found where the C standard (section 7.24.5.7 of
      ISO/IEC 9899:2011) says it is found at the start. */
  method StrStr(haystack: seq<Byte>, needle: seq<Byte>) returns (r: Option<nat>)
    requires Terminated(haystack) && Terminated(needle)
    ensures r == None <==> Chars(needle) == [] || forall j :: !Occurs(Chars(haystack), Chars(needle), j)
    ensures r.Some? ==> Occurs(Chars(haystack), Chars(needle), r.value) && NoneBefore(Chars(haystack), Chars(needle), r.value)
  {
    var n := StrLen(haystack);
    var m := StrLen(needle);
    assert haystack[..n] == Chars(haystack) && needle[..m] == Chars(needle);
    r := MemMem(haystack[..n], needle[..m]);
  }
}
