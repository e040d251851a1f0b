/** Word memory and the circular doubly linked bin lists of `shared/malloc.c`.

    Every chunk starts on a double-word boundary, so the memory is kept as two
    maps of 32-bit words, both indexed by multiples of 8: `lo` holds the word at
    address a and `hi` the word at address a + 4.  A chunk at p therefore has
    prev_size in lo[p], size in hi[p], fd in lo[p+8] and bk in hi[p+8]. */
module MallocLists {

  type Mem = map<int, int>

  /** The word stored at `a`; words never written read as zero, as in .bss. */
  function Rd(m: Mem, a: int): int {
    if a in m then m[a] else 0
  }

  /** p->fd */
  function Fd(lo: Mem, p: int): int {
    Rd(lo, p + 8)
  }

  /** p->bk */
  function Bk(hi: Mem, p: int): int {
    Rd(hi, p + 8)
  }

  ghost predicate Distinct(s: seq<int>) {
    forall j, k :: 0 <= j < k < |s| ==> s[j] != s[k]
  }

  /** The node after position k of the ring made of header b and list L. */
  ghost function After(b: int, L: seq<int>, k: int): int
    requires -1 <= k < |L|
  {
    if k + 1 < |L| then L[k + 1] else b
  }

  /** The node before position k of that ring. */
  ghost function Before(b: int, L: seq<int>, k: int): int
    requires 0 <= k <= |L|
  {
    if k > 0 then L[k - 1] else b
  }

  /** Memory holds the circular list with header b whose chunks, in fd order, are L. */
  ghost predicate Ring(lo: Mem, hi: Mem, b: int, L: seq<int>) {
    && Fd(lo, b) == After(b, L, -1)
    && Bk(hi, b) == Before(b, L, |L|)
    && (forall k {:trigger Fd(lo, L[k])} :: 0 <= k < |L| ==> Fd(lo, L[k]) == After(b, L, k))
    && (forall k {:trigger Bk(hi, L[k])} :: 0 <= k < |L| ==> Bk(hi, L[k]) == Before(b, L, k))
  }

  ghost function Removed(L: seq<int>, k: int): seq<int>
    requires 0 <= k < |L|
  {
    L[..k] + L[k + 1..]
  }

  ghost function Inserted(L: seq<int>, k: int, x: int): seq<int>
    requires 0 <= k <= |L|
  {
    L[..k] + [x] + L[k..]
  }

  /** m' is m after the one store m[a] := v. */
  ghost predicate Stored(m: Mem, m': Mem, a: int, v: int) {
    forall b {:trigger Rd(m', b)} :: Rd(m', b) == if b == a then v else Rd(m, b)
  }

  /** The two stores of the unlink macro take exactly one chunk off its ring. */
  lemma RingUnlink(lo: Mem, hi: Mem, lo': Mem, hi': Mem, b: int, L: seq<int>, k: int)
    requires Ring(lo, hi, b, L) && Distinct(L) && b !in L
    requires 0 <= k < |L|
    requires Stored(lo, lo', Bk(hi, L[k]) + 8, Fd(lo, L[k]))
    requires Stored(hi, hi', Fd(lo, L[k]) + 8, Bk(hi, L[k]))
    ensures Ring(lo', hi', b, Removed(L, k))
    ensures Fd(lo, L[k]) == After(b, L, k) && Bk(hi, L[k]) == Before(b, L, k)
  {
    var M := Removed(L, k);
    forall m | 0 <= m < |M|
      ensures Fd(lo', M[m]) == After(b, M, m) && Bk(hi', M[m]) == Before(b, M, m)
    {
      var j := if m < k then m else m + 1;
      assert M[m] == L[j];
      assert Fd(lo, L[j]) == After(b, L, j) && Bk(hi, L[j]) == Before(b, L, j);
    }
  }

  /** Storing the four links of a new chunk x puts it at position k of the ring. */
  lemma RingLink(lo: Mem, hi: Mem, lo': Mem, hi': Mem, b: int, L: seq<int>, k: int, x: int)
    requires Ring(lo, hi, b, L) && Distinct(L) && b !in L
    requires 0 <= k <= |L| && x !in L && x != b
    requires Fd(lo', x) == After(b, L, k - 1) && Fd(lo', Before(b, L, k)) == x
    requires Bk(hi', x) == Before(b, L, k) && Bk(hi', After(b, L, k - 1)) == x
    requires forall y {:trigger Fd(lo', y)} :: (y == b || y in L) && y != Before(b, L, k) ==> Fd(lo', y) == Fd(lo, y)
    requires forall y {:trigger Bk(hi', y)} :: (y == b || y in L) && y != After(b, L, k - 1) ==> Bk(hi', y) == Bk(hi, y)
    ensures Ring(lo', hi', b, Inserted(L, k, x))
  {
    var M := Inserted(L, k, x);
    forall m | 0 <= m < |M|
      ensures Fd(lo', M[m]) == After(b, M, m) && Bk(hi', M[m]) == Before(b, M, m)
    {
      if m != k {
        var j := if m < k then m else m - 1;
        assert M[m] == L[j];
        assert Fd(lo, L[j]) == After(b, L, j) && Bk(hi, L[j]) == Before(b, L, j);
      }
    }
  }

  /** A ring is untouched by stores that miss the link words of its nodes. */
  lemma RingFrame(lo: Mem, hi: Mem, lo': Mem, hi': Mem, b: int, L: seq<int>)
    requires Ring(lo, hi, b, L)
    requires Fd(lo', b) == Fd(lo, b) && Bk(hi', b) == Bk(hi, b)
    requires forall k :: 0 <= k < |L| ==> Fd(lo', L[k]) == Fd(lo, L[k]) && Bk(hi', L[k]) == Bk(hi, L[k])
    ensures Ring(lo', hi', b, L)
  {
  }

  /** A fastbin: null-terminated single links, pushed and popped at the head. */
  ghost predicate Chain(lo: Mem, head: int, F: seq<int>) {
    && head == (if F == [] then 0 else F[0])
    && (forall k {:trigger Fd(lo, F[k])} :: 0 <= k < |F| ==> Fd(lo, F[k]) == After(0, F, k))
  }
}
