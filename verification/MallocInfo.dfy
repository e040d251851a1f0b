/** mallinfo: the space accounting, and why it is exact. */
module MallocInfo {
  import opened MallocLists
  import opened MallocBins
  import opened MallocHeap
  import opened MallocMoves
  import opened MallocResize
  import opened MallocTiling
  import opened Sets
  import opened MallocPolicy
  import opened Malloc

  datatype Mallinfo = Mallinfo(arena: int, ordblks: nat, smblks: nat, uordblks: int, fordblks: int, fsmblks: int, keepcost: int)

  ghost function Elems(L: seq<int>): set<int> {
    set x | x in L
  }

  /** The fastbin chunks of the first j fastbins, and the chunks in the bins below i. */
  ghost function FastBelow(h: Heap, j: int): set<int> {
    set p | p in h.ck && h.ck[p].st.Fast? && h.ck[p].size < 8 * (j + 2)
  }

  ghost function BinnedBelow(h: Heap, i: int): set<int> {
    set p | p in h.ck && h.ck[p].st.Binned? && h.ck[p].st.bin < i
  }

  /** One more chunk of a list whose members differ. */
  lemma AddElem(ck: map<int, Chunk>, S: set<int>, p: int)
    requires p in ck && p !in S && S <= ck.Keys
    ensures Total(ck, S + {p}) == Total(ck, S) + ck[p].size && |S + {p}| == |S| + 1
  {
    TotalRemove(ck, S + {p}, p);
    assert S + {p} - {p} == S;
  }

  lemma FastElems(h: Heap, j: int)
    requires Valid(h) && 0 <= j < NFASTBINS
    ensures FastBelow(h, j + 1) == FastBelow(h, j) + Elems(h.fasts[j]) && FastBelow(h, j) !! Elems(h.fasts[j])
    ensures Elems(h.fasts[j]) <= h.ck.Keys
  {
    assert FastOk(h, j);
    forall p | p in h.ck && h.ck[p].st.Fast? ensures h.ck[p].size == 8 * (j + 2) ==> p in h.fasts[j]
                                             ensures h.ck[p].size % 8 == 0 {
      PlaceOf(h, p);
    }
    forall p | p in Elems(h.fasts[j]) ensures p in h.ck && h.ck[p].st.Fast? && h.ck[p].size == 8 * (j + 2) {
      var k :| 0 <= k < |h.fasts[j]| && h.fasts[j][k] == p;
    }
  }

  lemma BinElems(h: Heap, i: int)
    requires Valid(h) && 1 <= i < NBINS
    ensures BinnedBelow(h, i + 1) == BinnedBelow(h, i) + Elems(h.bins[i]) && BinnedBelow(h, i) !! Elems(h.bins[i])
    ensures Elems(h.bins[i]) <= h.ck.Keys
  {
    assert BinOk(h, i);
    forall p | p in h.ck && h.ck[p].st == Binned(i) ensures p in h.bins[i] {
      PlaceOf(h, p);
    }
    forall p | p in Elems(h.bins[i]) ensures p in h.ck && h.ck[p].st == Binned(i) {
      var k :| 0 <= k < |h.bins[i]| && h.bins[i][k] == p;
    }
  }

  /** The totals of the first k chunks of fastbin i, and of the chunks of bin i from k on. */
  ghost predicate FastPrefix(h: Heap, i: int, k: int, n: int, bytes: int)
    requires 0 <= i < |h.fasts| && 0 <= k <= |h.fasts[i]|
  {
    var S := Elems(h.fasts[i][..k]);
    S <= h.ck.Keys && n == |S| && bytes == Total(h.ck, S)
  }

  ghost predicate BinSuffix(h: Heap, i: int, k: int, n: int, bytes: int)
    requires 0 <= i < |h.bins| && 0 <= k <= |h.bins[i]|
  {
    var S := Elems(h.bins[i][k..]);
    S <= h.ck.Keys && n == |S| && bytes == Total(h.ck, S)
  }

  /** The k-th address of a null-terminated list. */
  ghost function NodeAt(F: seq<int>, k: int): int {
    if 0 <= k < |F| then F[k] else 0
  }

  lemma FastStep(h: Heap, i: int, k: int, n: int, bytes: int)
    requires Good(h, {}) && 0 <= i < NFASTBINS && 0 <= k < |h.fasts[i]| && FastPrefix(h, i, k, n, bytes)
    ensures var p := h.fasts[i][k];
            p != 0 && Fd(h.lo, p) == NodeAt(h.fasts[i], k + 1) && FastPrefix(h, i, k + 1, n + 1, bytes + ChunkSize(Rd(h.hi, p)))
  {
    var F := h.fasts[i];
    assert Distinct(F) && F[k] in h.ck && Fd(h.lo, F[k]) == NodeAt(F, k + 1) && h.ck[F[k]].st.Fast? by { assert FastOk(h, i); }
    ReadHead(h, F[k]);
    PlaceOf(h, F[k]);
    PrefixMore(h.ck, F, k);
  }

  lemma PrefixMore(ck: map<int, Chunk>, F: seq<int>, k: int)
    requires Distinct(F) && 0 <= k < |F| && F[k] in ck && Elems(F[..k]) <= ck.Keys
    ensures Elems(F[..k + 1]) <= ck.Keys && |Elems(F[..k + 1])| == |Elems(F[..k])| + 1
    ensures Total(ck, Elems(F[..k + 1])) == Total(ck, Elems(F[..k])) + ck[F[k]].size
  {
    assert Elems(F[..k + 1]) == Elems(F[..k]) + {F[k]};
    AddElem(ck, Elems(F[..k]), F[k]);
  }

  lemma BinStep(h: Heap, i: int, k: int, n: int, bytes: int)
    requires Good(h, {}) && 1 <= i < NBINS && 0 <= k < |h.bins[i]| && BinSuffix(h, i, k + 1, n, bytes)
    ensures var L := h.bins[i];
            var p := L[k];
            && p != BinAt(i) && Bk(h.hi, p) == Before(BinAt(i), L, k)
            && BinSuffix(h, i, k, n + 1, bytes + ChunkSize(Rd(h.hi, p)))
  {
    var L := h.bins[i];
    Neighbours(h, i, k);
    ReadHead(h, L[k]);
    BinHeaderOutside(h, i);
    assert Distinct(L) by { assert BinOk(h, i); }
    SuffixMore(h.ck, L, k);
  }

  lemma SuffixMore(ck: map<int, Chunk>, L: seq<int>, k: int)
    requires Distinct(L) && 0 <= k < |L| && L[k] in ck && Elems(L[k + 1..]) <= ck.Keys
    ensures Elems(L[k..]) <= ck.Keys && |Elems(L[k..])| == |Elems(L[k + 1..])| + 1
    ensures Total(ck, Elems(L[k..])) == Total(ck, Elems(L[k + 1..])) + ck[L[k]].size
  {
    assert Elems(L[k..]) == Elems(L[k + 1..]) + {L[k]};
    AddElem(ck, Elems(L[k + 1..]), L[k]);
  }

  /** Memory may be there or not: without it there is no chunk at all. */
  ghost predicate Begun(m: Mstate)
    reads m
  {
    m.NoMemory() || m.Ready()
  }

  /** Where a traversal of fastbin i stands after k chunks. */
  ghost predicate FastWalk(m: Mstate, i: int, k: nat, p: int, n: nat, bytes: int)
    requires 0 <= i < NFASTBINS
    reads m
  {
    if m.Ready() then k <= |m.heap.fasts[i]| && p == NodeAt(m.heap.fasts[i], k) && FastPrefix(m.heap, i, k, n, bytes)
    else p == n == bytes == 0
  }

  lemma FastWalkStep(m: Mstate, i: int, k: nat, p: int, n: nat, bytes: int)
    requires Begun(m) && 0 <= i < NFASTBINS && FastWalk(m, i, k, p, n, bytes) && p != 0
    ensures m.Ready() && k < |m.heap.fasts[i]|
    ensures FastWalk(m, i, k + 1, Fd(m.lo, p), n + 1, bytes + ChunkSize(Rd(m.hi, p)))
  {
    FastStep(m.heap, i, k, n, bytes);
  }

  /** The chunks of fastbin i. */
  ghost function FastOf(h: Heap, i: int): set<int> {
    set p | p in h.ck && h.ck[p].st.Fast? && h.ck[p].size == 8 * (i + 2)
  }

  lemma FastList(h: Heap, i: int)
    requires Valid(h) && 0 <= i < NFASTBINS
    ensures FastOf(h, i) == Elems(h.fasts[i])
  {
    forall p | p in FastOf(h, i) ensures p in h.fasts[i] {
      PlaceOf(h, p);
    }
    assert FastOk(h, i);
  }

  lemma FastWalkEnd(m: Mstate, i: int, k: nat, n: nat, bytes: int)
    requires Begun(m) && 0 <= i < NFASTBINS && FastWalk(m, i, k, 0, n, bytes)
    ensures n == |FastOf(m.heap, i)| && bytes == Total(m.heap.ck, FastOf(m.heap, i))
    ensures FastBelow(m.heap, i + 1) == FastBelow(m.heap, i) + FastOf(m.heap, i)
  {
    var h := m.heap;
    if m.Ready() {
      if k < |h.fasts[i]| { FastStep(h, i, k, n, bytes); }
      FastElems(h, i);
      assert h.fasts[i][..|h.fasts[i]|] == h.fasts[i];
      FastList(h, i);
    }
  }

  /** Traverse fastbin i. */
  method SumFastbin(m: Mstate, i: int) returns (n: nat, bytes: int)
    requires Begun(m) && 0 <= i < NFASTBINS
    ensures n == |FastOf(m.heap, i)| && bytes == Total(m.heap.ck, FastOf(m.heap, i))
    ensures FastBelow(m.heap, i + 1) == FastBelow(m.heap, i) + FastOf(m.heap, i)
  {
    n, bytes := 0, 0;
    var p := m.fb[i];
    ghost var k := 0;
    if m.Ready() { EmptyFast(m.heap, i); assert FastOk(m.heap, i); }
    while p != 0
      invariant FastWalk(m, i, k, p, n, bytes)
      decreases if m.Ready() then |m.heap.fasts[i]| - k else 0
    {
      FastWalkStep(m, i, k, p, n, bytes);
      n := n + 1;
      bytes := bytes + ChunkSize(Rd(m.hi, p));
      p := Fd(m.lo, p);
      k := k + 1;
    }
    FastWalkEnd(m, i, k, n, bytes);
  }

  /** Where a traversal of bin i stands with k chunks to go. */
  ghost predicate BinWalk(m: Mstate, i: int, k: int, p: int, n: nat, bytes: int)
    requires 1 <= i < NBINS
    reads m
  {
    if m.Ready() then 0 <= k <= |m.heap.bins[i]| && p == Before(BinAt(i), m.heap.bins[i], k) && BinSuffix(m.heap, i, k, n, bytes)
    else p == BinAt(i) && n == bytes == 0
  }

  lemma BinWalkStep(m: Mstate, i: int, k: int, p: int, n: nat, bytes: int)
    requires Begun(m) && 1 <= i < NBINS && BinWalk(m, i, k, p, n, bytes) && p != BinAt(i)
    ensures m.Ready() && k > 0
    ensures BinWalk(m, i, k - 1, Bk(m.hi, p), n + 1, bytes + ChunkSize(Rd(m.hi, p)))
  {
    BinStep(m.heap, i, k - 1, n, bytes);
  }

  /** The chunks of bin i. */
  ghost function BinnedIn(h: Heap, i: int): set<int> {
    set p | p in h.ck && h.ck[p].st == Binned(i)
  }

  lemma BinWalkEnd(m: Mstate, i: int, k: int, n: nat, bytes: int)
    requires Begun(m) && 1 <= i < NBINS && BinWalk(m, i, k, BinAt(i), n, bytes)
    ensures n == |BinnedIn(m.heap, i)| && bytes == Total(m.heap.ck, BinnedIn(m.heap, i))
    ensures BinnedBelow(m.heap, i + 1) == BinnedBelow(m.heap, i) + BinnedIn(m.heap, i)
  {
    var h := m.heap;
    if m.Ready() {
      if k > 0 { BinStep(h, i, k - 1, n, bytes); }
      BinElems(h, i);
      assert h.bins[i][0..] == h.bins[i];
      assert BinnedIn(h, i) == BinnedBelow(h, i + 1) - BinnedBelow(h, i) == Elems(h.bins[i]);
    }
  }

  /** Traverse bin i, from its last chunk. */
  method SumBin(m: Mstate, i: int) returns (n: nat, bytes: int)
    requires Begun(m) && 1 <= i < NBINS
    ensures n == |BinnedIn(m.heap, i)| && bytes == Total(m.heap.ck, BinnedIn(m.heap, i))
    ensures BinnedBelow(m.heap, i + 1) == BinnedBelow(m.heap, i) + BinnedIn(m.heap, i)
  {
    n, bytes := 0, 0;
    var b := BinAt(i);
    var p := Bk(m.hi, b);
    ghost var k: int := if m.Ready() then |m.heap.bins[i]| else 0;
    if m.Ready() { LastOf(m.heap, i); }
    while p != b
      invariant BinWalk(m, i, k, p, n, bytes)
      decreases k
    {
      BinWalkStep(m, i, k, p, n, bytes);
      n := n + 1;
      bytes := bytes + ChunkSize(Rd(m.hi, p));
      p := Bk(m.hi, p);
      k := k - 1;
    }
    BinWalkEnd(m, i, k, n, bytes);
  }

  /** mALLINFo: arena counts all memory from sbrk, uordblks exactly the live chunks, and
      fordblks the rest: fastbin chunks, binned chunks and top, which may not exist yet. */
  method MallInfo(m: Mstate) returns (mi: Mallinfo)
    requires m.Ok()
    modifies m
    ensures Begun(m) && m.heap == old(m.heap) && (old(Begun(m)) ==> unchanged(m))
    ensures var h := m.heap;
            && mi.arena == m.curptr - m.memHeap
            && mi.uordblks == Total(h.ck, Using(h, Live))
            && mi.fordblks == mi.arena - mi.uordblks && mi.keepcost == (if m.Ready() then m.curptr - m.top else 0)
            && mi.smblks == |Using(h, Fast)| && mi.fsmblks == Total(h.ck, Using(h, Fast))
            && mi.ordblks == 1 + |set p | p in h.ck && h.ck[p].st.Binned?|
  {
    if m.top == 0 {
      m.InitState();
    }
    mi := Count(m);
  }

  method Count(m: Mstate) returns (mi: Mallinfo)
    requires Begun(m)
    ensures var h := m.heap;
            && mi.arena == m.curptr - m.memHeap
            && mi.uordblks == Total(h.ck, Using(h, Live))
            && mi.fordblks == mi.arena - mi.uordblks && mi.keepcost == (if m.Ready() then m.curptr - m.top else 0)
            && mi.smblks == |Using(h, Fast)| && mi.fsmblks == Total(h.ck, Using(h, Fast))
            && mi.ordblks == 1 + |set p | p in h.ck && h.ck[p].st.Binned?|
  {
    TopSize(m);
    var nfast, fastavail := FastTotals(m);
    var nbinned, binavail := BinTotals(m);
    var avail := ChunkSize(Rd(m.hi, m.top)) + fastavail + binavail;
    AllBelow(m);
    mi := Mallinfo(m.sbrkedMem, 1 + nbinned, nfast, m.sbrkedMem - avail, avail, fastavail, ChunkSize(Rd(m.hi, m.top)));
  }

  lemma TopSize(m: Mstate)
    requires Begun(m)
    ensures ChunkSize(Rd(m.hi, m.top)) == if m.Ready() then m.curptr - m.top else 0
  {
    if m.Ready() { ReadTop(m.heap); } else { assert ChunkSize(0) == 0; }
  }

  /** What the traversals counted: all chunks that are fast or binned. */
  lemma AllBelow(m: Mstate)
    requires Begun(m)
    ensures FastBelow(m.heap, NFASTBINS) == Using(m.heap, Fast)
    ensures BinnedBelow(m.heap, NBINS) == set p | p in m.heap.ck && m.heap.ck[p].st.Binned?
    ensures m.sbrkedMem == ChunkSize(Rd(m.hi, m.top)) + Total(m.heap.ck, Using(m.heap, Live))
                           + Total(m.heap.ck, FastBelow(m.heap, NFASTBINS)) + Total(m.heap.ck, BinnedBelow(m.heap, NBINS))
  {
    var h := m.heap;
    TopSize(m);
    if m.Ready() {
      BelowAll(h);
      HeapTotal(h);
      TotalUnion(h.ck, FastBelow(h, NFASTBINS), BinnedBelow(h, NBINS));
    }
  }

  lemma BelowAll(h: Heap)
    requires Good(h, {})
    ensures FastBelow(h, NFASTBINS) == Using(h, Fast)
    ensures BinnedBelow(h, NBINS) == set p | p in h.ck && h.ck[p].st.Binned?
    ensures FastBelow(h, NFASTBINS) + BinnedBelow(h, NBINS) == set p | p in h.ck && h.ck[p].st != Live
  {
    forall p | p in h.ck
      ensures h.ck[p].st.Fast? ==> h.ck[p].size < 8 * (NFASTBINS + 2)
      ensures h.ck[p].st.Binned? ==> h.ck[p].st.bin < NBINS
      ensures !h.ck[p].st.Loose?
    {
      PlaceOf(h, p);
    }
  }

  /** No chunk is smaller than those of the first fastbin, or in a bin before the first. */
  lemma NoneBelow(m: Mstate)
    requires Begun(m)
    ensures FastBelow(m.heap, 0) == {} && BinnedBelow(m.heap, 1) == {}
  {
    forall p | p in m.heap.ck ensures m.heap.ck[p].size >= 16 && (m.heap.ck[p].st.Binned? ==> m.heap.ck[p].st.bin >= 1) {
      PlaceOf(m.heap, p);
    }
  }

  method FastTotals(m: Mstate) returns (n: nat, bytes: int)
    requires Begun(m)
    ensures n == |FastBelow(m.heap, NFASTBINS)| && bytes == Total(m.heap.ck, FastBelow(m.heap, NFASTBINS))
  {
    ghost var h := m.heap;
    n, bytes := 0, 0;
    var i := 0;
    NoneBelow(m);
    while i < NFASTBINS
      invariant 0 <= i <= NFASTBINS
      invariant n == |FastBelow(h, i)| && bytes == Total(h.ck, FastBelow(h, i))
    {
      var k, b := SumFastbin(m, i);
      TotalUnion(h.ck, FastBelow(h, i), FastOf(h, i));
      n, bytes := n + k, bytes + b;
      i := i + 1;
    }
  }

  method BinTotals(m: Mstate) returns (n: nat, bytes: int)
    requires Begun(m)
    ensures n == |BinnedBelow(m.heap, NBINS)| && bytes == Total(m.heap.ck, BinnedBelow(m.heap, NBINS))
  {
    ghost var h := m.heap;
    n, bytes := 0, 0;
    var i := 1;
    NoneBelow(m);
    while i < NBINS
      invariant 1 <= i <= NBINS
      invariant n == |BinnedBelow(h, i)| && bytes == Total(h.ck, BinnedBelow(h, i))
    {
      var k, b := SumBin(m, i);
      TotalUnion(h.ck, BinnedBelow(h, i), BinnedIn(h, i));
      n, bytes := n + k, bytes + b;
      i := i + 1;
    }
  }
}
