/** The do_check_* routines, which the build leaves out: in every state between calls all
    their assertions hold. */
module MallocCheck {
  import opened Words
  import opened MallocLists
  import opened MallocBins
  import opened MallocHeap
  import opened MallocMoves
  import opened MallocResize
  import opened MallocTiling
  import opened MallocInfo
  import opened Sets
  import opened MallocPolicy
  import opened Malloc

  /** inuse(p): the PREV_INUSE bit of the next chunk */
  predicate Inuse(m: Mstate, p: int)
    reads m
  {
    PrevInuse(Rd(m.hi, p + ChunkSize(Rd(m.hi, p))))
  }

  /** do_check_chunk */
  predicate CheckChunk(m: Mstate, p: int)
    reads m
  {
    var sz := ChunkSize(Rd(m.hi, p));
    var maxAddress := m.top + ChunkSize(Rd(m.hi, m.top));
    var minAddress := maxAddress - m.sbrkedMem;
    if p != m.top then p >= minAddress && p + sz <= m.top else sz >= MINSIZE && PrevInuse(Rd(m.hi, p))
  }

  /** do_check_free_chunk */
  predicate CheckFreeChunk(m: Mstate, p: int)
    reads m
  {
    var sz := Rd(m.hi, p) - Rd(m.hi, p) % 2;
    var next := p + sz;
    && CheckChunk(m, p)
    && !Inuse(m, p)
    && (if sz >= MINSIZE then
          sz % 8 == 0 && (p + 8) % 8 == 0 && Rd(m.lo, next) == sz && PrevInuse(Rd(m.hi, p))
          && (next == m.top || Inuse(m, next))
          && Bk(m.hi, Fd(m.lo, p)) == p && Fd(m.lo, Bk(m.hi, p)) == p
        else sz == SIZE_SZ)
  }

  /** do_check_inuse_chunk */
  predicate CheckInuseChunk(m: Mstate, p: int)
    reads m
  {
    var next := p + ChunkSize(Rd(m.hi, p));
    && CheckChunk(m, p)
    && Inuse(m, p)
    && (!PrevInuse(Rd(m.hi, p)) ==>
          var prv := p - Rd(m.lo, p);
          prv + ChunkSize(Rd(m.hi, prv)) == p && CheckFreeChunk(m, prv))
    && (if next == m.top then PrevInuse(Rd(m.hi, next)) && ChunkSize(Rd(m.hi, next)) >= MINSIZE
        else !Inuse(m, next) ==> CheckFreeChunk(m, next))
  }

  /** do_check_remalloced_chunk, and do_check_malloced_chunk without its last line */
  predicate CheckRemallocedChunk(m: Mstate, p: int, s: nat)
    reads m
  {
    var sz := Rd(m.hi, p) - Rd(m.hi, p) % 2;
    CheckInuseChunk(m, p) && sz % 8 == 0 && sz >= MINSIZE && (p + 8) % 8 == 0 && s <= sz < s + MINSIZE
  }

  lemma ChunkPasses(m: Mstate, p: int)
    requires m.Ready() && (p in m.heap.ck || p == m.top)
    ensures CheckChunk(m, p)
  {
    ReadTop(m.heap);
    if p in m.heap.ck { ReadHead(m.heap, p); }
    assert m.top in m.heap.ck ==> Placed(m.heap, m.top);
  }

  /** The links of a binned chunk lead back to it. */
  lemma LinksBack(h: Heap, p: int)
    requires Valid(h) && p in h.ck && h.ck[p].st.Binned?
    ensures Bk(h.hi, Fd(h.lo, p)) == p && Fd(h.lo, Bk(h.hi, p)) == p
  {
    PlaceOf(h, p);
    var i := h.ck[p].st.bin;
    var L := h.bins[i];
    var k :| 0 <= k < |L| && L[k] == p;
    assert BinOk(h, i);
    assert Bk(h.hi, p) == Before(BinAt(i), L, k) && Fd(h.lo, p) == After(BinAt(i), L, k);
    if k + 1 < |L| { assert Bk(h.hi, L[k + 1]) == Before(BinAt(i), L, k + 1); }
    if k > 0 { assert Fd(h.lo, L[k - 1]) == After(BinAt(i), L, k - 1); }
  }

  lemma FreeChunkPasses(m: Mstate, p: int)
    requires m.Ready() && p in m.heap.ck && m.heap.ck[p].st.Binned?
    ensures CheckFreeChunk(m, p) && ChunkSize(Rd(m.hi, p)) == m.heap.ck[p].size
  {
    var h := m.heap;
    ChunkPasses(m, p);
    ReadHead(h, p);
    ReadInuse(h, p);
    FullyConsolidated(h, p);
    ReadHead(h, Next(h, p));
    ReadInuse(h, Next(h, p));
    KeepBit(h, p);
    TagsOf(h, p);
    LinksBack(h, p);
  }

  lemma InuseChunkPasses(m: Mstate, p: int)
    requires m.Ready() && p in m.heap.ck && !m.heap.ck[p].st.Binned?
    ensures CheckInuseChunk(m, p)
  {
    var h := m.heap;
    ChunkPasses(m, p);
    ReadHead(h, p);
    ReadInuse(h, p);
    ReadTop(h);
    ReadNext(h, p);
    if h.ck[p].before != -1 {
      ReadBefore(h, p);
      FreeChunkPasses(m, h.ck[p].before);
    }
    var n := Next(h, p);
    if n in h.ck {
      ReadInuse(h, n);
      ReadHead(h, n);
      if h.ck[n].st.Binned? { FreeChunkPasses(m, n); }
    }
  }

  /** What malloc returns passes the checks for chunks just handed out. */
  lemma MallocedPasses(m: Mstate, B: map<int, int>, mem: int, nb: nat)
    requires m.Ready() && mem != 0 && Granted(B, m.Allocated(), mem, nb)
    ensures CheckRemallocedChunk(m, Mem2Chunk(mem), nb)
  {
    var p := Mem2Chunk(mem);
    InuseChunkPasses(m, p);
    ReadHead(m.heap, p);
    KeepBit(m.heap, p);
  }

  /** The last line of do_check_malloced_chunk: a chunk that does not come from a fastbin
      has a chunk in use before it. */
  lemma NonrecycledPasses(m: Mstate, B: map<int, int>, mem: int, nb: nat, h0: Heap, last: int, last': int, via: Path)
    requires m.Ready() && mem != 0 && Granted(B, m.Allocated(), mem, nb)
    requires BestFit(h0, last, last', m.heap, Mem2Chunk(mem), nb, via) && !via.ViaFastbin?
    ensures PrevInuse(Rd(m.hi, Mem2Chunk(mem)))
  {
    ReadHead(m.heap, Mem2Chunk(mem));
  }

  /** Check one chunk of fastbin i. */
  method CheckFast(m: Mstate, i: int, ghost k: nat, p: int) returns (ok: bool)
    requires m.Ready() && 0 <= i < NFASTBINS && k < |m.heap.fasts[i]| && p == m.heap.fasts[i][k]
    ensures ok
  {
    assert p in m.heap.ck && m.heap.ck[p].st.Fast? && m.heap.ck[p].size == 8 * (i + 2) by { assert FastOk(m.heap, i); }
    InuseChunkPasses(m, p);
    ReadHead(m.heap, p);
    ok := CheckInuseChunk(m, p) && ChunkSize(Rd(m.hi, p)) / 8 - 2 == i;
  }

  lemma FastWalkStart(m: Mstate, i: int)
    requires m.Ready() && 0 <= i < NFASTBINS
    ensures FastWalk(m, i, 0, m.fb[i], 0, 0)
    ensures m.fb[i] != 0 ==> m.heap.fasts[i] != []
  {
    EmptyFast(m.heap, i);
    assert FastOk(m.heap, i);
  }

  /** Check the chunks of fastbin i; the total grows by their sizes. */
  method CheckFastbin(m: Mstate, i: int, total0: int) returns (ok: bool, total: int)
    requires m.Ready() && 0 <= i < NFASTBINS
    ensures ok && total - total0 == Total(m.heap.ck, FastOf(m.heap, i))
    ensures FastBelow(m.heap, i + 1) == FastBelow(m.heap, i) + FastOf(m.heap, i)
    ensures total != total0 ==> HaveFastchunks(m.maxFast)
  {
    ok, total := true, total0;
    var p := m.fb[i];
    if i > m.maxFast / 8 - 2 {
      UnusedFast(m.heap, i);
      EmptyFast(m.heap, i);
      ok := p == 0;
    }
    ghost var k, n := 0, 0;
    FastWalkStart(m, i);
    while p != 0
      invariant FastWalk(m, i, k, p, n, total - total0) && ok
      invariant total != total0 ==> HaveFastchunks(m.maxFast)
      decreases |m.heap.fasts[i]| - k
    {
      FastWalkStep(m, i, k, p, n, total - total0);
      assert m.heap.fasts[i] != [];
      var fine := CheckFast(m, i, k, p);
      ok := ok && fine;
      total := total + ChunkSize(Rd(m.hi, p));
      p := Fd(m.lo, p);
      k, n := k + 1, n + 1;
    }
    FastWalkEnd(m, i, k, n, total - total0);
  }

  /** Each chunk after a free one is in use, up to the next free one or top. */
  method CheckChain(m: Mstate, q0: int) returns (ok: bool)
    requires m.Ready() && (q0 in m.heap.ck || q0 == m.top)
    ensures ok
  {
    ok := true;
    var q := q0;
    while q != m.top && Inuse(m, q) && ChunkSize(Rd(m.hi, q)) >= MINSIZE
      invariant q in m.heap.ck || q == m.top
      invariant ok
      decreases m.top - q
    {
      ReadHead(m.heap, q);
      ReadInuse(m.heap, q);
      InuseChunkPasses(m, q);
      PlaceOf(m.heap, q);
      ok := ok && CheckInuseChunk(m, q);
      q := q + ChunkSize(Rd(m.hi, q));
    }
  }

  /** Check one chunk of bin i. */
  method CheckBinned(m: Mstate, i: int, ghost k: int, p: int) returns (ok: bool)
    requires m.Ready() && 1 <= i < NBINS && 0 <= k < |m.heap.bins[i]| && p == m.heap.bins[i][k]
    ensures ok
  {
    ghost var h := m.heap;
    Neighbours(h, i, k);
    PlaceOf(h, p);
    FreeChunkPasses(m, p);
    assert BinOk(h, i);
    var size := ChunkSize(Rd(m.hi, p));
    ok := CheckFreeChunk(m, p);
    if i >= 2 {
      var idx := Mstate.BinIndex(size);
      ok := ok && idx == i;
      if size >= 256 {
        if k > 0 {
          assert h.bins[i][k - 1] in h.ck;
          ReadHead(h, h.bins[i][k - 1]);
        }
        ok := ok && (Bk(m.hi, p) == BinAt(i) || ChunkSize(Rd(m.hi, Bk(m.hi, p))) >= size);
      }
    }
    var chained := CheckChain(m, p + size);
    ok := ok && chained;
  }

  /** Check bin i: its map bit, and its chunks from the last one. */
  method CheckBin(m: Mstate, i: int, total0: int) returns (ok: bool, total: int)
    requires m.Ready() && 1 <= i < NBINS
    ensures ok && total - total0 == Total(m.heap.ck, BinnedIn(m.heap, i))
    ensures BinnedBelow(m.heap, i + 1) == BinnedBelow(m.heap, i) + BinnedIn(m.heap, i)
  {
    LastOf(m.heap, i);
    total := total0;
    ok := CheckMark(m, i);
    var p := Bk(m.hi, BinAt(i));
    ghost var k: int, n: nat := |m.heap.bins[i]|, 0;
    while p != BinAt(i)
      invariant BinWalk(m, i, k, p, n, total - total0) && ok
      decreases k
    {
      BinWalkStep(m, i, k, p, n, total - total0);
      var fine := CheckBinned(m, i, k - 1, p);
      ok := ok && fine;
      total := total + ChunkSize(Rd(m.hi, p));
      p := Bk(m.hi, p);
      k, n := k - 1, n + 1;
    }
    BinWalkEnd(m, i, k, n, total - total0);
  }

  /** The map bit of bin i is set unless the bin is empty. */
  method CheckMark(m: Mstate, i: int) returns (ok: bool)
    requires m.Ready() && 1 <= i < NBINS
    ensures ok
  {
    ok := true;
    if i >= 2 {
      LastOf(m.heap, i);
      MarkedBin(m, i);
      ok := And(m.binmap[i / 32], Pow2(i % 32)) != 0 || Bk(m.hi, BinAt(i)) == BinAt(i);
    }
  }

  lemma MarkedBin(m: Mstate, i: int)
    requires m.Ready() && 2 <= i < NBINS
    ensures m.heap.bins[i] != [] ==> And(m.binmap[i / 32], Pow2(i % 32)) != 0
  {
    assert MapBit(m.binmap, m.heap.bins, i);
    AndPow(m.binmap[i / 32], i % 32);
  }

  /** do_check_malloc_state: every assertion holds.  It does nothing until memory has been obtained. */
  method CheckMallocState(m: Mstate) returns (ok: bool)
    requires m.Ok()
    ensures ok
  {
    if m.top == 0 || m.top == BinAt(1) {
      return true;
    }
    Flags(m.maxFast);
    ok := AndNot(m.maxFast, 3) <= Request(80);
    var fasts := CheckFastbins(m);
    ok := ok && fasts.0;
    var binned := CheckBins(m);
    ok := ok && binned.0;
    ChunkPasses(m, m.top);
    StatisticsHold(m);
    ok := ok && CheckChunk(m, m.top) && fasts.1 + binned.1 <= m.maxSbrkedMem && m.sbrkedMem <= m.maxSbrkedMem;
  }

  lemma StatisticsHold(m: Mstate)
    requires m.Ready()
    ensures Total(m.heap.ck, FastBelow(m.heap, NFASTBINS)) + Total(m.heap.ck, BinnedBelow(m.heap, NBINS)) <= m.maxSbrkedMem
  {
    AllBelow(m);
    TotalAtLeast(m.heap.ck, Using(m.heap, Live));
    TopSize(m);
  }

  lemma {:induction false} TotalAtLeast(ck: map<int, Chunk>, S: set<int>)
    requires S <= ck.Keys
    ensures Total(ck, S) >= 0
    decreases S
  {
    if S != {} { TotalAtLeast(ck, S - {Pick(S)}); }
  }

  /** Check all fastbins: if anything is there, the flag is set. */
  method CheckFastbins(m: Mstate) returns (r: (bool, int))
    requires m.Ready()
    ensures r.0 && r.1 == Total(m.heap.ck, FastBelow(m.heap, NFASTBINS))
  {
    ghost var h := m.heap;
    var ok, total := true, 0;
    NoneBelow(m);
    var i := 0;
    while i < NFASTBINS
      invariant 0 <= i <= NFASTBINS && ok && total == Total(h.ck, FastBelow(h, i))
      invariant total != 0 ==> HaveFastchunks(m.maxFast)
    {
      var fine;
      fine, total := CheckFastbin(m, i, total);
      ok := ok && fine;
      TotalUnion(h.ck, FastBelow(h, i), FastOf(h, i));
      i := i + 1;
    }
    r := (ok && (total != 0 ==> HaveFastchunks(m.maxFast)), total);
  }

  /** Check all normal bins. */
  method CheckBins(m: Mstate) returns (r: (bool, int))
    requires m.Ready()
    ensures r.0 && r.1 == Total(m.heap.ck, BinnedBelow(m.heap, NBINS))
  {
    ghost var h := m.heap;
    var ok, total := true, 0;
    NoneBelow(m);
    var i := 1;
    while i < NBINS
      invariant 1 <= i <= NBINS && ok && total == Total(h.ck, BinnedBelow(h, i))
    {
      var fine;
      fine, total := CheckBin(m, i, total);
      ok := ok && fine;
      TotalUnion(h.ck, BinnedBelow(h, i), BinnedIn(h, i));
      i := i + 1;
    }
    r := (ok, total);
  }
}
