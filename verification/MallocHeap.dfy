/** The invariant of the allocator of `shared/malloc.c`, on values.

    A ghost map `ck` records the chunks that tile the heap between `start` and the
    top chunk, with their size, their use, and the free chunk before each of them.
    `Valid` ties this map to the boundary tags, bin lists and fastbins in memory; it
    is the content of the do_check_* routines, made inductive. */
module MallocHeap {
  import opened MallocLists
  import opened MallocBins

  const AV_BINS := 0x1000     // address of av_.bins in the kernel's data
  const HEAP_MIN := 0x2000    // the heap lies above the kernel's data
  const NBINS := 96
  const NFASTBINS := 10
  const MINSIZE := 16

  /** bin_at(av, i): the pseudo-chunk whose fd and bk are bins[2i] and bins[2i+1]. */
  function BinAt(i: int): int {
    AV_BINS + 8 * i - 8
  }

  /** What a chunk is used for.  Loose chunks are free, on no list, and owned by the
      operation in progress; none is left when the operation returns. */
  datatype Status = Live | Fast | Loose | Binned(bin: int)

  /** before is the address of the preceding chunk if that one is free, else -1;
      so PREV_INUSE is set exactly when before == -1. */
  datatype Chunk = Chunk(size: nat, st: Status, before: int)

  datatype Heap = Heap(lo: Mem, hi: Mem, fb: seq<int>,
                       start: int, top: int, brk: int,
                       ck: map<int, Chunk>, bins: seq<seq<int>>, fasts: seq<seq<int>>)

  ghost predicate Free(c: Chunk) {
    c.st.Loose? || c.st.Binned?
  }

  ghost function Next(h: Heap, p: int): int
    requires p in h.ck
  {
    p + h.ck[p].size
  }

  /** The size word: the size with the PREV_INUSE bit or'ed in. */
  ghost function HeadWord(c: Chunk): int {
    c.size + if c.before == -1 then 1 else 0
  }

  ghost predicate Placed(h: Heap, p: int)
    requires p in h.ck
  {
    && h.start <= p && p % 8 == 0
    && h.ck[p].size >= MINSIZE && h.ck[p].size % 8 == 0
    && Next(h, p) <= h.top
    && (Next(h, p) in h.ck || Next(h, p) == h.top)
  }

  /** The tags between a chunk and its two neighbours. */
  ghost predicate Tagged(h: Heap, p: int)
    requires p in h.ck
  {
    var c := h.ck[p];
    && (p == h.start ==> c.before == -1)
    && (c.before != -1 ==> c.before in h.ck && Free(h.ck[c.before]) && Next(h, c.before) == p)
    && (Next(h, p) in h.ck ==> h.ck[Next(h, p)].before == if Free(c) then p else -1)
    && (c.st.Binned? ==> Next(h, p) in h.ck && !h.ck[Next(h, p)].st.Binned?)
    && (!c.st.Loose? ==> Rd(h.hi, p) == HeadWord(c))
    && (c.st.Binned? ==> Rd(h.lo, Next(h, p)) == c.size)
  }

  ghost predicate Listed(h: Heap, p: int)
    requires p in h.ck && |h.bins| == NBINS && |h.fasts| == NFASTBINS
  {
    var c := h.ck[p];
    && (c.st.Binned? ==> 1 <= c.st.bin < NBINS && p in h.bins[c.st.bin])
    && (c.st.Binned? && c.st.bin >= 2 ==> c.st.bin == IndexOf(c.size))
    && (c.st.Fast? ==> 16 <= c.size <= 72 && p in h.fasts[c.size / 8 - 2])
  }

  ghost predicate Apart(h: Heap, p: int, q: int)
    requires p in h.ck && q in h.ck
  {
    Next(h, p) <= q
  }

  ghost predicate BinOk(h: Heap, i: int)
    requires |h.bins| == NBINS && 0 <= i < NBINS
  {
    var L := h.bins[i];
    && Ring(h.lo, h.hi, BinAt(i), L)
    && Distinct(L)
    && (forall k {:trigger L[k]} :: 0 <= k < |L| ==> L[k] in h.ck && h.ck[L[k]].st == Binned(i))
    && (i >= 2 ==> forall j, k :: 0 <= j < k < |L| ==> h.ck[L[j]].size >= h.ck[L[k]].size)
  }

  ghost predicate FastOk(h: Heap, j: int)
    requires |h.fb| == |h.fasts| == NFASTBINS && 0 <= j < NFASTBINS
  {
    var F := h.fasts[j];
    && Chain(h.lo, h.fb[j], F)
    && Distinct(F)
    && (forall k {:trigger F[k]} :: 0 <= k < |F| ==> F[k] in h.ck && h.ck[F[k]].st == Fast && h.ck[F[k]].size == 8 * (j + 2))
  }

  ghost predicate Framed(h: Heap) {
    && HEAP_MIN <= h.start <= h.top
    && h.start % 8 == h.top % 8 == h.brk % 8 == 0
    && (h.start in h.ck || h.start == h.top)
    && MINSIZE <= h.brk - h.top
    && Rd(h.hi, h.top) == h.brk - h.top + 1
    && |h.bins| == NBINS && |h.fb| == |h.fasts| == NFASTBINS
  }

  /** The invariant.  Each part is a named predicate, so that proofs can pick the
      instances they need. */
  ghost predicate Valid(h: Heap) {
    && Framed(h)
    && (forall p {:trigger Placed(h, p)} :: p in h.ck ==> Placed(h, p))
    && (forall p {:trigger Tagged(h, p)} :: p in h.ck ==> Tagged(h, p))
    && (forall p {:trigger Listed(h, p)} :: p in h.ck ==> Listed(h, p))
    && (forall p, q {:trigger Apart(h, p, q)} :: p in h.ck && q in h.ck && p < q ==> Apart(h, p, q))
    && (forall i {:trigger BinOk(h, i)} :: 1 <= i < NBINS ==> BinOk(h, i))
    && (forall j {:trigger FastOk(h, j)} :: 0 <= j < NFASTBINS ==> FastOk(h, j))
  }

  /** The payload words of the block at p: all of the chunk after its first two words,
      plus the first word of the next chunk. */
  ghost predicate SamePayload(lo: Mem, hi: Mem, lo': Mem, hi': Mem, p: int, size: int) {
    && (forall a {:trigger Rd(lo', a)} :: p < a <= p + size ==> Rd(lo', a) == Rd(lo, a))
    && (forall a {:trigger Rd(hi', a)} :: p < a < p + size ==> Rd(hi', a) == Rd(hi, a))
  }

  /** No byte of any live block differs between the two heaps. */
  ghost predicate Kept(h: Heap, h': Heap) {
    forall p {:trigger SamePayload(h.lo, h.hi, h'.lo, h'.hi, p, h.ck[p].size)} ::
      p in h.ck && h.ck[p].st.Live? ==> SamePayload(h.lo, h.hi, h'.lo, h'.hi, p, h.ck[p].size)
  }

  /** The allocated blocks: chunk address to chunk size. */
  ghost function Blocks(h: Heap): map<int, int> {
    map p | p in h.ck && h.ck[p].st.Live? :: h.ck[p].size
  }

  ghost predicate StoredOnly(m: Mem, m': Mem, W: set<int>) {
    forall a {:trigger Rd(m', a)} :: a !in W ==> Rd(m', a) == Rd(m, a)
  }

  // ------------------------------------------------------- stores of links

  /** An address y + 8 that holds links of a list node: a bin header or a free chunk. */
  ghost predicate LinkCell(h: Heap, w: int) {
    || AV_BINS < w < AV_BINS + 8 * NBINS
    || (w - 8 in h.ck && Free(h.ck[w - 8]))
  }

  /** Link words are neither tags of a chunk or of top, nor payload of a block in use. */
  lemma LinkCellClear(h: Heap, w: int, p: int)
    requires Valid(h) && LinkCell(h, w)
    ensures w != h.top
    ensures p in h.ck ==> w != p && w != Next(h, p)
    ensures p in h.ck && !Free(h.ck[p]) ==> !(p < w <= Next(h, p))
  {
    if p in h.ck {
      assert Placed(h, p);
    }
    if !(AV_BINS < w < AV_BINS + 8 * NBINS) {
      var y := w - 8;
      assert Placed(h, y);
      if p in h.ck && y < p { assert Apart(h, y, p); }
      if p in h.ck && p < y { assert Apart(h, p, y); }
    }
  }

  lemma BinHeaderOutside(h: Heap, i: int)
    requires Valid(h) && 1 <= i < NBINS
    ensures BinAt(i) !in h.bins[i] && BinAt(i) !in h.ck
  {
    assert BinAt(i) in h.ck ==> Placed(h, BinAt(i));
    assert BinOk(h, i);
  }

  lemma LinkFrame(h: Heap, h': Heap, W: set<int>)
    requires Valid(h) && forall w | w in W :: LinkCell(h, w)
    requires StoredOnly(h.lo, h'.lo, W) && StoredOnly(h.hi, h'.hi, W)
    ensures Kept(h, h')
    ensures Rd(h'.hi, h.top) == Rd(h.hi, h.top)
    ensures forall p {:trigger p in h.ck} :: p in h.ck ==> Rd(h'.hi, p) == Rd(h.hi, p) && Rd(h'.lo, Next(h, p)) == Rd(h.lo, Next(h, p))
    ensures forall p {:trigger Fd(h'.lo, p)} :: p in h.ck && !Free(h.ck[p]) ==> Fd(h'.lo, p) == Fd(h.lo, p)
  {
    forall w, p | w in W
      ensures w != h.top
      ensures p in h.ck ==> w != p && w != Next(h, p)
      ensures p in h.ck && !Free(h.ck[p]) ==> !(p < w <= Next(h, p))
    {
      LinkCellClear(h, w, p);
    }
    forall p | p in h.ck ensures Placed(h, p) {}
  }

  /** A bin whose nodes keep their link words, sizes and status stays correct. */
  lemma BinFrame(h: Heap, h': Heap, j: int)
    requires Valid(h) && 1 <= j < NBINS && |h'.bins| == NBINS && h'.bins[j] == h.bins[j]
    requires Fd(h'.lo, BinAt(j)) == Fd(h.lo, BinAt(j)) && Bk(h'.hi, BinAt(j)) == Bk(h.hi, BinAt(j))
    requires forall p :: p in h.ck && h.ck[p].st == Binned(j) ==>
               p in h'.ck && h'.ck[p].st == Binned(j) && h'.ck[p].size == h.ck[p].size
               && Fd(h'.lo, p) == Fd(h.lo, p) && Bk(h'.hi, p) == Bk(h.hi, p)
    ensures BinOk(h', j)
  {
    assert BinOk(h, j);
    RingFrame(h.lo, h.hi, h'.lo, h'.hi, BinAt(j), h.bins[j]);
  }

  /** Fastbins stay correct when their chunks keep their link word, size and status. */
  lemma FastFrame(h: Heap, h': Heap, j: int)
    requires Valid(h) && 0 <= j < NFASTBINS
    requires |h'.fb| == |h'.fasts| == NFASTBINS && h'.fb[j] == h.fb[j] && h'.fasts[j] == h.fasts[j]
    requires forall p :: p in h.ck && h.ck[p].st.Fast? && h.ck[p].size == 8 * (j + 2) ==>
               p in h'.ck && h'.ck[p].st.Fast? && h'.ck[p].size == h.ck[p].size && Fd(h'.lo, p) == Fd(h.lo, p)
    ensures FastOk(h', j)
  {
    assert FastOk(h, j);
    forall k | 0 <= k < |h.fasts[j]|
      ensures Fd(h'.lo, h.fasts[j][k]) == Fd(h.lo, h.fasts[j][k])
    {
      assert h.fasts[j][k] in h.ck;
    }
  }

  /** A node of ring i: its header, or a chunk binned there. */
  ghost predicate NodeOf(h: Heap, i: int, y: int) {
    y == BinAt(i) || (y in h.ck && h.ck[y].st == Binned(i))
  }

  lemma Neighbours(h: Heap, i: int, k: int)
    requires Valid(h) && 1 <= i < NBINS && 0 <= k < |h.bins[i]|
    ensures var x := h.bins[i][k];
            && x in h.ck && h.ck[x].st == Binned(i)
            && Fd(h.lo, x) == After(BinAt(i), h.bins[i], k) && Bk(h.hi, x) == Before(BinAt(i), h.bins[i], k)
            && NodeOf(h, i, Fd(h.lo, x)) && NodeOf(h, i, Bk(h.hi, x))
  {
    assert BinOk(h, i);
    var L := h.bins[i];
    assert L[k] in h.ck;
    if k + 1 < |L| { assert L[k + 1] in h.ck; }
    if k > 0 { assert L[k - 1] in h.ck; }
  }

  lemma NodeCell(h: Heap, i: int, y: int)
    requires 1 <= i < NBINS && NodeOf(h, i, y)
    ensures LinkCell(h, y + 8)
  {
  }

  // ------------------------------------------------------- stores of tags

  /** The word pair at w holds no payload and no links of a listed chunk other than own. */
  ghost predicate Clear(h: Heap, w: int, own: int) {
    && HEAP_MIN <= w
    && forall p {:trigger h.ck[p]} :: p in h.ck && p != own && !h.ck[p].st.Loose? ==> !(p < w < Next(h, p))
  }

  /** The word at w, used as the footer of a free chunk, is not the last word of a block in use. */
  ghost predicate FootClear(h: Heap, w: int, own: int) {
    Clear(h, w, own) && forall p {:trigger h.ck[p]} :: p in h.ck && p != own && !Free(h.ck[p]) ==> w != Next(h, p)
  }

  lemma HeadClear(h: Heap, w: int, own: int)
    requires Valid(h)
    requires w in h.ck || h.top <= w || (own in h.ck && own <= w < Next(h, own))
    ensures Clear(h, w, own)
  {
    assert w in h.ck ==> Placed(h, w);
    assert own in h.ck ==> Placed(h, own);
    forall p | p in h.ck && p != own && !h.ck[p].st.Loose? ensures !(p < w < Next(h, p)) {
      assert Placed(h, p);
      assert w in h.ck && p < w ==> Apart(h, p, w);
      assert own in h.ck && own < p ==> Apart(h, own, p);
      assert own in h.ck && p < own ==> Apart(h, p, own);
    }
  }

  lemma FootIsClear(h: Heap, x: int)
    requires Valid(h) && x in h.ck
    ensures FootClear(h, Next(h, x), x)
  {
    assert Placed(h, x);
    HeadClear(h, Next(h, x), x);
    forall p | p in h.ck && p != x && !Free(h.ck[p]) ensures Next(h, x) != Next(h, p) {
      assert Placed(h, p);
      assert x < p ==> Apart(h, x, p);
      assert p < x ==> Apart(h, p, x);
    }
  }

  /** No byte of any live block differs, except perhaps in the block at own. */
  ghost predicate KeptBut(h: Heap, h': Heap, own: int) {
    forall p {:trigger SamePayload(h.lo, h.hi, h'.lo, h'.hi, p, h.ck[p].size)} ::
      p in h.ck && p != own && h.ck[p].st.Live? ==> SamePayload(h.lo, h.hi, h'.lo, h'.hi, p, h.ck[p].size)
  }

  /** Stores of head words at W and of footers at V leave payload, lists and other tags alone. */
  lemma TagFrame(h: Heap, h': Heap, V: set<int>, W: set<int>, own: int)
    requires Valid(h)
    requires StoredOnly(h.lo, h'.lo, V) && StoredOnly(h.hi, h'.hi, W)
    requires (forall w | w in W :: Clear(h, w, own)) && (forall v | v in V :: FootClear(h, v, own))
    ensures KeptBut(h, h', own)
    ensures forall i | 1 <= i < NBINS :: Fd(h'.lo, BinAt(i)) == Fd(h.lo, BinAt(i)) && Bk(h'.hi, BinAt(i)) == Bk(h.hi, BinAt(i))
    ensures forall y | y in h.ck && y != own && !h.ck[y].st.Loose? :: Fd(h'.lo, y) == Fd(h.lo, y) && Bk(h'.hi, y) == Bk(h.hi, y)
  {
    forall p | p in h.ck ensures Placed(h, p) {}
  }

  /** The lists stay correct over a tag change that keeps every listed chunk. */
  lemma ListsFrame(h: Heap, h': Heap, V: set<int>, W: set<int>, own: int)
    requires Valid(h)
    requires StoredOnly(h.lo, h'.lo, V) && StoredOnly(h.hi, h'.hi, W)
    requires (forall w | w in W :: Clear(h, w, own)) && (forall v | v in V :: FootClear(h, v, own))
    requires own in h.ck ==> h.ck[own].st.Loose? || h.ck[own].st.Live?
    requires h'.bins == h.bins && h'.fb == h.fb && h'.fasts == h.fasts
    requires forall p {:trigger p in h.ck} :: p in h.ck && (h.ck[p].st.Binned? || h.ck[p].st.Fast?) ==>
               p in h'.ck && h'.ck[p].st == h.ck[p].st && h'.ck[p].size == h.ck[p].size
    ensures forall i {:trigger BinOk(h', i)} :: 1 <= i < NBINS ==> BinOk(h', i)
    ensures forall j {:trigger FastOk(h', j)} :: 0 <= j < NFASTBINS ==> FastOk(h', j)
    ensures KeptBut(h, h', own)
    ensures own !in h.ck || h.ck[own].st.Loose? ==> Kept(h, h')
  {
    TagFrame(h, h', V, W, own);
    forall i | 1 <= i < NBINS ensures BinOk(h', i) {
      BinFrame(h, h', i);
    }
    forall j | 0 <= j < NFASTBINS ensures FastOk(h', j) {
      FastFrame(h, h', j);
    }
  }

  lemma Ordered(h: Heap, p: int, q: int)
    requires Valid(h) && p in h.ck && q in h.ck
    ensures p < q ==> Next(h, p) <= q
  {
    if p < q { assert Apart(h, p, q); }
  }

  /** Two chunks cannot end at the same address. */
  lemma NextInjective(h: Heap, p: int, q: int)
    requires Valid(h) && p in h.ck && q in h.ck && Next(h, p) == Next(h, q)
    ensures p == q
  {
    assert Placed(h, p) && Placed(h, q);
    assert p < q ==> Apart(h, p, q);
    assert q < p ==> Apart(h, q, p);
  }
}
