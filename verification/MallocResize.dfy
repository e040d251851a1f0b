/** Steps of realloc and memalign, which change the size of blocks in place, and the
    stores of user programs into their own blocks. */
module MallocResize {
  import opened Arith
  import opened MallocLists
  import opened MallocBins
  import opened MallocHeap
  import opened MallocSteps
  import opened MallocMoves

  /** set_head_size(p, size), then set_inuse_bit_at_offset(p, size) */
  function Resized(hi: Mem, p: int, size: int): Mem {
    var hi1 := hi[p := size + Rd(hi, p) % 2];
    hi1[p + size := WithInuse(Rd(hi1, p + size))]
  }

  /** The PREV_INUSE bit of p's size word, as set_head_size keeps it. */
  lemma KeepBit(h: Heap, p: int)
    requires Valid(h) && p in h.ck && !h.ck[p].st.Loose?
    ensures Rd(h.hi, p) % 2 == if h.ck[p].before == -1 then 1 else 0
    ensures Rd(h.hi, p) == HeadWord(h.ck[p]) && p in h.hi
  {
    ReadHead(h, p);
    assert Tagged(h, p);
  }

  /** The chunk after a block, or top, has PREV_INUSE set. */
  lemma NextOfLive(h: Heap, p: int)
    requires Good(h, {}) && p in h.ck && !h.ck[p].st.Binned?
    ensures PrevInuse(Rd(h.hi, Next(h, p))) && Next(h, p) in h.hi && Next(h, p) > p
    ensures h.start <= p && p % 8 == 0 && h.ck[p].size % 8 == 0 && MINSIZE <= h.ck[p].size && Next(h, p) <= h.top
  {
    assert Placed(h, p) && Tagged(h, p);
    var n := Next(h, p);
    if n in h.ck { KeepBit(h, n); } else { ReadTop(h); }
  }

  /** Resizing a block to the size it has stores nothing new. */
  lemma SameSize(h: Heap, p: int)
    requires Good(h, {}) && p in h.ck && h.ck[p].st.Live?
    ensures Resized(h.hi, p, h.ck[p].size) == h.hi
  {
    KeepBit(h, p);
    NextOfLive(h, p);
  }

  /** The live blocks p and n, neighbours, become one block. */
  lemma JoinLiveMove(h: Heap, p: int) returns (h': Heap)
    requires Good(h, {}) && p in h.ck && h.ck[p].st.Live?
    requires Next(h, p) in h.ck && h.ck[Next(h, p)].st.Live?
    ensures var size := h.ck[p].size + h.ck[Next(h, p)].size;
            && h' == Joined(h, p, Resized(h.hi, p, size))
            && Blocks(h') == (Blocks(h) - {Next(h, p)})[p := size]
    ensures Good(h', {}) && Saved(h.lo, h.hi, h'.lo, h'.hi, Blocks(h))
  {
    var n := Next(h, p);
    var size := h.ck[p].size + h.ck[n].size;
    KeepBit(h, p);
    NextOfLive(h, p);
    NextOfLive(h, n);
    h' := Joined(h, p, h.hi[p := size + Rd(h.hi, p) % 2]);
    JoinValid(h, p, h');
    KeptSaved(h, h');
    JoinLiveBlocks(h, p, h'.hi);
  }

  lemma JoinLiveBlocks(h: Heap, p: int, hi': Mem)
    requires p in h.ck && h.ck[p].st.Live? && h.ck[p].size > 0
    requires Next(h, p) in h.ck && h.ck[Next(h, p)].st.Live? && h.ck[Next(h, p)].size > 0
    ensures Blocks(Joined(h, p, hi')) == (Blocks(h) - {Next(h, p)})[p := h.ck[p].size + h.ck[Next(h, p)].size]
  {
  }

  /** The binned chunk n is unlinked and becomes a block. */
  lemma GrabMove(h: Heap, n: int) returns (h': Heap, h1: Heap)
    requires Good(h, {}) && n in h.ck && h.ck[n].st.Binned?
    ensures Next(h, n) in h.ck && Next(h, n) != n
    ensures h1.lo == h.lo[Bk(h.hi, n) + 8 := Fd(h.lo, n)] && h1.hi == h.hi[Fd(h.lo, n) + 8 := Bk(h.hi, n)]
    ensures h' == h.(lo := h1.lo, hi := h1.hi[Next(h, n) := WithInuse(Rd(h1.hi, Next(h, n)))],
                     ck := Marked(h.ck[n := h.ck[n].(st := Live)], Next(h, n), -1), bins := h'.bins)
    ensures FewerBins(h.bins, h'.bins) && Good(h', {})
    ensures n !in Blocks(h) && Blocks(h') == Blocks(h)[n := h.ck[n].size] && Saved(h.lo, h.hi, h'.lo, h'.hi, Blocks(h))
  {
    var k;
    h1, k := UnlinkVictim(h, n);
    h' := TakeMove(h1, n, {});
    SavedTrans(h.lo, h.hi, h1.lo, h1.hi, h'.lo, h'.hi, Blocks(h));
  }

  /** unlink(next), and next becomes part of the block p before it. */
  lemma ExtendMove(h: Heap, p: int) returns (h': Heap, h1: Heap)
    requires Good(h, {}) && p in h.ck && h.ck[p].st.Live?
    requires Next(h, p) in h.ck && h.ck[Next(h, p)].st.Binned?
    ensures var n := Next(h, p);
            && h1.lo == h.lo[Bk(h.hi, n) + 8 := Fd(h.lo, n)] && h1.hi == h.hi[Fd(h.lo, n) + 8 := Bk(h.hi, n)]
            && h' == h.(lo := h1.lo, hi := Resized(h1.hi, p, h.ck[p].size + h.ck[n].size), ck := h'.ck, bins := h'.bins)
            && FewerBins(h.bins, h'.bins)
            && Blocks(h') == Blocks(h)[p := h.ck[p].size + h.ck[n].size]
    ensures Good(h', {}) && Saved(h.lo, h.hi, h'.lo, h'.hi, Blocks(h))
  {
    var n := Next(h, p);
    NextOfLive(h, p);
    var h2;
    h2, h1 := GrabMove(h, n);
    PlaceOf(h, n);
    h' := JoinLiveMove(h2, p);
    ExtendFields(h, h1, h2, p, h');
    ExtendBlocks(Blocks(h), p, n, h.ck[n].size, h.ck[p].size + h.ck[n].size);
    SavedSub(h2.lo, h2.hi, h'.lo, h'.hi, Blocks(h2), Blocks(h));
    SavedTrans(h.lo, h.hi, h2.lo, h2.hi, h'.lo, h'.hi, Blocks(h));
  }

  lemma ExtendFields(h: Heap, h1: Heap, h2: Heap, p: int, h': Heap)
    requires p in h.ck && Next(h, p) in h.ck && h.ck[Next(h, p)].size > 0
    requires var n := Next(h, p);
             var nn := n + h.ck[n].size;
             && h2 == h.(lo := h1.lo, hi := h1.hi[nn := WithInuse(Rd(h1.hi, nn))], ck := h2.ck, bins := h2.bins)
             && h' == h2.(hi := Resized(h2.hi, p, h.ck[p].size + h.ck[n].size), ck := h'.ck)
    ensures h' == h.(lo := h1.lo, hi := Resized(h1.hi, p, h.ck[p].size + h.ck[Next(h, p)].size), ck := h'.ck, bins := h2.bins)
  {
    var n := Next(h, p);
    ExtendHi(h1.hi, p, n + h.ck[n].size, h.ck[p].size + h.ck[n].size);
  }

  lemma ExtendBlocks(B: map<int, int>, p: int, n: int, s: int, size: int)
    requires n !in B && p != n
    ensures (B[n := s] - {n})[p := size] == B[p := size]
  {
  }

  lemma ExtendHi(hi: Mem, p: int, nn: int, size: int)
    requires nn != p && nn == p + size
    ensures Resized(hi[nn := WithInuse(Rd(hi, nn))], p, size) == Resized(hi, p, size)
  {
  }

  /** The live block p cut in two live blocks, the second at p + nb. */
  lemma CutLiveMove(h: Heap, p: int, nb: nat) returns (h': Heap)
    requires Good(h, {}) && p in h.ck && h.ck[p].st.Live?
    requires MINSIZE <= nb && nb % 8 == 0 && MINSIZE <= h.ck[p].size - nb
    ensures h' == Cut(h, p, nb, h.hi[p := nb + Rd(h.hi, p) % 2][p + nb := h.ck[p].size - nb + 1])
    ensures Good(h', {}) && p + nb !in h.ck
    ensures Blocks(h') == Blocks(h)[p := nb][p + nb := h.ck[p].size - nb]
    ensures Saved(h.lo, h.hi, h'.lo, h'.hi, Blocks(h)[p := nb])
  {
    KeepBit(h, p);
    NextOfLive(h, p);
    h' := Cut(h, p, nb, h.hi[p := nb + Rd(h.hi, p) % 2][p + nb := h.ck[p].size - nb + 1]);
    CutParts(h, p, nb, h');
    CutValid(h, p, nb, h');
    CutLiveBlocks(h, p, nb, h'.hi);
    var B := Blocks(h)[p := nb];
    forall q | q in B ensures SamePayload(h.lo, h.hi, h'.lo, h'.hi, q, B[q]) {
      if q != p { assert SamePayload(h.lo, h.hi, h'.lo, h'.hi, q, h.ck[q].size); }
    }
  }

  /** set_head(newp, ...), set_inuse_bit_at_offset(newp, newsize), set_head_size(p, lead) */
  function LeadTags(hi: Mem, p: int, lead: int, size: int): Mem {
    var hi1 := hi[p + lead := size - lead + 1];
    var hi2 := hi1[p + size := WithInuse(Rd(hi1, p + size))];
    hi2[p := lead + Rd(hi2, p) % 2]
  }

  /** The live block p is cut in two, as memalign gives back the lead. */
  lemma LeadMove(h: Heap, p: int, lead: nat) returns (h': Heap)
    requires Good(h, {}) && p in h.ck && h.ck[p].st.Live?
    requires MINSIZE <= lead && lead % 8 == 0 && MINSIZE <= h.ck[p].size - lead
    ensures h' == Cut(h, p, lead, LeadTags(h.hi, p, lead, h.ck[p].size))
    ensures Good(h', {}) && p + lead !in Blocks(h)
    ensures Blocks(h') == Blocks(h)[p := lead][p + lead := h.ck[p].size - lead]
    ensures Saved(h.lo, h.hi, h'.lo, h'.hi, Blocks(h)[p := lead])
  {
    LeadHead(h, p, lead);
    h' := CutLiveMove(h, p, lead);
  }

  /** The same cut, with the stores in the order of memalign's tail. */
  lemma TailMove(h: Heap, p: int, nb: nat) returns (h': Heap)
    requires Good(h, {}) && p in h.ck && h.ck[p].st.Live?
    requires MINSIZE <= nb && nb % 8 == 0 && MINSIZE <= h.ck[p].size - nb
    ensures h' == Cut(h, p, nb, h.hi[p + nb := h.ck[p].size - nb + 1][p := nb + Rd(h.hi, p) % 2])
    ensures Good(h', {}) && p + nb !in Blocks(h)
    ensures Blocks(h') == Blocks(h)[p := nb][p + nb := h.ck[p].size - nb]
    ensures Saved(h.lo, h.hi, h'.lo, h'.hi, Blocks(h)[p := nb])
  {
    h' := CutLiveMove(h, p, nb);
    assert h.hi[p + nb := h.ck[p].size - nb + 1][p := nb + Rd(h.hi, p) % 2] == h'.hi;
  }

  lemma LeadHead(h: Heap, p: int, lead: nat)
    requires Good(h, {}) && p in h.ck && h.ck[p].st.Live? && 0 < lead < h.ck[p].size
    ensures LeadTags(h.hi, p, lead, h.ck[p].size) == h.hi[p := lead + Rd(h.hi, p) % 2][p + lead := h.ck[p].size - lead + 1]
  {
    NextOfLive(h, p);
    KeepBit(h, p);
  }

  /** set_head_size(p, nb), set_head(remainder, ...), set_inuse_bit_at_offset(remainder, ...) */
  function SplitTags(hi: Mem, p: int, nb: int, size: int): Mem {
    var hi1 := hi[p := nb + Rd(hi, p) % 2][p + nb := size - nb + 1];
    hi1[p + size := WithInuse(Rd(hi1, p + size))]
  }

  /** The stores of the split come to the same as widening first and cutting then. */
  lemma SplitHead(hi: Mem, p: int, nb: int, size: int)
    requires 0 < nb < size && nb % 8 == 0 && size % 8 == 0
    ensures var hi1 := Resized(hi, p, size); hi1[p := nb + Rd(hi1, p) % 2][p + nb := size - nb + 1] == SplitTags(hi, p, nb, size)
  {
    EvenHead(size, Rd(hi, p));
  }

  /** A size with the old PREV_INUSE bit has that bit. */
  lemma EvenHead(size: nat, head: int)
    requires size % 8 == 0
    ensures (size + head % 2) % 2 == head % 2
  {
    var k, z := Split(size, 8);
    ModUnique(size + head % 2, 2, 4 * k, head % 2);
  }

  /** As CutLiveMove, from memory in which p's widened size has not been stored. */
  lemma CutWidened(h: Heap, p: int, nb: nat, hi: Mem) returns (h': Heap)
    requires Good(h, {}) && p in h.ck && h.ck[p].st.Live? && h.hi == Resized(hi, p, h.ck[p].size)
    requires MINSIZE <= nb && nb % 8 == 0 && MINSIZE <= h.ck[p].size - nb
    ensures h' == Cut(h, p, nb, SplitTags(hi, p, nb, h.ck[p].size))
    ensures Good(h', {}) && p + nb !in Blocks(h)
    ensures Blocks(h') == Blocks(h)[p := nb][p + nb := h.ck[p].size - nb]
    ensures Saved(h.lo, h.hi, h'.lo, h'.hi, Blocks(h)[p := nb])
  {
    SplitStores(h, p, nb, hi);
    h' := CutLiveMove(h, p, nb);
  }

  lemma SplitStores(h: Heap, p: int, nb: nat, hi: Mem)
    requires Good(h, {}) && p in h.ck && h.ck[p].st.Live? && h.hi == Resized(hi, p, h.ck[p].size)
    requires 0 < nb < h.ck[p].size && nb % 8 == 0
    ensures h.hi[p := nb + Rd(h.hi, p) % 2][p + nb := h.ck[p].size - nb + 1] == SplitTags(hi, p, nb, h.ck[p].size)
  {
    PlaceOf(h, p);
    SplitHead(hi, p, nb, h.ck[p].size);
  }

  lemma CutLiveBlocks(h: Heap, p: int, nb: nat, hi': Mem)
    requires p in h.ck && h.ck[p].st.Live? && 0 < nb < h.ck[p].size && p + nb !in h.ck
    ensures Blocks(Cut(h, p, nb, hi')) == Blocks(h)[p := nb][p + nb := h.ck[p].size - nb]
  {
  }

  /** set_head_size(p, nb), and the rest of top starts after it. */
  lemma GrowMove(h: Heap, p: int, nb: nat) returns (h': Heap)
    requires Good(h, {}) && p in h.ck && h.ck[p].st.Live? && Next(h, p) == h.top
    requires h.ck[p].size <= nb && nb % 8 == 0 && p + nb + MINSIZE <= h.brk
    ensures h' == GrownIntoTop(h, p, nb, h.hi[p := nb + Rd(h.hi, p) % 2][p + nb := h.brk - (p + nb) + 1])
    ensures Good(h', {}) && Blocks(h') == Blocks(h)[p := nb]
    ensures Saved(h.lo, h.hi, h'.lo, h'.hi, Blocks(h))
  {
    KeepBit(h, p);
    NextOfLive(h, p);
    h' := GrownIntoTop(h, p, nb, h.hi[p := nb + Rd(h.hi, p) % 2][p + nb := h.brk - (p + nb) + 1]);
    GrownIntoTopValid(h, p, nb, h');
    KeptSaved(h, h');
    GrowBlocks(h, p, nb, h'.hi);
  }

  lemma GrowBlocks(h: Heap, p: int, nb: nat, hi': Mem)
    requires p in h.ck && h.ck[p].st.Live?
    ensures Blocks(GrownIntoTop(h, p, nb, hi')) == Blocks(h)[p := nb]
  {
  }

  // ----------------------------------------------------- user stores

  /** The words of the block at q, and nothing else, may differ. */
  ghost predicate WrittenIn(h: Heap, lo': Mem, hi': Mem, q: int)
    requires q in h.ck
  {
    && (forall a {:trigger Rd(lo', a)} :: !(q < a <= Next(h, q)) ==> Rd(lo', a) == Rd(h.lo, a))
    && (forall a {:trigger Rd(hi', a)} :: !(q < a < Next(h, q)) ==> Rd(hi', a) == Rd(h.hi, a))
  }

  lemma WriteChunk(h: Heap, q: int, h': Heap, p: int)
    requires Good(h, {}) && q in h.ck && h.ck[q].st.Live? && WrittenIn(h, h'.lo, h'.hi, q) && h' == h.(lo := h'.lo, hi := h'.hi)
    requires p in h.ck
    ensures Placed(h', p) && Tagged(h', p) && Listed(h', p)
  {
    WriteFrame(h, q, h');
    assert Placed(h, p) && Tagged(h, p) && Listed(h, p);
  }

  /** A program may write what it likes into its own block. */
  lemma WriteMove(h: Heap, q: int, lo': Mem, hi': Mem) returns (h': Heap)
    requires Good(h, {}) && q in h.ck && h.ck[q].st.Live? && WrittenIn(h, lo', hi', q)
    ensures h' == h.(lo := lo', hi := hi') && Good(h', {})
    ensures Blocks(h') == Blocks(h) && Saved(h.lo, h.hi, h'.lo, h'.hi, Blocks(h) - {q})
  {
    h' := h.(lo := lo', hi := hi');
    WriteFrame(h, q, h');
    forall p | p in h'.ck ensures Placed(h', p) && Tagged(h', p) && Listed(h', p) {
      WriteChunk(h, q, h', p);
    }
    forall p, r | p in h'.ck && r in h'.ck && p < r ensures Apart(h', p, r) {
      assert Apart(h, p, r);
    }
    forall i | 1 <= i < NBINS ensures BinOk(h', i) {
      BinFrame(h, h', i);
    }
    forall j | 0 <= j < NFASTBINS ensures FastOk(h', j) {
      FastFrame(h, h', j);
    }
    WriteSaved(h, q, lo', hi');
  }

  lemma WriteSaved(h: Heap, q: int, lo': Mem, hi': Mem)
    requires Valid(h) && q in h.ck && h.ck[q].st.Live? && WrittenIn(h, lo', hi', q)
    ensures Saved(h.lo, h.hi, lo', hi', Blocks(h) - {q})
  {
    var B := Blocks(h) - {q};
    forall p | p in B ensures SamePayload(h.lo, h.hi, lo', hi', p, B[p]) {
      WriteClear(h, q, p);
    }
  }

  /** Payload holds no tags, footers of free chunks, links or payload of others. */
  lemma WriteFrame(h: Heap, q: int, h': Heap)
    requires Good(h, {}) && q in h.ck && h.ck[q].st.Live? && WrittenIn(h, h'.lo, h'.hi, q)
    ensures Rd(h'.hi, h.top) == Rd(h.hi, h.top)
    ensures forall i | 1 <= i < NBINS :: Fd(h'.lo, BinAt(i)) == Fd(h.lo, BinAt(i)) && Bk(h'.hi, BinAt(i)) == Bk(h.hi, BinAt(i))
    ensures forall p {:trigger p in h.ck} :: p in h.ck ==>
              && Rd(h'.hi, p) == Rd(h.hi, p) && (h.ck[p].st.Binned? ==> Rd(h'.lo, Next(h, p)) == Rd(h.lo, Next(h, p)))
              && (p != q ==> Fd(h'.lo, p) == Fd(h.lo, p) && Bk(h'.hi, p) == Bk(h.hi, p))
  {
    assert Placed(h, q);
    forall p | p in h.ck
      ensures Rd(h'.hi, p) == Rd(h.hi, p) && (h.ck[p].st.Binned? ==> Rd(h'.lo, Next(h, p)) == Rd(h.lo, Next(h, p)))
      ensures p != q ==> Fd(h'.lo, p) == Fd(h.lo, p) && Bk(h'.hi, p) == Bk(h.hi, p)
    {
      WriteClear(h, q, p);
    }
  }

  lemma WriteClear(h: Heap, q: int, p: int)
    requires Valid(h) && q in h.ck && h.ck[q].st.Live? && p in h.ck
    ensures !(q < p < Next(h, q)) && (p != q ==> Next(h, p) <= q || Next(h, q) <= p)
    ensures MINSIZE <= h.ck[p].size && (p != q ==> Next(h, p) != Next(h, q))
    ensures p != q ==> !(q < Next(h, p) < Next(h, q))
  {
    Ordered(h, p, q);
    Ordered(h, q, p);
    assert Placed(h, p) && Placed(h, q);
    if Next(h, p) == Next(h, q) { NextInjective(h, p, q); }
  }

  // ------------------------------------------------- copying of blocks

  /** The word at address w, which is 0 or 4 modulo 8. */
  function Word(lo: Mem, hi: Mem, w: int): int {
    if w % 8 == 0 then Rd(lo, w) else Rd(hi, w - 4)
  }

  /** *d = v, for a word pointer d */
  function PutLo(lo: Mem, d: int, v: int): Mem {
    if d % 8 == 0 then lo[d := v] else lo
  }

  function PutHi(hi: Mem, d: int, v: int): Mem {
    if d % 8 == 0 then hi else hi[d - 4 := v]
  }

  /** The first n words at d are those that were at s. */
  ghost predicate Copied(lo: Mem, hi: Mem, s: int, lo': Mem, hi': Mem, d: int, n: nat) {
    forall i {:trigger SameWord(lo, hi, s, lo', hi', d, i)} :: 0 <= i < n ==> SameWord(lo, hi, s, lo', hi', d, i)
  }

  ghost predicate SameWord(lo: Mem, hi: Mem, s: int, lo': Mem, hi': Mem, d: int, i: int) {
    Word(lo', hi', d + 4 * i) == Word(lo, hi, s + 4 * i)
  }

  /** The words of a block of m bytes at q are those of the block that was at p. */
  ghost predicate Carried(lo: Mem, hi: Mem, p: int, lo': Mem, hi': Mem, q: int, m: int) {
    && (forall a {:trigger Rd(lo', a)} :: q < a <= q + m && a % 8 == 0 ==> Rd(lo', a) == Rd(lo, a - q + p))
    && (forall a {:trigger Rd(hi', a)} :: q < a < q + m && a % 8 == 0 ==> Rd(hi', a) == Rd(hi, a - q + p))
  }

  /** Which words of the block at q lie at a. */
  lemma WordIndex(q: int, a: int, m: int) returns (i: nat)
    requires q % 8 == a % 8 == m % 8 == 0 && q < a <= q + m
    ensures i % 2 == 0 && q + 8 + 4 * i == a && i < (m - 4) / 4 && (a < q + m ==> i + 1 < (m - 4) / 4)
  {
    i := 2 * ((a - q) / 8 - 1);
  }

  lemma WordsAt(lo: Mem, hi: Mem, q: int, i: nat)
    requires q % 8 == 0 && i % 2 == 0
    ensures Word(lo, hi, q + 8 + 4 * i) == Rd(lo, q + 8 + 4 * i)
    ensures Word(lo, hi, q + 8 + 4 * (i + 1)) == Rd(hi, q + 8 + 4 * i)
  {
    var k := i / 2;
    assert 4 * i == 8 * k;
  }

  /** The payload, as seen through the two maps. */
  lemma CarriedWords(lo: Mem, hi: Mem, p: int, lo': Mem, hi': Mem, q: int, m: int)
    requires p % 8 == q % 8 == m % 8 == 0 && MINSIZE <= m && Copied(lo, hi, p + 8, lo', hi', q + 8, (m - 4) / 4)
    ensures Carried(lo, hi, p, lo', hi', q, m)
  {
    forall a | q < a <= q + m && a % 8 == 0 ensures Rd(lo', a) == Rd(lo, a - q + p) && (a < q + m ==> Rd(hi', a) == Rd(hi, a - q + p)) {
      var i := WordIndex(q, a, m);
      WordsAt(lo, hi, p, i);
      WordsAt(lo', hi', q, i);
      assert SameWord(lo, hi, p + 8, lo', hi', q + 8, i);
      if a < q + m { assert SameWord(lo, hi, p + 8, lo', hi', q + 8, i + 1); }
    }
  }

  /** Two blocks, the second at least as large. */
  ghost predicate CopyPair(h: Heap, p: int, q: int) {
    && Good(h, {}) && p in h.ck && h.ck[p].st.Live? && q in h.ck && h.ck[q].st.Live? && p != q && h.ck[p].size <= h.ck[q].size
  }

  /** The first n words of p have been copied to q. */
  ghost predicate Copying(h: Heap, p: int, q: int, n: nat, lo: Mem, hi: Mem)
    requires q in h.ck
  {
    WrittenIn(h, lo, hi, q) && Copied(h.lo, h.hi, p + 8, lo, hi, q + 8, n)
  }

  /** The source is as it was. */
  lemma CopySource(h: Heap, p: int, q: int, n: nat, lo: Mem, hi: Mem)
    requires CopyPair(h, p, q) && n < (h.ck[p].size - 4) / 4 && WrittenIn(h, lo, hi, q)
    ensures Word(lo, hi, p + 8 + 4 * n) == Word(h.lo, h.hi, p + 8 + 4 * n)
  {
    NextOfLive(h, p);
    WordInside(h, p, n);
    WriteClear(h, q, p);
  }

  /** The destination lies in the block q. */
  lemma CopyTarget(h: Heap, q: int, n: nat, lo: Mem, hi: Mem, v: int)
    requires Good(h, {}) && q in h.ck && h.ck[q].st.Live? && n < (h.ck[q].size - 4) / 4 && WrittenIn(h, lo, hi, q)
    ensures WrittenIn(h, PutLo(lo, q + 8 + 4 * n, v), PutHi(hi, q + 8 + 4 * n, v), q)
    ensures (q + 8) % 4 == 0
  {
    NextOfLive(h, q);
    WordInside(h, q, n);
    WordInside(h, q, 0);
    PutInside(h, q, q + 8 + 4 * n, lo, hi, v);
  }

  lemma PutInside(h: Heap, q: int, w: int, lo: Mem, hi: Mem, v: int)
    requires q in h.ck && WrittenIn(h, lo, hi, q)
    requires if w % 8 == 0 then q < w <= Next(h, q) else w % 8 == 4 && q < w - 4 < Next(h, q)
    ensures WrittenIn(h, PutLo(lo, w, v), PutHi(hi, w, v), q)
  {
    var lo', hi' := PutLo(lo, w, v), PutHi(hi, w, v);
    forall a | !(q < a <= Next(h, q)) ensures Rd(lo', a) == Rd(h.lo, a) {
      assert Rd(lo, a) == Rd(h.lo, a);
    }
    forall a | !(q < a < Next(h, q)) ensures Rd(hi', a) == Rd(h.hi, a) {
      assert Rd(hi, a) == Rd(h.hi, a);
    }
  }

  /** One word stored in the block q. */
  lemma StoreMove(h: Heap, q: int, n: nat, v: int) returns (h': Heap)
    requires Good(h, {}) && q in h.ck && h.ck[q].st.Live? && n < (h.ck[q].size - 4) / 4
    ensures h' == h.(lo := PutLo(h.lo, q + 8 + 4 * n, v), hi := PutHi(h.hi, q + 8 + 4 * n, v)) && Good(h', {})
    ensures Blocks(h') == Blocks(h) && Saved(h.lo, h.hi, h'.lo, h'.hi, Blocks(h) - {q})
  {
    CopyTarget(h, q, n, h.lo, h.hi, v);
    h' := WriteMove(h, q, PutLo(h.lo, q + 8 + 4 * n, v), PutHi(h.hi, q + 8 + 4 * n, v));
  }

  /** *(d + n) = *(s + n) */
  lemma CopyStep(h: Heap, p: int, q: int, n: nat, lo: Mem, hi: Mem)
    requires CopyPair(h, p, q) && n < (h.ck[p].size - 4) / 4 && Copying(h, p, q, n, lo, hi)
    ensures var v := Word(lo, hi, p + 8 + 4 * n);
            Copying(h, p, q, n + 1, PutLo(lo, q + 8 + 4 * n, v), PutHi(hi, q + 8 + 4 * n, v))
  {
    var v := Word(lo, hi, p + 8 + 4 * n);
    CopySource(h, p, q, n, lo, hi);
    CopyTarget(h, q, n, lo, hi, v);
    PutCopied(h.lo, h.hi, p + 8, lo, hi, q + 8, n, v);
  }

  lemma PutCopied(lo0: Mem, hi0: Mem, s: int, lo: Mem, hi: Mem, d: int, n: nat, v: int)
    requires Copied(lo0, hi0, s, lo, hi, d, n) && d % 4 == 0 && v == Word(lo0, hi0, s + 4 * n)
    ensures Copied(lo0, hi0, s, PutLo(lo, d + 4 * n, v), PutHi(hi, d + 4 * n, v), d, n + 1)
  {
    var w := d + 4 * n;
    var lo', hi' := PutLo(lo, w, v), PutHi(hi, w, v);
    forall i | 0 <= i < n + 1 ensures SameWord(lo0, hi0, s, lo', hi', d, i) {
      if i < n {
        assert SameWord(lo0, hi0, s, lo, hi, d, i);
        FourApart(d, i);
        FourApart(d, n);
        PutOther(lo, hi, w, v, d + 4 * i);
      } else {
        PutThere(lo, hi, w, v);
      }
    }
  }

  lemma FourApart(d: int, i: int)
    requires d % 4 == 0
    ensures (d + 4 * i) % 4 == 0
  {
    assert d + 4 * i == 4 * (d / 4 + i);
  }

  lemma PutThere(lo: Mem, hi: Mem, w: int, v: int)
    ensures Word(PutLo(lo, w, v), PutHi(hi, w, v), w) == v
  {
  }

  lemma PutOther(lo: Mem, hi: Mem, d: int, v: int, w: int)
    requires d % 4 == w % 4 == 0 && w != d
    ensures Word(PutLo(lo, d, v), PutHi(hi, d, v), w) == Word(lo, hi, w)
  {
  }

  /** Word n of a block lies within its payload. */
  lemma WordInside(h: Heap, p: int, n: nat)
    requires p in h.ck && p >= 0 && p % 8 == 0 && h.ck[p].size % 8 == 0 && n < (h.ck[p].size - 4) / 4
    ensures (p + 8 + 4 * n) % 4 == 0
    ensures var w := p + 8 + 4 * n;
            if w % 8 == 0 then p < w <= Next(h, p) else w % 8 == 4 && p < w - 4 < Next(h, p)
  {
    WordsOf(p / 8, h.ck[p].size / 8, n);
  }

  /** Word n behind the head of a chunk of m pairs of words. */
  lemma WordsOf(p: nat, m: nat, n: nat)
    requires n < (8 * m - 4) / 4
    ensures var w := 8 * p + 8 + 4 * n;
            w % 4 == 0 && if w % 8 == 0 then 8 * p < w <= 8 * p + 8 * m else w % 8 == 4 && 8 * p < w - 4 < 8 * p + 8 * m
  {
    var k, b := Split(n, 2);
    Fours(p + 1 + k);
    assert n < 2 * m - 1 && 8 * p + 8 + 4 * n == 8 * (p + 1 + k) + 4 * b;
  }

  lemma Fours(x: nat)
    ensures 8 * x % 8 == 0 && 8 * x % 4 == 0 && (8 * x + 4) % 8 == 4 && (8 * x + 4) % 4 == 0
  {
    ModUnique(8 * x, 8, x, 0);
    ModUnique(8 * x, 4, 2 * x, 0);
    ModUnique(8 * x + 4, 8, x, 4);
    ModUnique(8 * x + 4, 4, 2 * x + 1, 0);
  }

  /** The copy is done. */
  lemma CopyMove(h: Heap, p: int, q: int, lo: Mem, hi: Mem) returns (h': Heap)
    requires CopyPair(h, p, q) && MINSIZE <= h.ck[p].size && Copying(h, p, q, (h.ck[p].size - 4) / 4, lo, hi)
    ensures h' == h.(lo := lo, hi := hi) && Good(h', {}) && Blocks(h') == Blocks(h)
    ensures Saved(h.lo, h.hi, lo, hi, Blocks(h) - {q}) && Carried(h.lo, h.hi, p, lo, hi, q, h.ck[p].size)
  {
    NextOfLive(h, p);
    NextOfLive(h, q);
    h' := WriteMove(h, q, lo, hi);
    CarriedWords(h.lo, h.hi, p, lo, hi, q, h.ck[p].size);
  }

  /** What realloc of the block p to at least nb bytes comes to: nothing changes, or the block,
      possibly moved, keeps its leading words, and all other blocks are as they were. */
  ghost predicate Regranted(lo: Mem, hi: Mem, B: map<int, int>, p: int, lo': Mem, hi': Mem, B': map<int, int>, mem: int, nb: nat)
    requires p in B
  {
    if mem == 0 then B' == B && Saved(lo, hi, lo', hi', B)
    else var q := mem - 8;
         && q % 8 == 0 && q in B' && nb <= B'[q] < nb + MINSIZE && (q == p || q !in B)
         && B' == (B - {p})[q := B'[q]]
         && Saved(lo, hi, lo', hi', B - {p})
         && Carried(lo, hi, p, lo', hi', q, if B[p] < B'[q] then B[p] else B'[q])
  }

  /** A block resized in place. */
  lemma Stayed(lo: Mem, hi: Mem, B: map<int, int>, p: int, lo': Mem, hi': Mem, B': map<int, int>, s: int, nb: nat)
    requires p in B && p > 0 && p % 8 == 0 && nb <= s < nb + MINSIZE && B' == B[p := s]
    requires Saved(lo, hi, lo', hi', B[p := if B[p] < s then B[p] else s])
    ensures Regranted(lo, hi, B, p, lo', hi', B', p + 8, nb)
  {
    var m := if B[p] < s then B[p] else s;
    var B1 := B[p := m];
    assert SamePayload(lo, hi, lo', hi', p, B1[p]);
    SavedSub(lo, hi, lo', hi', B1, B - {p});
    assert B' == (B - {p})[p := s];
  }

  /** If each block has its size or more, all of them are saved. */
  lemma Shrunk(lo: Mem, hi: Mem, lo': Mem, hi': Mem, B: map<int, int>, C: map<int, int>)
    requires Saved(lo, hi, lo', hi', C) && forall q :: q in B ==> q in C && B[q] <= C[q]
    ensures Saved(lo, hi, lo', hi', B)
  {
    forall q | q in B ensures SamePayload(lo, hi, lo', hi', q, B[q]) {
      assert SamePayload(lo, hi, lo', hi', q, C[q]);
    }
  }

  /** A block that was extended forward and trimmed. */
  lemma Extended(lo: Mem, hi: Mem, B: map<int, int>, p: int, lo1: Mem, hi1: Mem, lo': Mem, hi': Mem, B': map<int, int>, size: int, nb: nat)
    requires p in B && p > 0 && p % 8 == 0 && B[p] < nb <= size
    requires Saved(lo, hi, lo1, hi1, B) && Saved(lo1, hi1, lo', hi', B')
    requires B' == B[p := if size - nb < MINSIZE then size else nb]
    ensures Regranted(lo, hi, B, p, lo', hi', B', p + 8, nb)
  {
    assert SamePayload(lo1, hi1, lo', hi', p, B'[p]);
    Shrunk(lo1, hi1, lo', hi', B, B');
    SavedTrans(lo, hi, lo1, hi1, lo', hi', B);
    assert B[p := B[p]] == B;
    Stayed(lo, hi, B, p, lo', hi', B', B'[p], nb);
  }

  /** A block that was moved: allocated at q, copied, and given up at p. */
  lemma Moved(lo: Mem, hi: Mem, B: map<int, int>, p: int, lo1: Mem, hi1: Mem, lo2: Mem, hi2: Mem,
              lo': Mem, hi': Mem, q: int, s: int, nb: nat)
    requires p in B && q > 0 && p % 8 == q % 8 == B[p] % 8 == 0 && q !in B && MINSIZE <= B[p] < nb <= s < nb + MINSIZE
    requires Saved(lo, hi, lo1, hi1, B) && Saved(lo1, hi1, lo2, hi2, B)
    requires Carried(lo1, hi1, p, lo2, hi2, q, B[p])
    requires Saved(lo2, hi2, lo', hi', B[q := s] - {p})
    ensures Regranted(lo, hi, B, p, lo', hi', B[q := s] - {p}, q + 8, nb)
  {
    var B' := B[q := s] - {p};
    assert B' == (B - {p})[q := s];
    SavedTrans(lo, hi, lo1, hi1, lo2, hi2, B);
    SavedSub(lo, hi, lo2, hi2, B, B - {p});
    SavedSub(lo2, hi2, lo', hi', B', B - {p});
    SavedTrans(lo, hi, lo2, hi2, lo', hi', B - {p});
    assert SamePayload(lo, hi, lo1, hi1, p, B[p]);
    assert SamePayload(lo2, hi2, lo', hi', q, B'[q]);
    MovedWords(lo, hi, p, lo1, hi1, lo2, hi2, lo', hi', q, B[p], s);
  }

  lemma MovedWords(lo: Mem, hi: Mem, p: int, lo1: Mem, hi1: Mem, lo2: Mem, hi2: Mem,
                   lo': Mem, hi': Mem, q: int, m: int, s: int)
    requires m <= s
    requires SamePayload(lo, hi, lo1, hi1, p, m) && SamePayload(lo2, hi2, lo', hi', q, s)
    requires Carried(lo1, hi1, p, lo2, hi2, q, m)
    ensures Carried(lo, hi, p, lo', hi', q, m)
  {
    forall a | q < a <= q + m && a % 8 == 0 ensures Rd(lo', a) == Rd(lo, a - q + p) {
      assert Rd(lo2, a) == Rd(lo1, a - q + p);
    }
    forall a | q < a < q + m && a % 8 == 0 ensures Rd(hi', a) == Rd(hi, a - q + p) {
      assert Rd(hi2, a) == Rd(hi1, a - q + p);
    }
  }
}
