/** The steps of the allocator in the shape the code takes them: from a heap whose only
    loose chunks are those in S, with the exact stores of each macro. */
module MallocMoves {
  import opened Arith
  import opened MallocLists
  import opened MallocBins
  import opened MallocHeap
  import opened MallocSteps

  /** No byte of the given blocks differs between the two memories. */
  ghost predicate Saved(lo: Mem, hi: Mem, lo': Mem, hi': Mem, B: map<int, int>) {
    forall p {:trigger SamePayload(lo, hi, lo', hi', p, B[p])} :: p in B ==> SamePayload(lo, hi, lo', hi', p, B[p])
  }

  lemma SavedTrans(lo0: Mem, hi0: Mem, lo1: Mem, hi1: Mem, lo2: Mem, hi2: Mem, B: map<int, int>)
    requires Saved(lo0, hi0, lo1, hi1, B) && Saved(lo1, hi1, lo2, hi2, B)
    ensures Saved(lo0, hi0, lo2, hi2, B)
  {
    forall p | p in B ensures SamePayload(lo0, hi0, lo2, hi2, p, B[p]) {
      assert SamePayload(lo0, hi0, lo1, hi1, p, B[p]);
      assert SamePayload(lo1, hi1, lo2, hi2, p, B[p]);
    }
  }

  lemma SavedSub(lo: Mem, hi: Mem, lo': Mem, hi': Mem, B: map<int, int>, C: map<int, int>)
    requires Saved(lo, hi, lo', hi', B)
    requires forall p :: p in C ==> p in B && B[p] == C[p]
    ensures Saved(lo, hi, lo', hi', C)
  {
    forall p | p in C ensures SamePayload(lo, hi, lo', hi', p, C[p]) {
      assert SamePayload(lo, hi, lo', hi', p, B[p]);
    }
  }

  lemma KeptSaved(h: Heap, h': Heap)
    requires Kept(h, h')
    ensures Saved(h.lo, h.hi, h'.lo, h'.hi, Blocks(h))
  {
    forall p | p in Blocks(h) ensures SamePayload(h.lo, h.hi, h'.lo, h'.hi, p, Blocks(h)[p]) {
      assert SamePayload(h.lo, h.hi, h'.lo, h'.hi, p, h.ck[p].size);
    }
  }

  /** A valid heap in which every chunk outside S is live, on a fastbin or binned. */
  ghost predicate Good(h: Heap, S: set<int>) {
    Valid(h) && forall p {:trigger h.ck[p]} :: p in h.ck && p !in S ==> !h.ck[p].st.Loose?
  }

  /** chunksize(p), from the size word */
  function ChunkSize(head: int): int {
    head / 4 * 4
  }

  /** prev_inuse(p), from the size word */
  predicate PrevInuse(head: int) {
    head % 2 == 1
  }

  /** head | PREV_INUSE */
  function WithInuse(head: int): int {
    if PrevInuse(head) then head else head + 1
  }

  /** The size word of a chunk that is not loose, as the macros read it. */
  lemma ReadHead(h: Heap, p: int)
    requires Valid(h) && p in h.ck && !h.ck[p].st.Loose?
    ensures ChunkSize(Rd(h.hi, p)) == h.ck[p].size >= MINSIZE
    ensures PrevInuse(Rd(h.hi, p)) <==> h.ck[p].before == -1
    ensures h.start <= p && p % 8 == 0 && h.ck[p].size % 8 == 0 && p + h.ck[p].size <= h.top
  {
    assert Placed(h, p) && Tagged(h, p);
    HeadBits(h.ck[p].size);
  }

  /** Sizes are multiples of 8, so the flag bits do not disturb them. */
  lemma HeadBits(size: int)
    requires size % 8 == 0
    ensures ChunkSize(size + 1) == ChunkSize(size) == size && PrevInuse(size + 1) && !PrevInuse(size)
  {
  }

  lemma ReadTop(h: Heap)
    requires Valid(h)
    ensures ChunkSize(Rd(h.hi, h.top)) == h.brk - h.top >= MINSIZE && PrevInuse(Rd(h.hi, h.top)) && h.top in h.hi
    ensures Rd(h.hi, h.top) == h.brk - h.top + 1
  {
    Octets(h.brk, h.top);
    HeadBits(h.brk - h.top);
  }

  /** The chunk that follows p, or top: its size as chunksize reads it. */
  lemma ReadNext(h: Heap, p: int)
    requires Valid(h) && p in h.ck
    requires Next(h, p) in h.ck ==> !h.ck[Next(h, p)].st.Loose?
    ensures Next(h, p) in h.ck || Next(h, p) == h.top
    ensures ChunkSize(Rd(h.hi, Next(h, p))) == if Next(h, p) in h.ck then h.ck[Next(h, p)].size else h.brk - h.top
    ensures h.top !in h.ck
  {
    assert Placed(h, p);
    assert h.top in h.ck ==> Placed(h, h.top);
    if Next(h, p) in h.ck { ReadHead(h, Next(h, p)); } else { ReadTop(h); }
  }

  /** inuse_bit_at_offset(n, size): clear exactly when n is binned. */
  lemma ReadInuse(h: Heap, n: int)
    requires Valid(h) && n in h.ck && !h.ck[n].st.Loose?
    requires Next(h, n) in h.ck ==> !h.ck[Next(h, n)].st.Loose?
    ensures PrevInuse(Rd(h.hi, Next(h, n))) <==> !h.ck[n].st.Binned?
  {
    assert Placed(h, n) && Tagged(h, n);
    Octets(h.brk, h.top);
    HeadBits(h.brk - h.top);
    if Next(h, n) in h.ck { ReadHead(h, Next(h, n)); }
  }

  lemma PlaceOf(h: Heap, p: int)
    requires Valid(h) && p in h.ck
    ensures Placed(h, p) && Listed(h, p)
  {
    assert Placed(h, p) && Listed(h, p);
  }

  lemma TagsOf(h: Heap, p: int)
    requires Valid(h) && p in h.ck
    ensures Tagged(h, p)
  {
    assert Tagged(h, p);
  }

  /** PREV_INUSE clear: prev_size leads to the chunk before, which is binned. */
  lemma ReadBefore(h: Heap, p: int)
    requires Good(h, {}) && p in h.ck && h.ck[p].before != -1
    ensures var b := h.ck[p].before;
            && b in h.ck && h.ck[b].st.Binned? && Next(h, b) == p && b + Rd(h.lo, p) == p
            && h.ck[b].before == -1
  {
    assert Tagged(h, p);
    var b := h.ck[p].before;
    assert Tagged(h, b);
    if h.ck[b].before != -1 { TagsOf(h, h.ck[b].before); }
  }

  /** The elementary steps on the set of blocks. */
  lemma UnlinkBlocks(h: Heap, i: int, k: int, lo': Mem, hi': Mem)
    requires Valid(h) && 1 <= i < NBINS && 0 <= k < |h.bins[i]|
    requires h.bins[i][k] in h.ck && h.ck[h.bins[i][k]].st == Binned(i)
    ensures Blocks(Unlinked(h, i, k, lo', hi')) == Blocks(h)
  {
  }

  lemma TakeBlocks(h: Heap, x: int, hi': Mem)
    requires x in h.ck && h.ck[x].size > 0
    ensures Blocks(Taken(h, x, hi')) == Blocks(h)[x := h.ck[x].size]
  {
  }

  lemma ReleaseBlocks(h: Heap, x: int, hi': Mem)
    requires x in h.ck && h.ck[x].size > 0
    ensures Blocks(Released(h, x, hi')) == Blocks(h) - {x}
  {
  }

  lemma MergeBlocks(h: Heap, p: int, hi': Mem)
    requires p in h.ck && Next(h, p) in h.ck && h.ck[p].size > 0 && h.ck[Next(h, p)].size > 0
    requires h.ck[p].st.Loose? && h.ck[Next(h, p)].st.Loose?
    ensures Blocks(Joined(h, p, hi')) == Blocks(h)
  {
  }

  lemma LinkBlocks(h: Heap, x: int, i: int, k: int, lo': Mem, hi': Mem)
    requires x in h.ck && h.ck[x].st.Loose? && |h.bins| == NBINS && 0 <= i < NBINS && 0 <= k <= |h.bins[i]|
    ensures Blocks(Linked(h, x, i, k, lo', hi')) == Blocks(h)
  {
  }

  lemma AbsorbBlocks(h: Heap, p: int, hi': Mem)
    requires p in h.ck && h.ck[p].st.Loose?
    ensures Blocks(Absorbed(h, p, hi')) == Blocks(h)
  {
  }

  /** unlink(p) */
  lemma UnlinkMove(h: Heap, p: int, S: set<int>) returns (h': Heap, k: int)
    requires Good(h, S) && p in h.ck && h.ck[p].st.Binned?
    ensures var i := h.ck[p].st.bin;
            && 1 <= i < NBINS && 0 <= k < |h.bins[i]| && h.bins[i][k] == p
            && h' == Unlinked(h, i, k, h.lo[Bk(h.hi, p) + 8 := Fd(h.lo, p)], h.hi[Fd(h.lo, p) + 8 := Bk(h.hi, p)])
    ensures Good(h', S + {p})
    ensures Blocks(h') == Blocks(h) && Saved(h.lo, h.hi, h'.lo, h'.hi, Blocks(h))
    ensures Rd(h'.hi, p) == Rd(h.hi, p) && Rd(h'.lo, Next(h, p)) == Rd(h.lo, Next(h, p))
  {
    assert Listed(h, p);
    var i := h.ck[p].st.bin;
    k :| 0 <= k < |h.bins[i]| && h.bins[i][k] == p;
    h' := Unlinked(h, i, k, h.lo[Bk(h.hi, p) + 8 := Fd(h.lo, p)], h.hi[Fd(h.lo, p) + 8 := Bk(h.hi, p)]);
    UnlinkStep(h, i, k, h');
  }

  lemma UnlinkStep(h: Heap, i: int, k: int, h': Heap)
    requires Valid(h) && 1 <= i < NBINS && 0 <= k < |h.bins[i]|
    requires h.bins[i][k] in h.ck && h' == Unlinked(h, i, k, h'.lo, h'.hi)
    requires h'.lo == h.lo[Bk(h.hi, h.bins[i][k]) + 8 := Fd(h.lo, h.bins[i][k])]
    requires h'.hi == h.hi[Fd(h.lo, h.bins[i][k]) + 8 := Bk(h.hi, h.bins[i][k])]
    ensures Valid(h') && Blocks(h') == Blocks(h) && Saved(h.lo, h.hi, h'.lo, h'.hi, Blocks(h))
    ensures Rd(h'.hi, h.bins[i][k]) == Rd(h.hi, h.bins[i][k])
    ensures Rd(h'.lo, Next(h, h.bins[i][k])) == Rd(h.lo, Next(h, h.bins[i][k]))
  {
    var p := h.bins[i][k];
    Neighbours(h, i, k);
    UnlinkBlocks(h, i, k, h'.lo, h'.hi);
    UnlinkValid(h, i, k, h');
    KeptSaved(h, h');
    NodeCell(h, i, Fd(h.lo, p));
    NodeCell(h, i, Bk(h.hi, p));
    LinkCellClear(h, Fd(h.lo, p) + 8, p);
    LinkCellClear(h, Bk(h.hi, p) + 8, p);
  }

  /** set_inuse_bit_at_offset(x, size): the loose chunk x becomes a block. */
  lemma TakeMove(h: Heap, x: int, S: set<int>) returns (h': Heap)
    requires Good(h, S + {x}) && x in h.ck && h.ck[x].st.Loose?
    requires Next(h, x) in h.ck && !h.ck[Next(h, x)].st.Loose?
    requires Rd(h.hi, x) == HeadWord(h.ck[x])
    ensures h' == Taken(h, x, h.hi[Next(h, x) := WithInuse(Rd(h.hi, Next(h, x)))])
    ensures Good(h', S)
    ensures Blocks(h') == Blocks(h)[x := h.ck[x].size] && Saved(h.lo, h.hi, h'.lo, h'.hi, Blocks(h))
  {
    var n := Next(h, x);
    assert Placed(h, x) && Tagged(h, x) && Tagged(h, n) && Placed(h, n);
    h' := Taken(h, x, h.hi[n := WithInuse(Rd(h.hi, n))]);
    TakeBlocks(h, x, h'.hi);
    TakeValid(h, x, h');
    KeptSaved(h, h');
  }

  /** set_head(next, nextsize): the block p is given up, and its successor's PREV_INUSE cleared. */
  lemma ReleaseMove(h: Heap, p: int, S: set<int>) returns (h': Heap)
    requires Good(h, S) && p in h.ck && h.ck[p].st.Live?
    requires Next(h, p) in h.ck ==> !h.ck[Next(h, p)].st.Loose?
    ensures h' == Released(h, p, if Next(h, p) in h.ck then h.hi[Next(h, p) := h.ck[Next(h, p)].size] else h.hi)
    ensures Good(h', S + {p})
    ensures Blocks(h') == Blocks(h) - {p} && Saved(h.lo, h.hi, h'.lo, h'.hi, Blocks(h))
  {
    var n := Next(h, p);
    assert Placed(h, p);
    if n in h.ck { assert Placed(h, n); }
    h' := Released(h, p, if n in h.ck then h.hi[n := h.ck[n].size] else h.hi);
    ReleaseBlocks(h, p, h'.hi);
    ReleaseValid(h, p, h');
    KeptSaved(h, h');
  }

  /** Two loose neighbours count as one chunk from here on; memory is not touched. */
  lemma MergeMove(h: Heap, p: int, S: set<int>) returns (h': Heap)
    requires p in h.ck && Next(h, p) in h.ck && Good(h, S + {p, Next(h, p)})
    requires h.ck[p].st.Loose? && h.ck[Next(h, p)].st.Loose?
    ensures h' == Joined(h, p, h.hi) && Good(h', S + {p})
    ensures Blocks(h') == Blocks(h)
  {
    assert Placed(h, p) && Placed(h, Next(h, p));
    MergeBlocks(h, p, h.hi);
    h' := Joined(h, p, h.hi);
    JoinValid(h, p, h');
  }

  /** The loose chunk p goes to the front of the unsorted list; its head and foot are stored. */
  lemma PushMove(h: Heap, p: int, fwd: int) returns (h': Heap)
    requires Good(h, {p}) && p in h.ck && h.ck[p].st.Loose? && h.ck[p].before == -1
    requires Next(h, p) in h.ck && !h.ck[Next(h, p)].st.Binned?
    requires fwd == Fd(h.lo, BinAt(1))
    ensures h' == Linked(h, p, 1, 0, h.lo[p + 8 := fwd][BinAt(1) + 8 := p][Next(h, p) := h.ck[p].size],
                         h.hi[p + 8 := BinAt(1)][fwd + 8 := p][p := h.ck[p].size + 1])
    ensures Good(h', {})
    ensures Blocks(h') == Blocks(h) && Saved(h.lo, h.hi, h'.lo, h'.hi, Blocks(h))
  {
    assert BinOk(h, 1);
    h' := Linked(h, p, 1, 0, h.lo[p + 8 := fwd][BinAt(1) + 8 := p][Next(h, p) := h.ck[p].size],
                 h.hi[p + 8 := BinAt(1)][fwd + 8 := p][p := h.ck[p].size + 1]);
    LinkNodes(h, 1, 0);
    assert Placed(h, p);
    NodeCell(h, 1, fwd);
    NodeCell(h, 1, BinAt(1));
    LinkCellClear(h, fwd + 8, p);
    LinkCellClear(h, BinAt(1) + 8, p);
    assert Before(BinAt(1), h.bins[1], 0) == BinAt(1);
    assert BinAt(1) + 8 != p + 8 && fwd + 8 != p + 8;
    LinkValid(h, p, 1, 0, h');
    LinkBlocks(h, p, 1, 0, h'.lo, h'.hi);
    KeptSaved(h, h');
  }

  /** The loose chunk p, which borders top, becomes its new start. */
  lemma AbsorbMove(h: Heap, p: int) returns (h': Heap)
    requires Good(h, {p}) && p in h.ck && h.ck[p].st.Loose? && h.ck[p].before == -1 && Next(h, p) == h.top
    ensures h' == Absorbed(h, p, h.hi[p := h.brk - p + 1]) && Good(h', {})
    ensures Blocks(h') == Blocks(h) && Saved(h.lo, h.hi, h'.lo, h'.hi, Blocks(h))
  {
    h' := Absorbed(h, p, h.hi[p := h.brk - p + 1]);
    AbsorbBlocks(h, p, h'.hi);
    AbsorbValid(h, p, h');
    KeptSaved(h, h');
  }

  /** No sorted bin that was empty has chunks now. */
  ghost predicate FewerBins(b: seq<seq<int>>, b': seq<seq<int>>) {
    |b| == |b'| && forall i {:trigger b'[i]} :: 2 <= i < |b'| && b'[i] != [] ==> b[i] != []
  }

  /** The chunk at q is the same in both heaps: its size and use, or that there is none. */
  ghost predicate SameAt(h: Heap, h': Heap, q: int) {
    (q in h'.ck <==> q in h.ck) && (q in h.ck ==> h'.ck[q].st == h.ck[q].st && h'.ck[q].size == h.ck[q].size)
  }

  /** All chunks are the same but those at a, b and c. */
  ghost predicate SameBut(h: Heap, h': Heap, a: int, b: int, c: int) {
    forall q {:trigger SameAt(h, h', q)} :: q != a && q != b && q != c ==> SameAt(h, h', q)
  }

  lemma SameTrans(h0: Heap, h1: Heap, h2: Heap, a: int, b: int, c: int)
    requires SameBut(h0, h1, a, b, c) && SameBut(h1, h2, a, b, c)
    ensures SameBut(h0, h2, a, b, c)
  {
    forall q | q != a && q != b && q != c ensures SameAt(h0, h2, q) {
      assert SameAt(h0, h1, q) && SameAt(h1, h2, q);
    }
  }

  /** The same list, with more exceptions. */
  lemma SameMore(h: Heap, h': Heap, a: int, b: int, c: int, x: int, y: int, z: int)
    requires SameBut(h, h', a, b, c) && a in {x, y, z} && b in {x, y, z} && c in {x, y, z}
    ensures SameBut(h, h', x, y, z)
  {
    forall q | q != x && q != y && q != z ensures SameAt(h, h', q) {}
  }

  /** Where the free chunk begins and ends that the block p becomes, with its free neighbours. */
  ghost function FreeStart(h: Heap, p: int): int
    requires p in h.ck
  {
    if h.ck[p].before != -1 then h.ck[p].before else p
  }

  ghost function FreeEnd(h: Heap, p: int): int
    requires p in h.ck
  {
    var n := Next(h, p);
    if n == h.top then h.brk else if n in h.ck && h.ck[n].st.Binned? then Next(h, n) else n
  }

  /** The neighbour behind p that goes with it, else p itself. */
  ghost function FreeNext(h: Heap, p: int): int
    requires p in h.ck
  {
    var n := Next(h, p);
    if n in h.ck && h.ck[n].st.Binned? then n else p
  }

  /** The block p has been given up with consolidation: from h to h', its free neighbours and it have become
      the first unsorted chunk or the start of top, and every other chunk is as it was. */
  ghost predicate Freed(h: Heap, p: int, h': Heap)
    requires p in h.ck
  {
    var s, n := FreeStart(h, p), FreeNext(h, p);
    && SameBut(h, h', p, s, n) && (s != p ==> p !in h'.ck) && (n != p ==> n !in h'.ck)
    && h'.brk == h.brk && |h'.bins| == NBINS
    && if Next(h, p) == h.top then h'.top == s && s !in h'.ck
       else h'.top == h.top && s in h'.ck && h'.ck[s].st == Binned(1) && Next(h', s) == FreeEnd(h, p) && h'.bins[1] != [] && h'.bins[1][0] == s
  }

  /** The bytes from a up to b lie in an unsorted chunk or in top. */
  ghost predicate InFree(h: Heap, a: int, b: int) {
    h.top <= a || exists q {:trigger h.ck[q]} :: q in h.ck && h.ck[q].st == Binned(1) && q <= a && b <= Next(h, q)
  }

  ghost predicate FreeKept(h: Heap, h': Heap) {
    forall a, b {:trigger InFree(h', a, b)} :: InFree(h, a, b) ==> InFree(h', a, b)
  }

  lemma FreeKeptTrans(h0: Heap, h1: Heap, h2: Heap)
    requires FreeKept(h0, h1) && FreeKept(h1, h2)
    ensures FreeKept(h0, h2)
  {
    forall a, b | InFree(h0, a, b) ensures InFree(h2, a, b) {
      assert InFree(h1, a, b);
    }
  }

  /** A change of use of one chunk that is not free. */
  lemma FreeKeptOther(h: Heap, h': Heap, x: int)
    requires x in h.ck && !h.ck[x].st.Binned? && x in h'.ck && h'.ck == h.ck[x := h'.ck[x]] && h'.top == h.top
    ensures FreeKept(h, h')
  {
    forall a, b | InFree(h, a, b) ensures InFree(h', a, b) {
      if h.top > a {
        var q :| q in h.ck && h.ck[q].st == Binned(1) && q <= a && b <= Next(h, q);
        assert h'.ck[q] == h.ck[q];
      }
    }
  }

  lemma FreedInFree(h: Heap, p: int, h': Heap)
    requires Valid(h) && p in h.ck && h.ck[p].st.Live? && Freed(h, p, h')
    ensures InFree(h', p, Next(h, p))
  {
    assert Placed(h, p) && Tagged(h, p);
    var s := FreeStart(h, p);
    if s != p { assert Placed(h, s); }
    if Next(h, p) in h.ck { assert Placed(h, Next(h, p)); }
    assert h.top in h.ck ==> Placed(h, h.top);
    if Next(h, p) != h.top { assert h'.ck[s].st == Binned(1); }
  }

  /** Giving up another block leaves free bytes free. */
  lemma FreedKeeps(h: Heap, p: int, h': Heap)
    requires Valid(h) && p in h.ck && h.ck[p].st.Live? && Freed(h, p, h')
    ensures FreeKept(h, h')
  {
    assert Placed(h, p) && Tagged(h, p);
    var s := FreeStart(h, p);
    if s != p { assert Placed(h, s); }
    if Next(h, p) in h.ck { assert Placed(h, Next(h, p)); }
    assert h.top in h.ck ==> Placed(h, h.top);
    forall a, b | InFree(h, a, b) ensures InFree(h', a, b) {
      if h.top > a {
        var q :| q in h.ck && h.ck[q].st == Binned(1) && q <= a && b <= Next(h, q);
        FreedKeepsOne(h, p, h', q, a, b);
      }
    }
  }

  lemma FreedKeepsOne(h: Heap, p: int, h': Heap, q: int, a: int, b: int)
    requires Valid(h) && p in h.ck && h.ck[p].st.Live? && Freed(h, p, h')
    requires q in h.ck && h.ck[q].st == Binned(1) && q <= a && b <= Next(h, q)
    ensures InFree(h', a, b)
  {
    assert Placed(h, p) && Tagged(h, p) && Placed(h, q);
    var s, n := FreeStart(h, p), FreeNext(h, p);
    if q != s && q != n {
      assert SameAt(h, h', q);
      assert h'.ck[q].st == Binned(1) && Next(h', q) == Next(h, q);
    } else {
      if s != p { assert Placed(h, s); }
      assert h.top in h.ck ==> Placed(h, h.top);
      if Next(h, p) != h.top { assert h'.ck[s].st == Binned(1); }
    }
  }

  // ------------------------------------------ the stages of consolidation

  /** p0 is a block, and p is p0 or the loose chunk just before it, preceded by a block. */
  ghost predicate Gathered(h: Heap, p0: int, p: int) {
    && Good(h, {p}) && p0 in h.ck && h.ck[p0].st.Live? && p in h.ck && h.ck[p].before == -1
    && (p != p0 ==> h.ck[p].st.Loose? && Next(h, p) == p0)
  }

  /** The block p0 is given up and joined to p; the next chunk, if any, sees a free chunk before it. */
  lemma GiveUp(h: Heap, p0: int, p: int) returns (h': Heap)
    requires Gathered(h, p0, p)
    ensures var n := Next(h, p0);
            && h' == h.(hi := if n in h.ck then h.hi[n := h.ck[n].size] else h.hi, ck := h'.ck)
            && p in h'.ck && h'.ck[p] == Chunk(n - p, Loose, -1)
            && (n in h.ck ==> n in h'.ck && h'.ck[n].st == h.ck[n].st && h'.ck[n].size == h.ck[n].size)
    ensures SameBut(h, h', p0, p, p) && (p != p0 ==> p0 !in h'.ck)
    ensures Good(h', {p}) && p < Next(h, p0)
    ensures Blocks(h') == Blocks(h) - {p0} && Saved(h.lo, h.hi, h'.lo, h'.hi, Blocks(h'))
  {
    var n := Next(h, p0);
    assert Placed(h, p0) && Placed(h, p);
    assert n != p && p <= p0;
    var h1 := ReleaseMove(h, p0, {p});
    h' := h1;
    ReleasedSame(h, p0, h1);
    if p != p0 {
      h' := MergeMove(h1, p, {});
      MergedSame(h, p0, p, h1, h');
    } else {
      SameMore(h, h1, p0, p0, p0, p0, p, p);
    }
    SavedSub(h.lo, h.hi, h'.lo, h'.hi, Blocks(h), Blocks(h'));
  }

  lemma ReleasedSame(h: Heap, p: int, h': Heap)
    requires p in h.ck && h' == Released(h, p, h'.hi)
    ensures SameBut(h, h', p, p, p)
  {
  }

  lemma MergedSame(h: Heap, p0: int, p: int, h1: Heap, h': Heap)
    requires p in h1.ck && Next(h1, p) == p0 && p0 in h1.ck && SameBut(h, h1, p0, p0, p0) && h' == Joined(h1, p, h1.hi)
    ensures SameBut(h, h', p0, p, p)
  {
    forall q | q != p0 && q != p ensures SameAt(h, h', q) {
      assert SameAt(h, h1, q);
    }
  }

  /** The binned chunk after the loose chunk p leaves its bin and is joined to p. */
  lemma SwallowNext(h: Heap, p: int) returns (h': Heap, k: int)
    requires Good(h, {p}) && p in h.ck && h.ck[p].st.Loose? && h.ck[p].before == -1
    requires Next(h, p) in h.ck && h.ck[Next(h, p)].st.Binned?
    ensures var n := Next(h, p);
            var i := h.ck[n].st.bin;
            && 1 <= i < NBINS && 0 <= k < |h.bins[i]| && h.bins[i][k] == n
            && h' == h.(lo := h.lo[Bk(h.hi, n) + 8 := Fd(h.lo, n)], hi := h.hi[Fd(h.lo, n) + 8 := Bk(h.hi, n)],
                        ck := h'.ck, bins := h.bins[i := Removed(h.bins[i], k)])
            && p in h'.ck && h'.ck[p] == Chunk(h.ck[p].size + h.ck[n].size, Loose, -1)
            && Next(h', p) in h'.ck && !h'.ck[Next(h', p)].st.Binned?
            && SameBut(h, h', p, n, n) && n !in h'.ck
    ensures Good(h', {p})
    ensures Blocks(h') == Blocks(h) && Saved(h.lo, h.hi, h'.lo, h'.hi, Blocks(h))
  {
    var n := Next(h, p);
    assert Placed(h, p) && Placed(h, n) && Tagged(h, n);
    var h1;
    h1, k := UnlinkMove(h, n, {p});
    h' := MergeMove(h1, p, {});
  }

  /** What consolidation forward over the chunk n leaves in memory. */
  ghost function ForwardLo(h: Heap, n: int): Mem
    requires n in h.ck
  {
    if h.ck[n].st.Binned? then h.lo[Bk(h.hi[n := h.ck[n].size], n) + 8 := Fd(h.lo, n)] else h.lo
  }

  ghost function ForwardHi(h: Heap, n: int): Mem
    requires n in h.ck
  {
    var hi1 := h.hi[n := h.ck[n].size];
    if h.ck[n].st.Binned? then hi1[Fd(h.lo, n) + 8 := Bk(hi1, n)] else hi1
  }

  /** Only p0, p and a free chunk behind them are not as they were. */
  ghost predicate ForwardFreed(h: Heap, p0: int, p: int, h': Heap)
    requires p0 in h.ck
  {
    var n := FreeNext(h, p0);
    SameBut(h, h', p0, p, n) && (p != p0 ==> p0 !in h'.ck) && (n != p0 ==> n !in h'.ck)
  }

  lemma ForwardSame(h: Heap, p0: int, p: int, h1: Heap, h': Heap)
    requires p0 in h.ck && SameBut(h, h1, p0, p, p) && (p != p0 ==> p0 !in h1.ck)
    requires var n := FreeNext(h, p0);
             if n == p0 then h' == h1 else SameBut(h1, h', p, n, n) && n !in h'.ck
    ensures ForwardFreed(h, p0, p, h')
  {
    var n := FreeNext(h, p0);
    forall q | q != p0 && q != p && q != n ensures SameAt(h, h', q) {
      assert SameAt(h, h1, q);
      assert n != p0 ==> SameAt(h1, h', q);
    }
    if n != p0 && p != p0 && p0 != n { assert SameAt(h1, h', p0); }
  }

  /** The block p0 is given up and joined to p, and so is the next chunk if it is binned. */
  lemma ForwardMove(h: Heap, p0: int, p: int) returns (h': Heap)
    requires Gathered(h, p0, p) && Next(h, p0) in h.ck && !h.ck[Next(h, p0)].st.Loose?
    ensures var n := Next(h, p0);
            var end := if h.ck[n].st.Binned? then n + h.ck[n].size else n;
            && h' == h.(lo := ForwardLo(h, n), hi := ForwardHi(h, n), ck := h'.ck, bins := h'.bins)
            && p < end && p in h'.ck && h'.ck[p] == Chunk(end - p, Loose, -1)
            && end in h'.ck && !h'.ck[end].st.Binned?
    ensures ForwardFreed(h, p0, p, h')
    ensures Good(h', {p}) && FewerBins(h.bins, h'.bins)
    ensures Blocks(h') == Blocks(h) - {p0} && Saved(h.lo, h.hi, h'.lo, h'.hi, Blocks(h'))
  {
    var n := Next(h, p0);
    var h1 := GiveUp(h, p0, p);
    h' := h1;
    if h.ck[n].st.Binned? {
      var k;
      h', k := SwallowNext(h1, p);
      SavedTrans(h.lo, h.hi, h1.lo, h1.hi, h'.lo, h'.hi, Blocks(h'));
    }
    ForwardSame(h, p0, p, h1, h');
  }

  /** The block p0, with p before it and a free chunk behind it, has become the first unsorted chunk or the start
      of top. */
  ghost predicate Merged(h: Heap, p0: int, p: int, h': Heap)
    requires p0 in h.ck
  {
    && ForwardFreed(h, p0, p, h') && h'.brk == h.brk && |h'.bins| == NBINS
    && if Next(h, p0) == h.top then h'.top == p && p !in h'.ck
       else h'.top == h.top && p in h'.ck && h'.ck[p].st == Binned(1) && Next(h', p) == FreeEnd(h, p0) && h'.bins[1] != [] && h'.bins[1][0] == p
  }

  lemma ListedMerged(h: Heap, p0: int, p: int, h1: Heap, h': Heap)
    requires p0 in h.ck && ForwardFreed(h, p0, p, h1) && Next(h, p0) != h.top && p in h1.ck && Next(h1, p) == FreeEnd(h, p0)
    requires |h1.bins| == NBINS && h1.top == h.top && h1.brk == h.brk
    requires h'.ck == h1.ck[p := h1.ck[p].(st := Binned(1))] && h'.top == h1.top && h'.brk == h1.brk
    requires |h'.bins| == NBINS && h'.bins[1] != [] && h'.bins[1][0] == p
    ensures Merged(h, p0, p, h')
  {
    var n := FreeNext(h, p0);
    forall q | q != p0 && q != p && q != n ensures SameAt(h, h', q) {
      assert SameAt(h, h1, q);
    }
  }

  /** With the chunk before it taken off its list first, that is what freeing p0 comes to. */
  lemma MergedFreed(h0: Heap, h: Heap, p0: int, p: int, h': Heap)
    requires p0 in h0.ck && p0 in h.ck && h.ck[p0] == h0.ck[p0] && p == FreeStart(h0, p0) && h.top == h0.top && h.brk == h0.brk
    requires SameBut(h0, h, p, p, p) && Next(h0, p0) != p && Merged(h, p0, p, h')
    ensures Freed(h0, p0, h')
  {
    var n := FreeNext(h0, p0);
    assert SameAt(h0, h, Next(h0, p0));
    forall q | q != p0 && q != p && q != n ensures SameAt(h0, h', q) {
      assert SameAt(h0, h, q) && SameAt(h, h', q);
    }
  }

  /** The block p0, with p, becomes the start of top. */
  lemma ToTop(h: Heap, p0: int, p: int) returns (h': Heap)
    requires Gathered(h, p0, p) && Next(h, p0) == h.top
    ensures h' == h.(hi := h.hi[p := h.brk - p + 1], top := p, ck := h'.ck) && Good(h', {})
    ensures SameBut(h, h', p0, p, p) && p0 !in h'.ck && p !in h'.ck && h.top !in h.ck
    ensures Blocks(h') == Blocks(h) - {p0} && Saved(h.lo, h.hi, h'.lo, h'.hi, Blocks(h'))
  {
    assert h.top in h.ck ==> Placed(h, h.top);
    var h1 := GiveUp(h, p0, p);
    h' := AbsorbMove(h1, p);
    forall q | q != p0 && q != p ensures SameAt(h, h', q) {
      assert SameAt(h, h1, q);
    }
    SavedTrans(h.lo, h.hi, h1.lo, h1.hi, h'.lo, h'.hi, Blocks(h'));
  }

  // ------------------------------------------------------------ fastbins

  /** *fb = p->fd: the first chunk of fastbin j is a block again. */
  lemma PopMove(h: Heap, j: int) returns (h': Heap)
    requires Good(h, {}) && 0 <= j < NFASTBINS && h.fb[j] != 0
    ensures var x := h.fb[j];
            && h.fasts[j] != [] && h.fasts[j][0] == x && x in h.ck && h.ck[x].st.Fast? && h.ck[x].size == 8 * (j + 2)
            && h' == FastPopped(h, j)
            && x !in Blocks(h) && Blocks(h') == Blocks(h)[x := h.ck[x].size]
    ensures Good(h', {})
  {
    assert FastOk(h, j);
    FastPopValid(h, j);
    h' := FastPopped(h, j);
  }

  /** A fastbin pointer is null exactly when the fastbin holds nothing. */
  lemma EmptyFast(h: Heap, j: int)
    requires Valid(h) && 0 <= j < NFASTBINS
    ensures h.fb[j] == 0 <==> h.fasts[j] == []
  {
    assert FastOk(h, j);
    if h.fasts[j] != [] {
      var x := h.fasts[j][0];
      assert x in h.ck;
      PlaceOf(h, x);
    }
  }

  /** The last two fastbins are beyond max_fast and stay empty. */
  lemma UnusedFast(h: Heap, j: int)
    requires Valid(h) && 8 <= j < NFASTBINS
    ensures h.fasts[j] == []
  {
    assert FastOk(h, j);
    if h.fasts[j] != [] {
      var x := h.fasts[j][0];
      assert x in h.ck;
      PlaceOf(h, x);
    }
  }

  /** p->fd = *fb, *fb = p: the block p goes to the head of its fastbin. */
  lemma PushFastMove(h: Heap, p: int) returns (h': Heap)
    requires Good(h, {}) && p in Blocks(h) && h.ck[p].size <= 72
    ensures 0 <= FastIndex(h.ck[p].size) < 8
    ensures h' == FastPushed(h, p, h.lo[p + 8 := h.fb[FastIndex(h.ck[p].size)]])
    ensures Good(h', {})
    ensures Blocks(h') == Blocks(h) - {p} && Saved(h.lo, h.hi, h'.lo, h'.hi, Blocks(h'))
  {
    assert Placed(h, p);
    var j := FastIndex(h.ck[p].size);
    h' := FastPushed(h, p, h.lo[p + 8 := h.fb[j]]);
    FastPushValid(h, p, h');
    forall q | q in Blocks(h') ensures SamePayload(h.lo, h.hi, h'.lo, h'.hi, q, Blocks(h')[q]) {
      assert q != p && SamePayload(h.lo, h.hi, h'.lo, h'.hi, q, h.ck[q].size);
    }
  }

  // ------------------------------------------------------------------ top

  /** The first nb bytes of top become a block. */
  lemma TopCutMove(h: Heap, nb: nat) returns (h': Heap)
    requires Good(h, {}) && MINSIZE <= nb && nb % 8 == 0 && h.top + nb + MINSIZE <= h.brk
    ensures h' == TopCut(h, nb, h.hi[h.top := nb + 1][h.top + nb := h.brk - h.top - nb + 1])
    ensures Good(h', {}) && h.top !in h.ck
    ensures Blocks(h') == Blocks(h)[h.top := nb] && Saved(h.lo, h.hi, h'.lo, h'.hi, Blocks(h))
  {
    assert h.top in h.ck ==> Placed(h, h.top);
    h' := TopCut(h, nb, h.hi[h.top := nb + 1][h.top + nb := h.brk - h.top - nb + 1]);
    TopCutValid(h, nb, h');
    KeptSaved(h, h');
    TopCutBlocks(h, nb, h'.hi);
  }

  lemma TopCutBlocks(h: Heap, nb: nat, hi': Mem)
    requires h.top !in h.ck
    ensures Blocks(TopCut(h, nb, hi')) == Blocks(h)[h.top := nb]
  {
  }

  /** The break moves up, and top with it. */
  lemma TopGrowMove(h: Heap, brk': int) returns (h': Heap)
    requires Good(h, {}) && h.brk <= brk' && brk' % 8 == 0
    ensures h' == TopGrown(h, brk', h.hi[h.top := brk' - h.top + 1]) && Good(h', {})
    ensures Blocks(h') == Blocks(h) && Saved(h.lo, h.hi, h'.lo, h'.hi, Blocks(h))
  {
    h' := TopGrown(h, brk', h.hi[h.top := brk' - h.top + 1]);
    TopGrownValid(h, brk', h');
    KeptSaved(h, h');
  }

  /** A heap that is all top. */
  ghost function Bare(lo: Mem, hi: Mem, fb: seq<int>, base: int, brk: int): Heap {
    Heap(lo, hi, fb, base, base, brk, map[], seq(NBINS, _ => []), seq(NFASTBINS, _ => []))
  }

  lemma BareGood(lo: Mem, hi: Mem, base: int, brk: int)
    requires HEAP_MIN <= base && base % 8 == brk % 8 == 0 && MINSIZE <= brk - base && Rd(hi, base) == brk - base + 1
    requires forall i {:trigger BinAt(i)} :: 1 <= i < NBINS ==> Fd(lo, BinAt(i)) == BinAt(i) && Bk(hi, BinAt(i)) == BinAt(i)
    ensures var h := Bare(lo, hi, seq(NFASTBINS, _ => 0), base, brk); Good(h, {}) && Blocks(h) == map[]
  {
    var h := Bare(lo, hi, seq(NFASTBINS, _ => 0), base, brk);
    forall i | 1 <= i < NBINS ensures BinOk(h, i) {
      assert h.bins[i] == [];
      assert Fd(lo, BinAt(i)) == BinAt(i);
    }
    forall j | 0 <= j < NFASTBINS ensures FastOk(h, j) {
      assert h.fasts[j] == [];
    }
  }

  /** Every binned chunk of h' other than r is binned in h with the same size. */
  ghost predicate BinnedWithin(h: Heap, h': Heap, r: int) {
    forall q {:trigger h'.ck[q]} :: q in h'.ck && h'.ck[q].st.Binned? && q != r ==>
      q in h.ck && h.ck[q].st.Binned? && h.ck[q].size == h'.ck[q].size
  }

  // ------------------------------------------------------- out of a bin

  /** The loose chunk x, just taken from a list, can be handed out. */
  ghost predicate Victim(h: Heap, x: int) {
    && Good(h, {x}) && x in h.ck && h.ck[x].st.Loose? && h.ck[x].before == -1
    && Next(h, x) in h.ck && !h.ck[Next(h, x)].st.Binned? && Next(h, x) != x
    && Rd(h.hi, x) == HeadWord(h.ck[x]) && Rd(h.lo, Next(h, x)) == h.ck[x].size
  }

  /** The stores of the split of x: remainder into the empty unsorted list, two heads and a foot. */
  ghost function SplitLo(h: Heap, x: int, nb: nat): Mem
    requires x in h.ck
  {
    var r := x + nb;
    h.lo[BinAt(1) + 8 := r][r + 8 := BinAt(1)][Next(h, x) := h.ck[x].size - nb]
  }

  ghost function SplitHi(h: Heap, x: int, nb: nat): Mem
    requires x in h.ck
  {
    var r := x + nb;
    h.hi[BinAt(1) + 8 := r][r + 8 := BinAt(1)][x := nb + 1][r := h.ck[x].size - nb + 1]
  }

  /** First half of the split: x of size nb is a block, the remainder r still loose. */
  lemma SplitTake(h: Heap, x: int, nb: nat) returns (h1: Heap, h2: Heap)
    requires Victim(h, x)
    requires MINSIZE <= nb && nb % 8 == 0 && MINSIZE <= h.ck[x].size - nb
    ensures var r := x + nb;
            var n := Next(h, x);
            && r !in h.ck && r != x && n != r
            && h1 == Cut(h, x, nb, h.hi)
            && h2 == h.(hi := h.hi[x := nb + 1][r := h.ck[x].size - nb + 1],
                        ck := h.ck[x := Chunk(nb, Live, -1)][r := Chunk(h.ck[x].size - nb, Loose, -1)]
                                  [n := h.ck[n].(before := r)])
    ensures Valid(h2) && Kept(h, h1) && Kept(h1, h2)
  {
    var r := x + nb;
    assert Placed(h, x) && Placed(h, Next(h, x));
    h1 := Cut(h, x, nb, h.hi);
    CutParts(h, x, nb, h1);
    CutValid(h, x, nb, h1);
    h2 := Taken(h1, x, h.hi[x := nb + 1][r := h.ck[x].size - nb + 1]);
    TakeValid(h1, x, h2);
  }

  /** The tiling after the split: x is a block of nb bytes, the remainder is unsorted. */
  ghost function SplitCk(h: Heap, x: int, nb: nat): map<int, Chunk>
    requires x in h.ck && Next(h, x) in h.ck && nb <= h.ck[x].size
  {
    var r := x + nb;
    var n := Next(h, x);
    h.ck[x := Chunk(nb, Live, -1)][r := Chunk(h.ck[x].size - nb, Binned(1), -1)][n := h.ck[n].(before := r)]
  }

  lemma SplitBlocks(h: Heap, x: int, nb: nat, h': Heap)
    requires x in h.ck && Next(h, x) in h.ck && nb <= h.ck[x].size && h'.ck == SplitCk(h, x, nb)
    requires !h.ck[x].st.Live? && x + nb !in h.ck && Next(h, x) != x && nb != 0
    ensures x !in Blocks(h) && Blocks(h') == Blocks(h)[x := nb]
    ensures BinnedWithin(h, h', x + nb)
  {
  }

  /** The victim is cut in two, its first nb bytes being handed out. */
  lemma SplitMove(h: Heap, x: int, nb: nat) returns (h': Heap)
    requires Victim(h, x) && h.bins[1] == []
    requires MINSIZE <= nb && nb % 8 == 0 && MINSIZE <= h.ck[x].size - nb
    ensures h' == h.(lo := SplitLo(h, x, nb), hi := SplitHi(h, x, nb), bins := h.bins[1 := [x + nb]], ck := SplitCk(h, x, nb))
    ensures Good(h', {}) && x + nb !in h.ck && BinnedWithin(h, h', x + nb)
    ensures x !in Blocks(h) && Blocks(h') == Blocks(h)[x := nb]
    ensures Saved(h.lo, h.hi, h'.lo, h'.hi, Blocks(h))
  {
    var h1, h2 := SplitTake(h, x, nb);
    h' := SplitList(h, x, nb, h2);
    SplitBlocks(h, x, nb, h');
    SplitSaved(h, x, nb, h1, h2, h');
  }

  /** Second half of the split: the remainder becomes the only unsorted chunk. */
  lemma SplitList(h: Heap, x: int, nb: nat, h2: Heap) returns (h': Heap)
    requires Victim(h, x) && h.bins[1] == [] && Valid(h2)
    requires MINSIZE <= nb && MINSIZE <= h.ck[x].size - nb && x + nb !in h.ck && Next(h, x) != x + nb
    requires h2 == h.(hi := h.hi[x := nb + 1][x + nb := h.ck[x].size - nb + 1],
                      ck := h.ck[x := Chunk(nb, Live, -1)][x + nb := Chunk(h.ck[x].size - nb, Loose, -1)]
                                [Next(h, x) := h.ck[Next(h, x)].(before := x + nb)])
    ensures h' == h.(lo := SplitLo(h, x, nb), hi := SplitHi(h, x, nb), bins := h.bins[1 := [x + nb]], ck := SplitCk(h, x, nb))
    ensures Good(h', {}) && Kept(h2, h')
  {
    var r := x + nb;
    h' := Linked(h2, r, 1, 0, SplitLo(h, x, nb), SplitHi(h, x, nb));
    assert Inserted(h.bins[1], 0, r) == [r];
    SplitLinks(h, x, nb, h2, h');
    LinkValid(h2, r, 1, 0, h');
  }

  lemma SplitLinks(h: Heap, x: int, nb: nat, h2: Heap, h': Heap)
    requires Victim(h, x) && h.bins[1] == [] && Valid(h2)
    requires MINSIZE <= nb && MINSIZE <= h.ck[x].size - nb
    requires h2 == h.(hi := h.hi[x := nb + 1][x + nb := h.ck[x].size - nb + 1], ck := h2.ck)
    requires x + nb in h2.ck && h2.ck[x + nb] == Chunk(h.ck[x].size - nb, Loose, -1)
    requires Next(h, x) in h2.ck && !h2.ck[Next(h, x)].st.Binned?
    requires x in h2.ck && h2.ck[x].size == nb
    requires h' == Linked(h2, x + nb, 1, 0, SplitLo(h, x, nb), SplitHi(h, x, nb))
    ensures Links(h2, x + nb, 1, 0, h')
  {
    var r := x + nb;
    assert Placed(h2, r) && Placed(h2, x);
    assert After(BinAt(1), h2.bins[1], -1) == BinAt(1) == Before(BinAt(1), h2.bins[1], 0);
  }

  lemma SplitSaved(h: Heap, x: int, nb: nat, h1: Heap, h2: Heap, h': Heap)
    requires x in h.ck && !h.ck[x].st.Live?
    requires Kept(h, h1) && Kept(h1, h2) && Kept(h2, h')
    requires forall p :: p in h.ck && h.ck[p].st.Live? ==> p in h1.ck && h1.ck[p].st.Live? && h1.ck[p].size == h.ck[p].size
    requires forall p :: p in h.ck && h.ck[p].st.Live? ==> p in h2.ck && h2.ck[p].st.Live? && h2.ck[p].size == h.ck[p].size
    ensures Saved(h.lo, h.hi, h'.lo, h'.hi, Blocks(h))
  {
    var B := Blocks(h);
    KeptSaved(h, h1);
    KeptSaved(h1, h2);
    KeptSaved(h2, h');
    SavedSub(h1.lo, h1.hi, h2.lo, h2.hi, Blocks(h1), B);
    SavedSub(h2.lo, h2.hi, h'.lo, h'.hi, Blocks(h2), B);
    SavedTrans(h.lo, h.hi, h1.lo, h1.hi, h2.lo, h2.hi, B);
    SavedTrans(h.lo, h.hi, h2.lo, h2.hi, h'.lo, h'.hi, B);
  }

  /** Unlinking a binned chunk makes it a victim. */
  lemma UnlinkVictim(h: Heap, p: int) returns (h': Heap, k: int)
    requires Good(h, {}) && p in h.ck && h.ck[p].st.Binned?
    ensures var i := h.ck[p].st.bin;
            && 1 <= i < NBINS && 0 <= k < |h.bins[i]| && h.bins[i][k] == p
            && h' == Unlinked(h, i, k, h.lo[Bk(h.hi, p) + 8 := Fd(h.lo, p)], h.hi[Fd(h.lo, p) + 8 := Bk(h.hi, p)])
    ensures Victim(h', p)
    ensures Blocks(h') == Blocks(h) && Saved(h.lo, h.hi, h'.lo, h'.hi, Blocks(h))
  {
    assert Tagged(h, p) && Placed(h, p);
    if h.ck[p].before != -1 { TagsOf(h, h.ck[p].before); }
    h', k := UnlinkMove(h, p, {});
  }

  /** The last chunk of a nonempty bin, and where the header's bk leads. */
  lemma LastOf(h: Heap, i: int)
    requires Valid(h) && 1 <= i < NBINS
    ensures var L := h.bins[i];
            var victim := Bk(h.hi, BinAt(i));
            && (victim == BinAt(i) <==> L == [])
            && (L != [] ==> (victim == L[|L| - 1] && victim in h.ck && h.ck[victim].st == Binned(i)
                             && Fd(h.lo, victim) == BinAt(i) && (Bk(h.hi, victim) == BinAt(i) <==> |L| == 1)))
  {
    assert BinOk(h, i);
    BinHeaderOutside(h, i);
    var L := h.bins[i];
    if L != [] {
      assert L[|L| - 1] in h.ck;
      assert Fd(h.lo, L[|L| - 1]) == After(BinAt(i), L, |L| - 1);
      assert Bk(h.hi, L[|L| - 1]) == Before(BinAt(i), L, |L| - 1);
      if |L| > 1 { assert L[|L| - 2] in h.ck; }
    }
  }

  // -------------------------------------------------------- into its bin

  /** The links that put a victim at position k of bin i; its tags are in place. */
  lemma LinkMove(h: Heap, x: int, i: int, k: int) returns (h': Heap)
    requires Victim(h, x) && 1 <= i < NBINS && 0 <= k <= |h.bins[i]| && FitsBin(h, x, i, k)
    ensures var fwd := After(BinAt(i), h.bins[i], k - 1);
            var bck := Before(BinAt(i), h.bins[i], k);
            h' == Linked(h, x, i, k, h.lo[x + 8 := fwd][bck + 8 := x], h.hi[x + 8 := bck][fwd + 8 := x])
    ensures Good(h', {})
    ensures Blocks(h') == Blocks(h) && Saved(h.lo, h.hi, h'.lo, h'.hi, Blocks(h))
  {
    var fwd := After(BinAt(i), h.bins[i], k - 1);
    var bck := Before(BinAt(i), h.bins[i], k);
    h' := Linked(h, x, i, k, h.lo[x + 8 := fwd][bck + 8 := x], h.hi[x + 8 := bck][fwd + 8 := x]);
    LinkNodes(h, i, k);
    NodeCell(h, i, fwd);
    NodeCell(h, i, bck);
    LinkCellClear(h, fwd + 8, x);
    LinkCellClear(h, bck + 8, x);
    assert Placed(h, x);
    assert bck != x && fwd != x;
    LinkValid(h, x, i, k, h');
    LinkBlocks(h, x, i, k, h'.lo, h'.hi);
    KeptSaved(h, h');
  }

  /** The size word of a binned chunk while a victim is being placed. */
  lemma BinnedHead(h: Heap, x: int, i: int, k: int)
    requires Victim(h, x) && 1 <= i < NBINS && 0 <= k < |h.bins[i]|
    ensures h.bins[i][k] in h.ck && Rd(h.hi, h.bins[i][k]) == h.ck[h.bins[i][k]].size + 1
    ensures Fd(h.lo, h.bins[i][k]) == After(BinAt(i), h.bins[i], k) && Bk(h.hi, h.bins[i][k]) == Before(BinAt(i), h.bins[i], k)
  {
    Neighbours(h, i, k);
    var p := h.bins[i][k];
    TagsOf(h, p);
    if h.ck[p].before != -1 { TagsOf(h, h.ck[p].before); }
  }
}
