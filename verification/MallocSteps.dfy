/** The elementary steps of malloc, free, consolidation and realloc, on values: each
    takes a valid heap to a valid heap and keeps the contents of every live block. */
module MallocSteps {
  import opened MallocLists
  import opened MallocBins
  import opened MallocHeap

  // ---------------------------------------------------------------- unlink

  ghost function Unlinked(h: Heap, i: int, k: int, lo': Mem, hi': Mem): Heap
    requires |h.bins| == NBINS && 0 <= i < NBINS && 0 <= k < |h.bins[i]| && h.bins[i][k] in h.ck
  {
    var x := h.bins[i][k];
    h.(lo := lo', hi := hi', ck := h.ck[x := h.ck[x].(st := Loose)], bins := h.bins[i := Removed(h.bins[i], k)])
  }

  lemma UnlinkChunk(h: Heap, i: int, k: int, h': Heap, p: int)
    requires Valid(h) && 1 <= i < NBINS && 0 <= k < |h.bins[i]|
    requires h.bins[i][k] in h.ck && h' == Unlinked(h, i, k, h'.lo, h'.hi)
    requires h.ck[h.bins[i][k]].st == Binned(i)
    requires p in h.ck && Rd(h'.hi, p) == Rd(h.hi, p) && Rd(h'.lo, Next(h, p)) == Rd(h.lo, Next(h, p))
    ensures Placed(h', p) && Tagged(h', p) && Listed(h', p)
  {
    assert Placed(h, p) && Tagged(h, p) && Listed(h, p);
    if h.ck[p].st == Binned(i) && p != h.bins[i][k] {
      var m :| 0 <= m < |h.bins[i]| && h.bins[i][m] == p;
      assert Removed(h.bins[i], k)[if m < k then m else m - 1] == p;
    }
  }

  lemma UnlinkBin(h: Heap, i: int, k: int, h': Heap)
    requires Valid(h) && 1 <= i < NBINS && 0 <= k < |h.bins[i]|
    requires h.bins[i][k] in h.ck && h' == Unlinked(h, i, k, h'.lo, h'.hi)
    requires Stored(h.lo, h'.lo, Bk(h.hi, h.bins[i][k]) + 8, Fd(h.lo, h.bins[i][k]))
    requires Stored(h.hi, h'.hi, Fd(h.lo, h.bins[i][k]) + 8, Bk(h.hi, h.bins[i][k]))
    ensures BinOk(h', i)
  {
    var L := h.bins[i];
    assert BinOk(h, i);
    BinHeaderOutside(h, i);
    RingUnlink(h.lo, h.hi, h'.lo, h'.hi, BinAt(i), L, k);
    var M := Removed(L, k);
    forall m | 0 <= m < |M|
      ensures M[m] == L[if m < k then m else m + 1] && M[m] in h.ck && M[m] != L[k]
    {
    }
  }

  lemma UnlinkValid(h: Heap, i: int, k: int, h': Heap)
    requires Valid(h) && 1 <= i < NBINS && 0 <= k < |h.bins[i]|
    requires h.bins[i][k] in h.ck && h' == Unlinked(h, i, k, h'.lo, h'.hi)
    requires Stored(h.lo, h'.lo, Bk(h.hi, h.bins[i][k]) + 8, Fd(h.lo, h.bins[i][k]))
    requires Stored(h.hi, h'.hi, Fd(h.lo, h.bins[i][k]) + 8, Bk(h.hi, h.bins[i][k]))
    ensures Valid(h') && Kept(h, h')
  {
    var x := h.bins[i][k];
    var fwd, bck := Fd(h.lo, x), Bk(h.hi, x);
    Neighbours(h, i, k);
    NodeCell(h, i, fwd);
    NodeCell(h, i, bck);
    LinkFrame(h, h', {fwd + 8, bck + 8});
    forall p | p in h'.ck ensures Placed(h', p) && Tagged(h', p) && Listed(h', p) {
      UnlinkChunk(h, i, k, h', p);
    }
    forall p, q | p in h'.ck && q in h'.ck && p < q ensures Apart(h', p, q) {
      assert Apart(h, p, q);
    }
    forall j | 1 <= j < NBINS ensures BinOk(h', j) {
      if j == i { UnlinkBin(h, i, k, h'); } else { UnlinkOther(h, h', i, k, j); }
    }
    forall j | 0 <= j < NFASTBINS ensures FastOk(h', j) {
      FastFrame(h, h', j);
    }
  }

  lemma UnlinkOther(h: Heap, h': Heap, i: int, k: int, j: int)
    requires Valid(h) && 1 <= i < NBINS && 1 <= j < NBINS && j != i && 0 <= k < |h.bins[i]|
    requires h.bins[i][k] in h.ck && h' == Unlinked(h, i, k, h'.lo, h'.hi)
    requires Stored(h.lo, h'.lo, Bk(h.hi, h.bins[i][k]) + 8, Fd(h.lo, h.bins[i][k]))
    requires Stored(h.hi, h'.hi, Fd(h.lo, h.bins[i][k]) + 8, Bk(h.hi, h.bins[i][k]))
    ensures BinOk(h', j)
  {
    Neighbours(h, i, k);
    BinHeaderOutside(h, i);
    BinHeaderOutside(h, j);
    BinFrame(h, h', j);
  }

  // ------------------------------------------- from free to in use and back

  /** The chunk map with a new `before` mark on the chunk at n, unless n is the top. */
  ghost function Marked(ck: map<int, Chunk>, n: int, before: int): map<int, Chunk> {
    if n in ck then ck[n := ck[n].(before := before)] else ck
  }

  /** The loose chunk x becomes a block: its head word is right and the next chunk's PREV_INUSE is set. */
  ghost function Taken(h: Heap, x: int, hi': Mem): Heap
    requires x in h.ck
  {
    h.(hi := hi', ck := Marked(h.ck[x := h.ck[x].(st := Live)], Next(h, x), -1))
  }

  lemma TakeChunk(h: Heap, x: int, h': Heap, p: int)
    requires Valid(h) && x in h.ck && h.ck[x].st.Loose? && Next(h, x) in h.ck
    requires h' == Taken(h, x, h'.hi)
    requires StoredOnly(h.hi, h'.hi, {x, Next(h, x)}) && Rd(h'.hi, x) == HeadWord(h.ck[x])
    requires !h.ck[Next(h, x)].st.Loose? ==> Rd(h'.hi, Next(h, x)) == h.ck[Next(h, x)].size + 1
    requires p in h.ck
    ensures Placed(h', p) && Tagged(h', p) && Listed(h', p)
  {
    assert Placed(h, p) && Tagged(h, p) && Listed(h, p);
    assert Placed(h, x) && Tagged(h, x) && Tagged(h, Next(h, x));
    if Next(h, p) == Next(h, x) {
      NextInjective(h, p, x);
    }
  }

  lemma TakeValid(h: Heap, x: int, h': Heap)
    requires Valid(h) && x in h.ck && h.ck[x].st.Loose? && Next(h, x) in h.ck
    requires h' == Taken(h, x, h'.hi)
    requires StoredOnly(h.hi, h'.hi, {x, Next(h, x)}) && Rd(h'.hi, x) == HeadWord(h.ck[x])
    requires !h.ck[Next(h, x)].st.Loose? ==> Rd(h'.hi, Next(h, x)) == h.ck[Next(h, x)].size + 1
    ensures Valid(h') && Kept(h, h')
  {
    var n := Next(h, x);
    assert Placed(h, x) && Placed(h, n);
    HeadClear(h, x, x);
    HeadClear(h, n, x);
    ListsFrame(h, h', {}, {x, n}, x);
    forall p | p in h'.ck ensures Placed(h', p) && Tagged(h', p) && Listed(h', p) {
      TakeChunk(h, x, h', p);
    }
    forall p, q | p in h'.ck && q in h'.ck && p < q ensures Apart(h', p, q) {
      assert Apart(h, p, q);
    }
  }

  /** The block p is given back: it becomes loose and the next chunk's PREV_INUSE is cleared. */
  ghost function Released(h: Heap, p: int, hi': Mem): Heap
    requires p in h.ck
  {
    h.(hi := hi', ck := Marked(h.ck[p := h.ck[p].(st := Loose)], Next(h, p), p))
  }

  lemma ReleaseChunk(h: Heap, x: int, h': Heap, p: int)
    requires Valid(h) && x in h.ck && h.ck[x].st.Live?
    requires h' == Released(h, x, h'.hi)
    requires StoredOnly(h.hi, h'.hi, {Next(h, x)} * h.ck.Keys)
    requires Next(h, x) in h.ck && !h.ck[Next(h, x)].st.Loose? ==> Rd(h'.hi, Next(h, x)) == h.ck[Next(h, x)].size
    requires p in h.ck
    ensures Placed(h', p) && Tagged(h', p) && Listed(h', p)
  {
    assert Placed(h, p) && Tagged(h, p) && Listed(h, p);
    assert Placed(h, x) && Tagged(h, x);
    if Next(h, p) == Next(h, x) {
      NextInjective(h, p, x);
    }
  }

  lemma ReleaseValid(h: Heap, x: int, h': Heap)
    requires Valid(h) && x in h.ck && h.ck[x].st.Live?
    requires h' == Released(h, x, h'.hi)
    requires StoredOnly(h.hi, h'.hi, {Next(h, x)} * h.ck.Keys)
    requires Next(h, x) in h.ck && !h.ck[Next(h, x)].st.Loose? ==> Rd(h'.hi, Next(h, x)) == h.ck[Next(h, x)].size
    ensures Valid(h') && Kept(h, h')
  {
    var n := Next(h, x);
    assert Placed(h, x);
    if n in h.ck { HeadClear(h, n, -1); }
    assert -1 in h.ck ==> Placed(h, -1);
    ListsFrame(h, h', {}, {n} * h.ck.Keys, -1);
    forall p | p in h'.ck ensures Placed(h', p) && Tagged(h', p) && Listed(h', p) {
      ReleaseChunk(h, x, h', p);
    }
    forall p, q | p in h'.ck && q in h'.ck && p < q ensures Apart(h', p, q) {
      assert Apart(h, p, q);
    }
  }

  // ----------------------------------------------------- cutting and merging

  /** The chunk x, loose or live, cut in two chunks of the same use: x of size nb and the rest. */
  ghost function Cut(h: Heap, x: int, nb: nat, hi': Mem): Heap
    requires x in h.ck && nb <= h.ck[x].size
  {
    var c := h.ck[x];
    var r := x + nb;
    h.(hi := hi', ck := Marked(h.ck[x := c.(size := nb)][r := Chunk(c.size - nb, c.st, if Free(c) then x else -1)],
                               Next(h, x), if Free(c) then r else -1))
  }

  ghost predicate CutsAt(h: Heap, x: int, nb: nat) {
    && x in h.ck && (h.ck[x].st.Loose? || h.ck[x].st.Live?)
    && MINSIZE <= nb && nb % 8 == 0 && MINSIZE <= h.ck[x].size - nb
  }

  ghost predicate CutStored(h: Heap, x: int, nb: nat, h': Heap)
    requires x in h.ck && nb <= h.ck[x].size
  {
    && h' == Cut(h, x, nb, h'.hi)
    && StoredOnly(h.hi, h'.hi, {x, x + nb})
    && (h.ck[x].st.Live? ==> Rd(h'.hi, x) == HeadWord(h'.ck[x]) && Rd(h'.hi, x + nb) == HeadWord(h'.ck[x + nb]))
  }

  lemma CutParts(h: Heap, x: int, nb: nat, h': Heap)
    requires Valid(h) && CutsAt(h, x, nb) && CutStored(h, x, nb, h')
    ensures x + nb !in h.ck && x + nb < h.top && x + nb in h'.ck
    ensures Placed(h', x) && Tagged(h', x) && Listed(h', x)
    ensures Placed(h', x + nb) && Tagged(h', x + nb) && Listed(h', x + nb)
  {
    assert Placed(h, x);
    assert x + nb in h.ck ==> Apart(h, x, x + nb);
    CutFirst(h, x, nb, h');
    CutSecond(h, x, nb, h');
  }

  lemma CutFirst(h: Heap, x: int, nb: nat, h': Heap)
    requires Valid(h) && CutsAt(h, x, nb) && CutStored(h, x, nb, h') && x + nb !in h.ck
    ensures Placed(h', x) && Tagged(h', x) && Listed(h', x)
  {
    assert Placed(h, x) && Tagged(h, x) && Listed(h, x);
    if h.ck[x].before != -1 {
      assert Placed(h, h.ck[x].before);
    }
  }

  lemma CutSecond(h: Heap, x: int, nb: nat, h': Heap)
    requires Valid(h) && CutsAt(h, x, nb) && CutStored(h, x, nb, h') && x + nb !in h.ck
    ensures x + nb in h'.ck && Placed(h', x + nb) && Tagged(h', x + nb) && Listed(h', x + nb)
  {
    assert Placed(h, x) && Tagged(h, x) && Listed(h, x);
  }

  lemma CutOther(h: Heap, x: int, nb: nat, h': Heap, p: int)
    requires Valid(h) && CutsAt(h, x, nb) && CutStored(h, x, nb, h')
    requires p in h.ck && p != x
    requires x + nb !in h.ck && x + nb < h.top
    ensures Placed(h', p) && Tagged(h', p) && Listed(h', p)
  {
    assert Placed(h, p) && Tagged(h, p) && Listed(h, p);
    if Next(h, p) == Next(h, x) {
      NextInjective(h, p, x);
    }
    assert Placed(h, x) && Tagged(h, x);
    assert h.ck[p].before == x <==> p == Next(h, x) && Free(h.ck[x]);
    assert h'.ck[p].before == if h.ck[p].before == x then x + nb else h.ck[p].before;
  }

  lemma CutValid(h: Heap, x: int, nb: nat, h': Heap)
    requires Valid(h) && CutsAt(h, x, nb) && CutStored(h, x, nb, h')
    ensures Valid(h') && KeptBut(h, h', x)
    ensures h.ck[x].st.Live? ==> SamePayload(h.lo, h.hi, h'.lo, h'.hi, x, nb)
    ensures h.ck[x].st.Loose? ==> Kept(h, h')
  {
    var r := x + nb;
    CutParts(h, x, nb, h');
    HeadClear(h, x, x);
    HeadClear(h, r, x);
    ListsFrame(h, h', {}, {x, r}, x);
    assert Placed(h, x);
    forall p | p in h'.ck ensures Placed(h', p) && Tagged(h', p) && Listed(h', p) {
      if p != x && p != r { CutOther(h, x, nb, h', p); }
    }
    forall p, q | p in h'.ck && q in h'.ck && p < q ensures Apart(h', p, q) {
      CutApart(h, x, nb, h', p, q);
    }
  }

  lemma CutApart(h: Heap, x: int, nb: nat, h': Heap, p: int, q: int)
    requires Valid(h) && CutsAt(h, x, nb) && CutStored(h, x, nb, h')
    requires x + nb !in h.ck && p in h'.ck && q in h'.ck && p < q
    ensures Apart(h', p, q)
  {
    var p0 := if p == x + nb then x else p;
    var q0 := if q == x + nb then x else q;
    assert p0 < q0 ==> Apart(h, p0, q0);
    assert q0 < p0 ==> Apart(h, q0, p0);
    assert Placed(h, p0) && Placed(h, q0);
  }

  /** The chunk p merged with its successor of the same use. */
  ghost function Joined(h: Heap, p: int, hi': Mem): Heap
    requires p in h.ck && Next(h, p) in h.ck
  {
    var c := h.ck[p];
    var n := Next(h, p);
    h.(hi := hi', ck := Marked((h.ck - {n})[p := c.(size := c.size + h.ck[n].size)], Next(h, n), if Free(c) then p else -1))
  }

  ghost predicate JoinStored(h: Heap, p: int, h': Heap) {
    && p in h.ck && Next(h, p) in h.ck
    && h.ck[Next(h, p)].st == h.ck[p].st && (h.ck[p].st.Loose? || h.ck[p].st.Live?)
    && h' == Joined(h, p, h'.hi)
    && StoredOnly(h.hi, h'.hi, {p})
    && (h.ck[p].st.Live? ==> Rd(h'.hi, p) == HeadWord(h'.ck[p]))
  }

  lemma JoinChunk(h: Heap, x: int, h': Heap)
    requires Valid(h) && JoinStored(h, x, h')
    ensures x in h'.ck && Placed(h', x) && Tagged(h', x) && Listed(h', x)
  {
    var n := Next(h, x);
    assert Placed(h, x) && Tagged(h, x);
    assert Placed(h, n) && Tagged(h, n);
    if h.ck[x].before != -1 {
      assert Placed(h, h.ck[x].before);
    }
  }

  lemma JoinOther(h: Heap, x: int, h': Heap, p: int)
    requires Valid(h) && JoinStored(h, x, h')
    requires p in h'.ck && p != x
    ensures Placed(h', p) && Tagged(h', p) && Listed(h', p)
  {
    var n := Next(h, x);
    assert Placed(h, p) && Listed(h, p);
    assert Placed(h, x) && Placed(h, n);
    if Next(h, p) == Next(h, x) { NextInjective(h, p, x); }
    JoinTagged(h, x, h', p);
  }

  lemma JoinTagged(h: Heap, x: int, h': Heap, p: int)
    requires Valid(h) && JoinStored(h, x, h')
    requires p in h'.ck && p != x && Next(h, p) != Next(h, x)
    ensures Tagged(h', p)
  {
    var n := Next(h, x);
    assert Tagged(h, p) && Tagged(h, x) && Tagged(h, n);
    assert Placed(h, p) && Placed(h, x) && Placed(h, n);
    if Next(h, p) == Next(h, n) { NextInjective(h, p, n); }
    assert h.ck[p].before == n <==> p == Next(h, n) && Free(h.ck[x]);
    assert h'.ck[p].before == if h.ck[p].before == n then x else h.ck[p].before;
  }

  lemma JoinValid(h: Heap, x: int, h': Heap)
    requires Valid(h) && JoinStored(h, x, h')
    ensures Valid(h') && Kept(h, h')
  {
    var n := Next(h, x);
    assert Placed(h, x) && Placed(h, n);
    HeadClear(h, x, x);
    assert Clear(h, x, -1);
    assert -1 in h.ck ==> Placed(h, -1);
    ListsFrame(h, h', {}, {x}, -1);
    forall p | p in h'.ck ensures Placed(h', p) && Tagged(h', p) && Listed(h', p) {
      if p == x { JoinChunk(h, x, h'); } else { JoinOther(h, x, h', p); }
    }
    forall p, q | p in h'.ck && q in h'.ck && p < q ensures Apart(h', p, q) {
      JoinApart(h, x, h', p, q);
    }
  }

  lemma JoinApart(h: Heap, x: int, h': Heap, p: int, q: int)
    requires Valid(h) && JoinStored(h, x, h')
    requires p in h'.ck && q in h'.ck && p < q
    ensures Apart(h', p, q)
  {
    assert Placed(h, x);
    assert Apart(h, p, q);
    assert Next(h, x) < q ==> Apart(h, Next(h, x), q);
  }

  // ------------------------------------------------------------- the top chunk

  /** The loose chunk p, which borders top, becomes part of it. */
  ghost function Absorbed(h: Heap, p: int, hi': Mem): Heap {
    h.(hi := hi', ck := h.ck - {p}, top := p)
  }

  lemma AbsorbValid(h: Heap, x: int, h': Heap)
    requires Valid(h) && x in h.ck && h.ck[x].st.Loose? && Next(h, x) == h.top && h.ck[x].before == -1
    requires h' == Absorbed(h, x, h'.hi)
    requires StoredOnly(h.hi, h'.hi, {x}) && Rd(h'.hi, x) == h.brk - x + 1
    ensures Valid(h') && Kept(h, h')
  {
    assert Placed(h, x) && Tagged(h, x);
    HeadClear(h, x, x);
    ListsFrame(h, h', {}, {x}, x);
    forall p | p in h'.ck ensures Placed(h', p) && Tagged(h', p) && Listed(h', p) {
      assert Placed(h, p) && Tagged(h, p) && Listed(h, p);
      Ordered(h, x, p);
      Ordered(h, p, x);
    }
    forall p, q | p in h'.ck && q in h'.ck && p < q ensures Apart(h', p, q) {
      assert Apart(h, p, q);
    }
  }

  /** The first nb bytes of top become a block. */
  ghost function TopCut(h: Heap, nb: nat, hi': Mem): Heap {
    h.(hi := hi', ck := h.ck[h.top := Chunk(nb, Live, -1)], top := h.top + nb)
  }

  lemma TopCutChunk(h: Heap, nb: nat, h': Heap, p: int)
    requires Valid(h) && MINSIZE <= nb && nb % 8 == 0 && h.top + nb + MINSIZE <= h.brk
    requires h' == TopCut(h, nb, h'.hi)
    requires StoredOnly(h.hi, h'.hi, {h.top, h.top + nb})
    requires Rd(h'.hi, h.top) == nb + 1 && Rd(h'.hi, h.top + nb) == h.brk - h.top - nb + 1
    requires p in h'.ck
    requires forall q | q in h.ck :: h.ck[q].st.Loose? ==> Next(h, q) != h.top
    ensures Placed(h', p) && Tagged(h', p) && Listed(h', p)
  {
    assert h.top in h.ck ==> Placed(h, h.top);
    assert h.top + nb in h.ck ==> Placed(h, h.top + nb);
    if p != h.top {
      assert h.ck[p].st.Loose? ==> Next(h, p) != h.top;
      assert Placed(h, p) && Tagged(h, p) && Listed(h, p);
      assert h.ck[p].before != -1 ==> Placed(h, h.ck[p].before);
    }
  }

  lemma TopCutFrame(h: Heap, nb: nat, h': Heap)
    requires Valid(h) && MINSIZE <= nb
    requires h' == TopCut(h, nb, h'.hi) && StoredOnly(h.hi, h'.hi, {h.top, h.top + nb})
    ensures Kept(h, h')
    ensures forall i {:trigger BinOk(h', i)} :: 1 <= i < NBINS ==> BinOk(h', i)
    ensures forall j {:trigger FastOk(h', j)} :: 0 <= j < NFASTBINS ==> FastOk(h', j)
  {
    HeadClear(h, h.top, -1);
    HeadClear(h, h.top + nb, -1);
    assert -1 in h.ck ==> Placed(h, -1);
    assert h.top in h.ck ==> Placed(h, h.top);
    ListsFrame(h, h', {}, {h.top, h.top + nb}, -1);
  }

  lemma TopCutValid(h: Heap, nb: nat, h': Heap)
    requires Valid(h) && MINSIZE <= nb && nb % 8 == 0 && h.top + nb + MINSIZE <= h.brk
    requires h' == TopCut(h, nb, h'.hi)
    requires StoredOnly(h.hi, h'.hi, {h.top, h.top + nb})
    requires Rd(h'.hi, h.top) == nb + 1 && Rd(h'.hi, h.top + nb) == h.brk - h.top - nb + 1
    requires forall q | q in h.ck :: h.ck[q].st.Loose? ==> Next(h, q) != h.top
    ensures Valid(h') && Kept(h, h')
  {
    TopCutFrame(h, nb, h');
    forall p | p in h'.ck ensures Placed(h', p) && Tagged(h', p) && Listed(h', p) {
      TopCutChunk(h, nb, h', p);
    }
    forall p, q | p in h'.ck && q in h'.ck && p < q ensures Apart(h', p, q) {
      assert p in h.ck ==> Placed(h, p);
      assert q in h.ck ==> Placed(h, q);
      assert p in h.ck && q in h.ck ==> Apart(h, p, q);
    }
  }

  /** The break moved up to brk', all new space going to top. */
  ghost function TopGrown(h: Heap, brk': int, hi': Mem): Heap {
    h.(hi := hi', brk := brk')
  }

  lemma TopGrownValid(h: Heap, brk': int, h': Heap)
    requires Valid(h) && h.brk <= brk' && brk' % 8 == 0
    requires h' == TopGrown(h, brk', h'.hi)
    requires StoredOnly(h.hi, h'.hi, {h.top}) && Rd(h'.hi, h.top) == brk' - h.top + 1
    ensures Valid(h') && Kept(h, h')
  {
    HeadClear(h, h.top, -1);
    assert -1 in h.ck ==> Placed(h, -1);
    assert h.top in h.ck ==> Placed(h, h.top);
    ListsFrame(h, h', {}, {h.top}, -1);
    forall p | p in h'.ck ensures Placed(h', p) && Tagged(h', p) && Listed(h', p) {
      assert Placed(h, p) && Tagged(h, p) && Listed(h, p);
    }
    forall p, q | p in h'.ck && q in h'.ck && p < q ensures Apart(h', p, q) {
      assert Apart(h, p, q);
    }
  }

  /** realloc: the block p, which borders top, takes part of it to reach size nb. */
  ghost function GrownIntoTop(h: Heap, p: int, nb: nat, hi': Mem): Heap
    requires p in h.ck
  {
    h.(hi := hi', ck := h.ck[p := h.ck[p].(size := nb)], top := p + nb)
  }

  ghost predicate GrowsIntoTop(h: Heap, x: int, nb: nat, h': Heap) {
    && x in h.ck && h.ck[x].st.Live? && Next(h, x) == h.top
    && h.ck[x].size <= nb && nb % 8 == 0 && x + nb + MINSIZE <= h.brk
    && h' == GrownIntoTop(h, x, nb, h'.hi)
    && StoredOnly(h.hi, h'.hi, {x, x + nb})
    && Rd(h'.hi, x) == HeadWord(h'.ck[x]) && Rd(h'.hi, x + nb) == h.brk - (x + nb) + 1
  }

  lemma GrownChunk(h: Heap, x: int, nb: nat, h': Heap, p: int)
    requires Valid(h) && GrowsIntoTop(h, x, nb, h') && p in h.ck
    ensures Placed(h', p) && Tagged(h', p) && Listed(h', p)
  {
    assert Placed(h, x) && Tagged(h, x);
    assert Placed(h, p) && Tagged(h, p) && Listed(h, p);
    assert x + nb in h.ck ==> Placed(h, x + nb);
    if p != x && Next(h, p) == h.top { NextInjective(h, p, x); }
  }

  lemma GrownFrame(h: Heap, x: int, nb: nat, h': Heap)
    requires Valid(h) && GrowsIntoTop(h, x, nb, h')
    ensures Kept(h, h')
    ensures forall i {:trigger BinOk(h', i)} :: 1 <= i < NBINS ==> BinOk(h', i)
    ensures forall j {:trigger FastOk(h', j)} :: 0 <= j < NFASTBINS ==> FastOk(h', j)
  {
    assert Placed(h, x);
    HeadClear(h, x, -1);
    HeadClear(h, x + nb, -1);
    assert -1 in h.ck ==> Placed(h, -1);
    ListsFrame(h, h', {}, {x, x + nb}, -1);
  }

  lemma GrownIntoTopValid(h: Heap, x: int, nb: nat, h': Heap)
    requires Valid(h) && GrowsIntoTop(h, x, nb, h')
    ensures Valid(h') && Kept(h, h')
  {
    GrownFrame(h, x, nb, h');
    assert Placed(h, x);
    forall p | p in h'.ck ensures Placed(h', p) && Tagged(h', p) && Listed(h', p) {
      GrownChunk(h, x, nb, h', p);
    }
    forall p, q | p in h'.ck && q in h'.ck && p < q ensures Apart(h', p, q) {
      assert Apart(h, p, q);
      assert Placed(h, q);
    }
  }

  // ---------------------------------------------------------------- fastbins

  ghost function FastIndex(size: int): int {
    size / 8 - 2
  }

  /** The block p, put at the head of its fastbin. */
  ghost function FastPushed(h: Heap, p: int, lo': Mem): Heap
    requires p in h.ck && |h.fb| == |h.fasts| == NFASTBINS && 0 <= FastIndex(h.ck[p].size) < NFASTBINS
  {
    var j := FastIndex(h.ck[p].size);
    h.(lo := lo', fb := h.fb[j := p], fasts := h.fasts[j := [p] + h.fasts[j]], ck := h.ck[p := h.ck[p].(st := Fast)])
  }

  ghost predicate PushesFast(h: Heap, x: int, h': Heap)
    requires |h.fb| == |h.fasts| == NFASTBINS
  {
    && x in h.ck && h.ck[x].st.Live? && MINSIZE <= h.ck[x].size <= 72 && h.ck[x].size % 8 == 0
    && h' == FastPushed(h, x, h'.lo)
    && Stored(h.lo, h'.lo, x + 8, h.fb[FastIndex(h.ck[x].size)])
  }

  lemma FastPushList(h: Heap, x: int, h': Heap)
    requires Valid(h) && PushesFast(h, x, h')
    ensures FastOk(h', FastIndex(h.ck[x].size))
  {
    var j := FastIndex(h.ck[x].size);
    assert FastOk(h, j);
    assert Placed(h, x);
    var F, F' := h.fasts[j], h'.fasts[j];
    forall k | 0 <= k < |F'|
      ensures F'[k] in h'.ck && h'.ck[F'[k]].st == Fast && h'.ck[F'[k]].size == 8 * (j + 2)
      ensures Fd(h'.lo, F'[k]) == After(0, F', k)
      ensures k > 0 ==> F'[k] != x
    {
      if k > 0 {
        assert F'[k] == F[k - 1] && F[k - 1] in h.ck;
        assert Fd(h.lo, F[k - 1]) == After(0, F, k - 1);
      }
    }
  }

  lemma FastPushFrame(h: Heap, x: int, h': Heap)
    requires Valid(h) && PushesFast(h, x, h')
    ensures KeptBut(h, h', x)
    ensures forall p | p in h.ck && p != x :: Fd(h'.lo, p) == Fd(h.lo, p)
    ensures forall i | 1 <= i < NBINS :: Fd(h'.lo, BinAt(i)) == Fd(h.lo, BinAt(i))
    ensures forall p {:trigger p in h.ck} :: p in h.ck && Free(h.ck[p]) ==> Rd(h'.lo, Next(h, p)) == Rd(h.lo, Next(h, p))
  {
    assert Placed(h, x);
    HeadClear(h, x + 8, x);
    forall p | p in h.ck && p != x ensures Placed(h, p) && x + 8 != Next(h, p) {
      assert Placed(h, p);
      assert x < p ==> Apart(h, x, p);
      assert p < x ==> Apart(h, p, x);
    }
  }

  lemma FastPushChunk(h: Heap, x: int, h': Heap, p: int)
    requires Valid(h) && PushesFast(h, x, h') && p in h'.ck
    ensures Placed(h', p) && Tagged(h', p) && Listed(h', p)
  {
    FastPushFrame(h, x, h');
    assert Placed(h, p) && Tagged(h, p) && Listed(h, p);
  }

  lemma FastPushValid(h: Heap, x: int, h': Heap)
    requires Valid(h) && PushesFast(h, x, h')
    ensures Valid(h') && KeptBut(h, h', x)
  {
    FastPushFrame(h, x, h');
    assert Placed(h, x);
    forall p | p in h'.ck ensures Placed(h', p) && Tagged(h', p) && Listed(h', p) {
      FastPushChunk(h, x, h', p);
    }
    forall p, q | p in h'.ck && q in h'.ck && p < q ensures Apart(h', p, q) {
      assert Apart(h, p, q);
    }
    forall i | 1 <= i < NBINS ensures BinOk(h', i) {
      BinFrame(h, h', i);
    }
    forall j | 0 <= j < NFASTBINS ensures FastOk(h', j) {
      if j == FastIndex(h.ck[x].size) { FastPushList(h, x, h'); } else { FastFrame(h, h', j); }
    }
  }

  /** The first chunk of fastbin j, taken off it: a block again. */
  ghost function FastPopped(h: Heap, j: int): Heap
    requires |h.fb| == |h.fasts| == NFASTBINS && 0 <= j < NFASTBINS && h.fasts[j] != [] && h.fasts[j][0] in h.ck
  {
    var x := h.fasts[j][0];
    h.(fb := h.fb[j := Fd(h.lo, x)], fasts := h.fasts[j := h.fasts[j][1..]], ck := h.ck[x := h.ck[x].(st := Live)])
  }

  lemma FastPopChunk(h: Heap, j: int, p: int)
    requires Valid(h) && 0 <= j < NFASTBINS && h.fasts[j] != [] && p in h.ck
    requires h.fasts[j][0] in h.ck && h.ck[h.fasts[j][0]].st.Fast? && h.ck[h.fasts[j][0]].size == 8 * (j + 2)
    ensures var h' := FastPopped(h, j); Placed(h', p) && Tagged(h', p) && Listed(h', p)
  {
    assert Placed(h, p) && Tagged(h, p) && Listed(h, p);
    var F := h.fasts[j];
    assert F == [F[0]] + F[1..];
  }

  lemma FastPopValid(h: Heap, j: int)
    requires Valid(h) && 0 <= j < NFASTBINS && h.fasts[j] != []
    ensures var x := h.fasts[j][0];
            && x != 0 && h.fb[j] == x && x in h.ck && h.ck[x].st.Fast? && h.ck[x].size == 8 * (j + 2)
            && Valid(FastPopped(h, j))
  {
    assert FastOk(h, j);
    var F := h.fasts[j];
    var x := F[0];
    assert Placed(h, x);
    var h' := FastPopped(h, j);
    assert Fd(h.lo, F[0]) == After(0, F, 0);
    forall p | p in h'.ck ensures Placed(h', p) && Tagged(h', p) && Listed(h', p) {
      FastPopChunk(h, j, p);
    }
    forall p, q | p in h'.ck && q in h'.ck && p < q ensures Apart(h', p, q) {
      assert Apart(h, p, q);
    }
    forall i | 1 <= i < NBINS ensures BinOk(h', i) {
      BinFrame(h, h', i);
    }
    forall i | 0 <= i < NFASTBINS ensures FastOk(h', i) {
      if i == j { PopFast(h, j); } else { FastFrame(h, h', i); }
    }
  }

  /** The fastbin without its first chunk. */
  lemma PopFast(h: Heap, j: int)
    requires Valid(h) && 0 <= j < NFASTBINS && h.fasts[j] != [] && h.fasts[j][0] in h.ck
    ensures FastOk(FastPopped(h, j), j)
  {
    assert FastOk(h, j);
    var F := h.fasts[j];
    assert Fd(h.lo, F[0]) == After(0, F, 0);
    forall k | 0 <= k < |F| - 1 ensures Fd(h.lo, F[1..][k]) == After(0, F[1..], k) && F[1..][k] != F[0] {
      assert F[1..][k] == F[k + 1];
      assert Fd(h.lo, F[k + 1]) == After(0, F, k + 1);
    }
  }

  // ------------------------------------------------------------ into the bins

  /** The loose chunk x, linked into bin i before position k, with its two tags stored. */
  ghost function Linked(h: Heap, x: int, i: int, k: int, lo': Mem, hi': Mem): Heap
    requires x in h.ck && |h.bins| == NBINS && 0 <= i < NBINS && 0 <= k <= |h.bins[i]|
  {
    h.(lo := lo', hi := hi', ck := h.ck[x := h.ck[x].(st := Binned(i))], bins := h.bins[i := Inserted(h.bins[i], k, x)])
  }

  ghost predicate Links(h: Heap, x: int, i: int, k: int, h': Heap) {
    && x in h.ck && h.ck[x].st.Loose? && h.ck[x].before == -1
    && Next(h, x) in h.ck && !h.ck[Next(h, x)].st.Binned?
    && |h.bins| == NBINS && 1 <= i < NBINS && 0 <= k <= |h.bins[i]|
    && h' == Linked(h, x, i, k, h'.lo, h'.hi)
    && Fd(h'.lo, x) == After(BinAt(i), h.bins[i], k - 1) && Fd(h'.lo, Before(BinAt(i), h.bins[i], k)) == x
    && Bk(h'.hi, x) == Before(BinAt(i), h.bins[i], k) && Bk(h'.hi, After(BinAt(i), h.bins[i], k - 1)) == x
    && Rd(h'.hi, x) == HeadWord(h.ck[x]) && Rd(h'.lo, Next(h, x)) == h.ck[x].size
    && StoredOnly(h.lo, h'.lo, {x + 8, Before(BinAt(i), h.bins[i], k) + 8, Next(h, x)})
    && StoredOnly(h.hi, h'.hi, {x + 8, After(BinAt(i), h.bins[i], k - 1) + 8, x})
  }

  /** Chunk x may stand at position k of bin i. */
  ghost predicate FitsBin(h: Heap, x: int, i: int, k: int)
    requires x in h.ck && |h.bins| == NBINS && 0 <= i < NBINS && 0 <= k <= |h.bins[i]|
  {
    i >= 2 ==>
      && i == IndexOf(h.ck[x].size)
      && (forall m :: 0 <= m < k && h.bins[i][m] in h.ck ==> h.ck[h.bins[i][m]].size >= h.ck[x].size)
      && (forall m :: k <= m < |h.bins[i]| && h.bins[i][m] in h.ck ==> h.ck[x].size >= h.ck[h.bins[i][m]].size)
  }

  lemma LinkNodes(h: Heap, i: int, k: int)
    requires Valid(h) && 1 <= i < NBINS && 0 <= k <= |h.bins[i]|
    ensures NodeOf(h, i, After(BinAt(i), h.bins[i], k - 1)) && NodeOf(h, i, Before(BinAt(i), h.bins[i], k))
  {
    assert BinOk(h, i);
    if k < |h.bins[i]| { assert h.bins[i][k] in h.ck; }
    if k > 0 { assert h.bins[i][k - 1] in h.ck; }
  }

  lemma LinkKeeps(h: Heap, x: int, i: int, k: int, h': Heap, p: int)
    requires Valid(h) && Links(h, x, i, k, h')
    requires p in h.ck && p != x
    ensures Rd(h'.hi, p) == Rd(h.hi, p)
    ensures h.ck[p].st.Binned? ==> Rd(h'.lo, Next(h, p)) == Rd(h.lo, Next(h, p))
    ensures h.ck[p].st.Fast? ==> Fd(h'.lo, p) == Fd(h.lo, p)
    ensures h.ck[p].st.Binned? && h.ck[p].st.bin != i ==> Fd(h'.lo, p) == Fd(h.lo, p) && Bk(h'.hi, p) == Bk(h.hi, p)
    ensures h.ck[p].st.Live? ==> SamePayload(h.lo, h.hi, h'.lo, h'.hi, p, h.ck[p].size)
  {
    LinkNodes(h, i, k);
    LinkClear(h, x, i, k, p);
    assert Placed(h, p) && Placed(h, x);
    if h.ck[p].st.Live? { LinkPayload(h, x, i, k, h', p); }
    if Next(h, p) == Next(h, x) { NextInjective(h, p, x); }
  }

  /** The cell w is no tag of p, nor payload if p is in use. */
  ghost predicate Elsewhere(h: Heap, w: int, p: int)
    requires p in h.ck
  {
    w != p && w != Next(h, p) && (!Free(h.ck[p]) ==> !(p < w <= Next(h, p)))
  }

  /** The cells stored to by linking are no tags or payload of p. */
  lemma LinkClear(h: Heap, x: int, i: int, k: int, p: int)
    requires Valid(h) && x in h.ck && Free(h.ck[x]) && 1 <= i < NBINS && 0 <= k <= |h.bins[i]| && p in h.ck && p != x
    ensures Elsewhere(h, x + 8, p) && Elsewhere(h, Before(BinAt(i), h.bins[i], k) + 8, p)
    ensures Elsewhere(h, After(BinAt(i), h.bins[i], k - 1) + 8, p)
    ensures Clear(h, x, x) && FootClear(h, Next(h, x), x)
  {
    LinkNodes(h, i, k);
    LinkCellClear(h, After(BinAt(i), h.bins[i], k - 1) + 8, p);
    LinkCellClear(h, Before(BinAt(i), h.bins[i], k) + 8, p);
    LinkCellClear(h, x + 8, p);
    FootIsClear(h, x);
    HeadClear(h, x, x);
  }

  lemma LinkPayload(h: Heap, x: int, i: int, k: int, h': Heap, p: int)
    requires Valid(h) && Links(h, x, i, k, h')
    requires p in h.ck && p != x && h.ck[p].st.Live?
    ensures SamePayload(h.lo, h.hi, h'.lo, h'.hi, p, h.ck[p].size)
  {
    LinkClear(h, x, i, k, p);
  }

  lemma LinkTop(h: Heap, x: int, i: int, k: int, h': Heap)
    requires Valid(h) && Links(h, x, i, k, h')
    ensures Rd(h'.hi, h.top) == Rd(h.hi, h.top)
    ensures forall j | 1 <= j < NBINS && j != i :: Fd(h'.lo, BinAt(j)) == Fd(h.lo, BinAt(j)) && Bk(h'.hi, BinAt(j)) == Bk(h.hi, BinAt(j))
  {
    var fwd, bck := After(BinAt(i), h.bins[i], k - 1), Before(BinAt(i), h.bins[i], k);
    LinkNodes(h, i, k);
    LinkCellClear(h, fwd + 8, x);
    LinkCellClear(h, bck + 8, x);
    LinkCellClear(h, x + 8, x);
    assert Placed(h, x);
    assert fwd in h.ck ==> Placed(h, fwd);
    assert bck in h.ck ==> Placed(h, bck);
  }

  lemma LinkBin(h: Heap, x: int, i: int, k: int, h': Heap)
    requires Valid(h) && Links(h, x, i, k, h') && FitsBin(h, x, i, k)
    ensures BinOk(h', i)
  {
    LinkRing(h, x, i, k, h');
    var M := Inserted(h.bins[i], k, x);
    forall m | 0 <= m < |M| ensures M[m] in h'.ck && h'.ck[M[m]].st == Binned(i) {
      LinkMember(h, x, i, k, h', m);
    }
    forall m, n | 0 <= m < n < |M| ensures M[m] != M[n] && (i >= 2 ==> h'.ck[M[m]].size >= h'.ck[M[n]].size) {
      LinkMember(h, x, i, k, h', m);
      LinkMember(h, x, i, k, h', n);
      assert BinOk(h, i);
    }
  }

  lemma LinkMember(h: Heap, x: int, i: int, k: int, h': Heap, m: int)
    requires Valid(h) && Links(h, x, i, k, h') && 0 <= m <= |h.bins[i]|
    ensures var L := h.bins[i];
            var y := Inserted(L, k, x)[m];
            && y in h'.ck && h'.ck[y].st == Binned(i) && y in h.ck && h'.ck[y].size == h.ck[y].size
            && if m == k then y == x else y == L[if m < k then m else m - 1] && y != x
  {
    var L := h.bins[i];
    assert BinOk(h, i);
    if m != k { assert L[if m < k then m else m - 1] in h.ck; }
  }

  lemma LinkRing(h: Heap, x: int, i: int, k: int, h': Heap)
    requires Valid(h) && Links(h, x, i, k, h')
    ensures Ring(h'.lo, h'.hi, BinAt(i), Inserted(h.bins[i], k, x))
  {
    var L := h.bins[i];
    var fwd, bck := After(BinAt(i), L, k - 1), Before(BinAt(i), L, k);
    assert BinOk(h, i);
    BinHeaderOutside(h, i);
    LinkNodes(h, i, k);
    forall y | y == BinAt(i) || y in L
      ensures y != x && Next(h, x) != y + 8 && x != y + 8
    {
      if y in L {
        var m :| 0 <= m < |L| && L[m] == y;
        assert L[m] in h.ck;
      }
      NodeCell(h, i, y);
      LinkCellClear(h, y + 8, x);
    }
    RingLink(h.lo, h.hi, h'.lo, h'.hi, BinAt(i), L, k, x);
  }

  lemma LinkValid(h: Heap, x: int, i: int, k: int, h': Heap)
    requires Valid(h) && Links(h, x, i, k, h') && FitsBin(h, x, i, k)
    ensures Valid(h') && Kept(h, h')
  {
    forall p | p in h.ck && p != x
      ensures Rd(h'.hi, p) == Rd(h.hi, p)
      ensures h.ck[p].st.Binned? ==> Rd(h'.lo, Next(h, p)) == Rd(h.lo, Next(h, p))
      ensures h.ck[p].st.Fast? ==> Fd(h'.lo, p) == Fd(h.lo, p)
      ensures h.ck[p].st.Binned? && h.ck[p].st.bin != i ==> Fd(h'.lo, p) == Fd(h.lo, p) && Bk(h'.hi, p) == Bk(h.hi, p)
      ensures h.ck[p].st.Live? ==> SamePayload(h.lo, h.hi, h'.lo, h'.hi, p, h.ck[p].size)
    {
      LinkKeeps(h, x, i, k, h', p);
    }
    LinkTop(h, x, i, k, h');
    forall p | p in h'.ck ensures Placed(h', p) && Tagged(h', p) && Listed(h', p) {
      LinkChunk(h, x, i, k, h', p);
    }
    forall p, q | p in h'.ck && q in h'.ck && p < q ensures Apart(h', p, q) {
      assert Apart(h, p, q);
    }
    forall j | 1 <= j < NBINS ensures BinOk(h', j) {
      if j == i { LinkBin(h, x, i, k, h'); } else { BinFrame(h, h', j); }
    }
    forall j | 0 <= j < NFASTBINS ensures FastOk(h', j) {
      FastFrame(h, h', j);
    }
  }

  lemma LinkChunk(h: Heap, x: int, i: int, k: int, h': Heap, p: int)
    requires Valid(h) && Links(h, x, i, k, h') && FitsBin(h, x, i, k) && p in h.ck
    requires p != x ==> Rd(h'.hi, p) == Rd(h.hi, p)
    requires p != x && h.ck[p].st.Binned? ==> Rd(h'.lo, Next(h, p)) == Rd(h.lo, Next(h, p))
    ensures Placed(h', p) && Tagged(h', p) && Listed(h', p)
  {
    assert Placed(h, p) && Tagged(h, p) && Listed(h, p);
    assert Placed(h, x) && Tagged(h, x);
    var L := h.bins[i];
    var M := Inserted(L, k, x);
    if p == x {
      assert M[k] == x;
    } else if p in L {
      var m :| 0 <= m < |L| && L[m] == p;
      assert M[if m < k then m else m + 1] == p;
    }
    if p != x && Next(h, p) == x {
      assert h.ck[x].before == -1;
    }
  }
}
