/** What the invariant means for the heap as a whole: the chunks tile it, the tags tell
    which are free, and the sizes add up. */
module MallocTiling {
  import opened MallocLists
  import opened MallocBins
  import opened MallocHeap
  import opened MallocMoves
  import opened MallocResize
  import opened Sets

  // --------------------------------------------------------------- walk

  /** The chunks from p up to top, found by adding the sizes in memory. */
  ghost function Walk(h: Heap, p: int): seq<int>
    requires Good(h, {}) && (p in h.ck || p == h.top)
    decreases h.top - p
  {
    if p == h.top then [] else
      ReadHead(h, p);
      PlaceOf(h, p);
      [p] + Walk(h, p + ChunkSize(Rd(h.hi, p)))
  }

  /** The walk meets every chunk from p up, and nothing else. */
  lemma {:induction false} WalkMeetsAll(h: Heap, p: int)
    requires Good(h, {}) && (p in h.ck || p == h.top)
    ensures forall q :: q in Walk(h, p) <==> q in h.ck && p <= q
    decreases h.top - p
  {
    if p == h.top {
      forall q | q in h.ck ensures q < p {
        PlaceOf(h, q);
      }
    } else {
      ReadHead(h, p);
      PlaceOf(h, p);
      WalkMeetsAll(h, Next(h, p));
      forall q | q in h.ck && p < q ensures Next(h, p) <= q {
        Ordered(h, p, q);
      }
    }
  }

  /** Each chunk of the walk ends where the next one starts, and the last one at top. */
  lemma {:induction false} WalkSteps(h: Heap, p: int, i: nat)
    requires Good(h, {}) && (p in h.ck || p == h.top) && i < |Walk(h, p)|
    ensures var W := Walk(h, p); W[0] == p && W[i] + ChunkSize(Rd(h.hi, W[i])) == if i + 1 < |W| then W[i + 1] else h.top
    decreases h.top - p
  {
    ReadHead(h, p);
    PlaceOf(h, p);
    var V := Walk(h, Next(h, p));
    assert Walk(h, p) == [p] + V;
    if i > 0 {
      WalkSteps(h, Next(h, p), i - 1);
    } else if |V| > 0 {
      WalkSteps(h, Next(h, p), 0);
    }
  }

  /** Every byte of the heap lies in exactly one chunk, or in top, which ends at the break. */
  lemma {:induction false} Tiling(h: Heap, a: int)
    requires Good(h, {}) && h.start <= a < h.brk
    ensures h.top <= a < h.top + ChunkSize(Rd(h.hi, h.top)) <==> !exists p {:trigger Next(h, p)} :: p in h.ck && p <= a < Next(h, p)
    ensures forall p, q {:trigger Next(h, p), Next(h, q)} :: p in h.ck && q in h.ck && p <= a < Next(h, p) && q <= a < Next(h, q) ==> p == q
    ensures h.top + ChunkSize(Rd(h.hi, h.top)) == h.brk
  {
    ReadTop(h);
    forall p, q | p in h.ck && q in h.ck && p <= a < Next(h, p) && q <= a < Next(h, q) ensures p == q {
      OneChunk(h, a, p, q);
    }
    if a < h.top {
      var p := Covered(h, h.start, a);
      assert p <= a < Next(h, p);
    } else {
      forall p | p in h.ck ensures Next(h, p) <= a {
        PlaceOf(h, p);
      }
    }
  }

  lemma OneChunk(h: Heap, a: int, p: int, q: int)
    requires Valid(h) && p in h.ck && q in h.ck && p <= a < Next(h, p) && q <= a < Next(h, q)
    ensures p == q
  {
    Ordered(h, p, q);
    Ordered(h, q, p);
  }

  lemma {:induction false} Covered(h: Heap, s: int, a: int) returns (p: int)
    requires Good(h, {}) && s in h.ck && s <= a < h.top
    ensures p in h.ck && p <= a < Next(h, p)
    decreases h.top - s
  {
    PlaceOf(h, s);
    if a < Next(h, s) {
      p := s;
    } else {
      p := Covered(h, Next(h, s), a);
    }
  }

  // --------------------------------------------------------------- tags

  /** b is a binned chunk that ends at p. */
  ghost predicate BinnedBefore(h: Heap, b: int, p: int) {
    b in h.ck && h.ck[b].st.Binned? && Next(h, b) == p
  }

  /** PREV_INUSE of a chunk or of top is clear exactly when the chunk before it is binned;
      then prev_size is the size of that chunk. */
  lemma TagsTell(h: Heap, p: int)
    requires Good(h, {}) && (p in h.ck || p == h.top)
    ensures PrevInuse(Rd(h.hi, p)) <==> forall b :: !BinnedBefore(h, b, p)
    ensures !PrevInuse(Rd(h.hi, p)) ==> BinnedBefore(h, p - Rd(h.lo, p), p) && Rd(h.lo, p) == h.ck[p - Rd(h.lo, p)].size
  {
    if PrevInuse(Rd(h.hi, p)) {
      forall b ensures !BinnedBefore(h, b, p) {
        if BinnedBefore(h, b, p) { ReadInuse(h, b); }
      }
    } else {
      ClearTag(h, p);
    }
  }

  lemma ClearTag(h: Heap, p: int)
    requires Good(h, {}) && (p in h.ck || p == h.top) && !PrevInuse(Rd(h.hi, p))
    ensures BinnedBefore(h, p - Rd(h.lo, p), p) && Rd(h.lo, p) == h.ck[p - Rd(h.lo, p)].size
  {
    ReadTop(h);
    ReadHead(h, p);
    ReadBefore(h, p);
  }

  /** No two binned chunks are adjacent, and none borders top. */
  lemma FullyConsolidated(h: Heap, p: int)
    requires Good(h, {}) && p in h.ck && h.ck[p].st.Binned?
    ensures Next(h, p) in h.ck && !h.ck[Next(h, p)].st.Binned?
    ensures !exists b :: BinnedBefore(h, b, p)
    ensures Next(h, p) != h.top && PrevInuse(Rd(h.hi, p))
  {
    TagsOf(h, p);
    PlaceOf(h, p);
    assert h.top in h.ck ==> Placed(h, h.top);
    if h.ck[p].before != -1 { TagsOf(h, h.ck[p].before); }
    TagsTell(h, p);
    ReadHead(h, p);
  }

  // --------------------------------------------------------------- sums

  /** The sizes of the chunks in S, added up. */
  ghost function Total(ck: map<int, Chunk>, S: set<int>): int
    requires S <= ck.Keys
  {
    if S == {} then 0 else ck[Pick(S)].size + Total(ck, S - {Pick(S)})
  }

  lemma {:induction false} TotalRemove(ck: map<int, Chunk>, S: set<int>, p: int)
    requires p in S && S <= ck.Keys
    ensures Total(ck, S) == ck[p].size + Total(ck, S - {p})
    decreases S
  {
    var q := Pick(S);
    if q != p {
      TotalRemove(ck, S - {q}, p);
      TotalRemove(ck, S - {p}, q);
      assert S - {q} - {p} == S - {p} - {q};
    }
  }

  lemma {:induction false} TotalUnion(ck: map<int, Chunk>, S: set<int>, T: set<int>)
    requires S !! T && S + T <= ck.Keys
    ensures Total(ck, S + T) == Total(ck, S) + Total(ck, T)
    decreases S
  {
    if S == {} {
      assert S + T == T;
    } else {
      var p := Pick(S);
      TotalUnion(ck, S - {p}, T);
      TotalRemove(ck, S + T, p);
      assert S + T - {p} == (S - {p}) + T;
    }
  }

  /** The chunks with a given use. */
  ghost function Using(h: Heap, st: Status): set<int> {
    set p | p in h.ck && h.ck[p].st == st
  }

  /** All chunks from p up to top add up to the distance. */
  lemma {:induction false} TotalFrom(h: Heap, p: int)
    requires Good(h, {}) && (p in h.ck || p == h.top)
    ensures Total(h.ck, set q | q in h.ck && p <= q) == h.top - p
    decreases h.top - p
  {
    var S := set q | q in h.ck && p <= q;
    if p == h.top {
      forall q | q in h.ck ensures q < p {
        PlaceOf(h, q);
      }
      assert S == {};
    } else {
      PlaceOf(h, p);
      TotalFrom(h, Next(h, p));
      TotalRemove(h.ck, S, p);
      forall q | q in h.ck && p < q ensures Next(h, p) <= q {
        Ordered(h, p, q);
      }
      assert S - {p} == set q | q in h.ck && Next(h, p) <= q;
    }
  }

  /** The heap without top: live chunks and free chunks together. */
  lemma HeapTotal(h: Heap)
    requires Good(h, {})
    ensures Total(h.ck, Using(h, Live)) + Total(h.ck, set p | p in h.ck && h.ck[p].st != Live) == h.top - h.start
  {
    var L, F := Using(h, Live), set p | p in h.ck && h.ck[p].st != Live;
    TotalFrom(h, h.start);
    forall q | q in h.ck ensures h.start <= q {
      PlaceOf(h, q);
    }
    assert L + F == set q | q in h.ck && h.start <= q;
    TotalUnion(h.ck, L, F);
  }
}
