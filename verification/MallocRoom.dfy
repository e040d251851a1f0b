/** How much a program must hold before `malloc` of `shared/malloc.c` can fail: no memory is lost
    to freed blocks, beyond gaps too small for the request, at most one before each held block. */
module MallocRoom {
  import opened Words
  import opened MallocLists
  import opened MallocHeap
  import opened MallocMoves
  import opened MallocResize
  import opened MallocPolicy
  import opened Sets
  import opened Arith
  import opened Malloc

  /** A block as the program knows it: how many bytes it asked for, and the words it stored. */
  datatype Block = Block(bytes: nat, words: map<int, int>)

  /** The most that the blocks at the pointers in S keep from a request of nb bytes: the chunk
      of each, and a gap before it. */
  ghost function Cost(data: map<int, Block>, S: set<int>, nb: nat): nat
    requires S <= data.Keys
    decreases |S|
  {
    if S == {} then 0 else
      var x := Pick(S);
      AddOne(S, x);
      Request(data[x].bytes) + MINSIZE + nb + Cost(data, S - {x}, nb)
  }

  lemma {:induction false} CostRemove(data: map<int, Block>, S: set<int>, x: int, nb: nat)
    requires x in S && S <= data.Keys
    ensures Cost(data, S, nb) == Request(data[x].bytes) + MINSIZE + nb + Cost(data, S - {x}, nb)
    decreases |S|
  {
    var y := Pick(S);
    AddOne(S, x);
    AddOne(S, y);
    if x != y {
      CostRemove(data, S - {y}, x, nb);
      CostRemove(data, S - {x}, y, nb);
      assert S - {y} - {x} == S - {x} - {y};
    }
  }

  /** The heap area of room bytes is too small for a request of nb bytes beside the blocks held,
      in the worst case, or the request exceeds what sbrk can be asked for. */
  ghost predicate Short(room: int, data: map<int, Block>, nb: nat) {
    nb + MINSIZE + PAGESIZE > 0x8000_0000 || room < Cost(data, data.Keys, nb) + nb + MINSIZE + PAGESIZE
  }

  /** The pointer x is the program's, to a chunk of the padded request and little more. */
  ghost predicate Sized(B: map<int, int>, data: map<int, Block>, x: int)
    requires x in data
  {
    Mem2Chunk(x) in B && B[Mem2Chunk(x)] <= Request(data[x].bytes) + MINSIZE
  }

  /** The program holds the pointer to the block in the chunk p. */
  ghost predicate Held(data: map<int, Block>, p: int) {
    p + 8 in data && p > 0
  }

  ghost predicate Known(B: map<int, int>, data: map<int, Block>) {
    && (forall x {:trigger Sized(B, data, x)} :: x in data ==> Sized(B, data, x))
    && (forall p {:trigger Held(data, p)} :: p in B ==> Held(data, p))
  }

  /** All free chunks are in bins, and too small. */
  ghost predicate Crowded(h: Heap, nb: nat) {
    Good(h, {}) && NoneFits(h, nb) && forall p {:trigger h.ck[p]} :: p in h.ck ==> !h.ck[p].st.Fast?
  }

  ghost function HeldFrom(data: map<int, Block>, p: int): set<int> {
    set x | x in data && p <= Mem2Chunk(x)
  }

  /** A chunk in use, with what is behind it. */
  lemma LiveCost(h: Heap, data: map<int, Block>, p: int, nb: nat)
    requires Valid(h) && p in h.ck && h.ck[p].st.Live? && Known(Blocks(h), data)
    ensures h.ck[p].size + nb + Cost(data, HeldFrom(data, Next(h, p)), nb) <= Cost(data, HeldFrom(data, p), nb)
  {
    assert p in Blocks(h) && Held(data, p) && Sized(Blocks(h), data, p + 8);
    PlaceOf(h, p);
    CostRemove(data, HeldFrom(data, p), p + 8, nb);
    SkipChunk(h, data, p);
    assert HeldFrom(data, p) - {p + 8} == HeldFrom(data, Next(h, p));
  }

  /** No pointer leads between a chunk and the next one. */
  lemma SkipChunk(h: Heap, data: map<int, Block>, p: int)
    requires Valid(h) && p in h.ck && Known(Blocks(h), data)
    ensures forall x :: x in data && p < Mem2Chunk(x) ==> Next(h, p) <= Mem2Chunk(x)
    ensures !h.ck[p].st.Live? ==> p + 8 !in data
  {
    forall x | x in data && p <= Mem2Chunk(x)
      ensures p < Mem2Chunk(x) ==> Next(h, p) <= Mem2Chunk(x)
      ensures !h.ck[p].st.Live? ==> p != Mem2Chunk(x)
    {
      assert Sized(Blocks(h), data, x);
      Ordered(h, p, Mem2Chunk(x));
    }
  }

  /** From the chunk p up to top there is no more than the blocks held account for. */
  lemma {:induction false} CrowdedFrom(h: Heap, data: map<int, Block>, p: int, nb: nat)
    requires Crowded(h, nb) && Known(Blocks(h), data) && (p in h.ck || p == h.top)
    ensures h.top - p <= Cost(data, HeldFrom(data, p), nb)
    ensures p in h.ck && h.ck[p].st.Live? ==> h.top - p + nb <= Cost(data, HeldFrom(data, p), nb)
    decreases h.top - p
  {
    assert p in h.ck ==> Placed(h, p);
    if p != h.top {
      CrowdedFrom(h, data, Next(h, p), nb);
      if h.ck[p].st.Live? {
        LiveCost(h, data, p, nb);
      } else {
        TagsOf(h, p);
        PlaceOf(h, Next(h, p));
        SkipChunk(h, data, p);
        assert HeldFrom(data, p) == HeldFrom(data, Next(h, p));
      }
    }
  }

  /** Malloc is at its wits' end only if the program holds too much. */
  lemma StarvedShort(m: Mstate, data: map<int, Block>, nb: nat)
    requires m.Starved(nb) && MINSIZE <= nb && Known(m.Allocated(), data)
    ensures Short(m.memHeapEnd - m.memHeap, data, nb)
  {
    var h := m.heap;
    var oldSize := ChunkSize(Rd(m.hi, m.top));
    var size := MoreCoreSize(nb, oldSize);
    if nb + MINSIZE + PAGESIZE <= 0x8000_0000 {
      SmallCore(nb, oldSize);
      if m.Ready() {
        ReadTop(h);
        NoFast(m);
        CrowdedFrom(h, data, h.start, nb);
        AllHeld(h, data);
      } else {
        assert ChunkSize(0) == 0;
      }
    }
  }

  /** With no block allocated, whatever happened before, only a request fails that does not fit the heap
      area with a page to spare. */
  lemma NothingLost(m: Mstate, nb: nat)
    requires m.Starved(nb) && MINSIZE <= nb && m.Allocated() == map[]
    ensures nb + MINSIZE + PAGESIZE > 0x8000_0000 || nb + MINSIZE + PAGESIZE > m.memHeapEnd - m.memHeap
  {
    StarvedShort(m, map[], nb);
  }

  lemma SmallCore(nb: nat, oldSize: nat)
    requires nb + MINSIZE + PAGESIZE <= 0x8000_0000 && oldSize < nb + MINSIZE
    ensures 0 < MoreCoreSize(nb, oldSize) < 0x8000_0000
    ensures MoreCoreSize(nb, oldSize) < nb + MINSIZE - oldSize + PAGESIZE
  {
  }

  lemma NoFast(m: Mstate)
    requires m.Ready() && !HaveFastchunks(m.maxFast)
    ensures forall p {:trigger m.heap.ck[p]} :: p in m.heap.ck ==> !m.heap.ck[p].st.Fast?
  {
    forall p | p in m.heap.ck ensures !m.heap.ck[p].st.Fast? {
      PlaceOf(m.heap, p);
    }
  }

  lemma AllHeld(h: Heap, data: map<int, Block>)
    requires Valid(h) && Known(Blocks(h), data)
    ensures HeldFrom(data, h.start) == data.Keys
  {
    forall x | x in data ensures h.start <= Mem2Chunk(x) {
      assert Sized(Blocks(h), data, x);
      PlaceOf(h, Mem2Chunk(x));
    }
  }
}
