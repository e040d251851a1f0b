/** malloc, free, realloc and memalign of `shared/malloc.c` over the sbrk of
    `kernel/mem.c`, in the kernel's configuration: 32-bit words, no mmap, contiguous
    sbrk, no fastbin trimming, default tuning. */
module Malloc {
  import Arith
  import opened Words
  import opened MallocBins
  import opened MallocLists
  import opened MallocHeap
  import opened MallocSteps
  import opened MallocMoves
  import opened MallocResize
  import opened MallocAlign
  import opened MallocPolicy

  class Mstate {
    const memHeap: int
    const memHeapEnd: int

    var lo: Mem
    var hi: Mem
    var curptr: int

    var maxFast: nat
    var fb: seq<int>
    var top: int
    var lastRemainder: int
    var binmap: seq<nat>
    var sbrkedMem: int
    var maxSbrkedMem: int

    /** The heap as the proof sees it: the memory above with its tiling and lists. */
    ghost var heap: Heap

    ghost predicate Core()
      reads this
    {
      heap.lo == lo && heap.hi == hi && heap.top == top && heap.brk == curptr
    }

    ghost predicate Accounts()
      reads this
    {
      && heap.start == memHeap && curptr <= memHeapEnd < WORD
      && sbrkedMem == curptr - memHeap && sbrkedMem <= maxSbrkedMem
    }

    /** Memory has been obtained from sbrk, and the heap is in order. */
    ghost predicate Ready()
      reads this
    {
      && Core() && heap.fb == fb && Good(heap, {})
      && FlagsOk(maxFast, heap.bins, heap.fasts) && MapOk(binmap, heap.bins)
      && Accounts()
    }

    /** The state before the first request: all of malloc_state is zero. */
    ghost predicate Untouched()
      reads this
    {
      && maxFast == 0 && top == 0 && fb == seq(NFASTBINS, _ => 0) && binmap == [0, 0, 0, 0]
      && Rd(hi, AV_BINS) == 0 && Nothing()
    }

    /** Initialised, but sbrk has not yet provided anything: top is the unsorted bin's header. */
    ghost predicate NoMemory()
      reads this
    {
      && maxFast == MAX_FAST && top == BinAt(1) && fb == seq(NFASTBINS, _ => 0) && binmap == [0, 0, 0, 0]
      && Rd(hi, AV_BINS) == 0 && EmptyRings(lo, hi) && Nothing()
    }

    ghost predicate Nothing()
      reads this
    {
      && heap.ck == map[] && curptr == memHeap <= memHeapEnd < WORD && HEAP_MIN <= memHeap && memHeap % 8 == 0
      && sbrkedMem == 0 && maxSbrkedMem == 0
    }

    /** The invariant of the allocator between calls. */
    ghost predicate Ok()
      reads this
    {
      Untouched() || NoMemory() || Ready()
    }

    /** The blocks in use: chunk address to chunk size. */
    ghost function Allocated(): map<int, int>
      reads this
    {
      Blocks(heap)
    }

    method SetAnychunks()
      requires FlagValue(maxFast)
      modifies this`maxFast
      ensures maxFast == if old(maxFast) == MAX_FAST then MAX_FAST + 1 else old(maxFast)
    {
      Flags(maxFast);
      maxFast := Or(maxFast, 1);
    }

    method SetFastchunks()
      requires FlagValue(maxFast)
      modifies this`maxFast
      ensures maxFast == MAX_FAST + 3
    {
      Flags(maxFast);
      maxFast := Or(maxFast, 3);
    }

    method ClearFastchunks()
      requires FlagValue(maxFast)
      modifies this`maxFast
      ensures maxFast == if old(maxFast) == MAX_FAST then MAX_FAST else MAX_FAST + 1
    {
      Flags(maxFast);
      maxFast := AndNot(maxFast, 2);
    }

    // ------------------------------------------------------------- freeing

    /** Consolidate backward: the free chunk before p0, if any, leaves its bin. */
    method CoalesceBackward(p0: int) returns (p: int, size: nat)
      requires Core() && Good(heap, {}) && p0 in Blocks(heap)
      modifies this`lo, this`hi, this`heap
      ensures Core() && Gathered(heap, p0, p) && (p == p0 ==> Good(heap, {}))
      ensures heap == old(heap).(lo := lo, hi := hi, ck := heap.ck, bins := heap.bins)
      ensures p0 in old(heap).ck && heap.ck[p0] == old(heap).ck[p0] && p + size == Next(heap, p0)
      ensures forall n | n in old(heap).ck && n != p :: n in heap.ck && heap.ck[n] == old(heap).ck[n]
      ensures p == FreeStart(old(heap), p0) && SameBut(old(heap), heap, p, p, p)
      ensures FewerBins(old(heap.bins), heap.bins)
      ensures Blocks(heap) == old(Blocks(heap)) && Saved(old(lo), old(hi), lo, hi, Blocks(heap))
    {
      ReadHead(heap, p0);
      size := ChunkSize(Rd(hi, p0));
      p := p0;
      if !PrevInuse(Rd(hi, p0)) {
        ReadBefore(heap, p0);
        var prevsize := Rd(lo, p0);
        size := size + prevsize;
        p := p0 - prevsize;
        var fwd, bck := Fd(lo, p), Bk(hi, p);
        hi := hi[fwd + 8 := bck];
        lo := lo[bck + 8 := fwd];
        ghost var k;
        heap, k := UnlinkMove(heap, p, {});
      }
    }

    /** Place the chunk in the unsorted list, and store its head and foot. */
    method PlaceUnsorted(p: int, size: nat)
      requires Core() && Good(heap, {p}) && p in heap.ck && heap.ck[p] == Chunk(size, Loose, -1)
      requires p + size in heap.ck && !heap.ck[p + size].st.Binned?
      modifies this`lo, this`hi, this`heap
      ensures Core() && Good(heap, {}) && heap == Linked(old(heap), p, 1, 0, lo, hi)
      ensures Blocks(heap) == old(Blocks(heap)) && Saved(old(lo), old(hi), lo, hi, Blocks(heap))
    {
      var bck := BinAt(1);
      var fwd := Fd(lo, bck);
      heap := PushMove(heap, p, fwd);
      hi := hi[p + 8 := bck];
      lo := lo[p + 8 := fwd];
      lo := lo[bck + 8 := p];
      hi := hi[fwd + 8 := p];
      hi := hi[p := size + 1];
      lo := lo[p + size := size];
    }

    /** Consolidate forward: the chunk after p, if free, leaves its bin; p is ready to be listed. */
    method CoalesceForward(ghost p0: int, p: int, size0: nat, nextchunk: int, nextsize: nat) returns (size: nat)
      requires Core() && Gathered(heap, p0, p) && p + size0 == nextchunk == Next(heap, p0)
      requires nextchunk in heap.ck && !heap.ck[nextchunk].st.Loose? && nextsize == heap.ck[nextchunk].size && nextchunk != top
      modifies this`lo, this`hi, this`heap
      ensures Core() && Good(heap, {p})
      ensures heap == old(heap).(lo := lo, hi := hi, ck := heap.ck, bins := heap.bins)
      ensures p in heap.ck && heap.ck[p] == Chunk(size, Loose, -1)
      ensures p + size in heap.ck && !heap.ck[p + size].st.Binned?
      ensures p + size == FreeEnd(old(heap), p0) && ForwardFreed(old(heap), p0, p, heap)
      ensures FewerBins(old(heap.bins), heap.bins)
      ensures Blocks(heap) == old(Blocks(heap)) - {p0}
      ensures Saved(old(lo), old(hi), lo, hi, Blocks(heap))
    {
      size := size0;
      NotBack(heap, p0, p, nextchunk);
      ReadInuse(heap, nextchunk);
      var nextinuse := PrevInuse(Rd(hi, nextchunk + nextsize));
      hi := hi[nextchunk := nextsize];
      if !nextinuse {
        var fwd, bck := Fd(lo, nextchunk), Bk(hi, nextchunk);
        hi := hi[fwd + 8 := bck];
        lo := lo[bck + 8 := fwd];
        size := size + nextsize;
      }
      heap := ForwardMove(heap, p0, p);
    }

    /** Consolidation in free and malloc_consolidate: the block p0 merges with its free
        neighbours and goes to the unsorted list, or into top.  Returns the final size. */
    method Coalesce(p0: int) returns (size: nat)
      requires Core() && Good(heap, {}) && p0 in Blocks(heap)
      modifies this`lo, this`hi, this`top, this`heap
      ensures Core() && Good(heap, {})
      ensures heap == old(heap).(lo := lo, hi := hi, top := top, ck := heap.ck, bins := heap.bins)
      ensures Freed(old(heap), p0, heap) && FreeStart(old(heap), p0) + size == FreeEnd(old(heap), p0)
      ensures FewerBins(old(heap.bins), heap.bins)
      ensures Blocks(heap) == old(Blocks(heap)) - {p0}
      ensures Saved(old(lo), old(hi), lo, hi, Blocks(heap))
    {
      ghost var lo0, hi0, h0 := lo, hi, heap;
      ReadHead(heap, p0);
      var nextchunk := p0 + ChunkSize(Rd(hi, p0));
      var nextsize := ChunkSize(Rd(hi, nextchunk));
      ReadNext(heap, p0);
      var p;
      p, size := CoalesceBackward(p0);
      ghost var lo1, hi1 := lo, hi;
      ghost var B := Blocks(heap) - {p0};
      SavedSub(lo0, hi0, lo1, hi1, Blocks(heap), B);
      if nextchunk != top { NotBack(heap, p0, p, nextchunk); }
      ghost var h1 := heap;
      size := Settle(p0, p, size, nextchunk, nextsize);
      MergedFreed(h0, h1, p0, p, heap);
      SavedTrans(lo0, hi0, lo1, hi1, lo, hi, B);
    }

    /** Merge with what follows: another chunk, or top. */
    method Settle(ghost p0: int, p: int, size0: nat, nextchunk: int, nextsize: nat) returns (size: nat)
      requires Core() && Gathered(heap, p0, p) && p + size0 == nextchunk == Next(heap, p0)
      requires if nextchunk == top then nextsize == curptr - top
               else nextchunk in heap.ck && !heap.ck[nextchunk].st.Loose? && nextsize == heap.ck[nextchunk].size
      modifies this`lo, this`hi, this`top, this`heap
      ensures Core() && Good(heap, {})
      ensures heap == old(heap).(lo := lo, hi := hi, top := top, ck := heap.ck, bins := heap.bins)
      ensures Merged(old(heap), p0, p, heap) && p + size == FreeEnd(old(heap), p0)
      ensures FewerBins(old(heap.bins), heap.bins)
      ensures Blocks(heap) == old(Blocks(heap)) - {p0}
      ensures Saved(old(lo), old(hi), lo, hi, Blocks(heap))
    {
      ghost var h0 := heap;
      if nextchunk != top {
        size := CoalesceForward(p0, p, size0, nextchunk, nextsize);
        ghost var lo1, hi1, h1 := lo, hi, heap;
        PlaceUnsorted(p, size);
        ListedMerged(h0, p0, p, h1, heap);
        SavedTrans(old(lo), old(hi), lo1, hi1, lo, hi, Blocks(heap));
      } else {
        size := size0 + nextsize;
        heap := ToTop(heap, p0, p);
        hi := hi[p := size + 1];
        top := p;
      }
    }

    /** Releases the first chunk p of fastbin j, whose header has been cleared; returns the next one. */
    method FreeFirst(j: int, p: int) returns (nextp: int)
      requires 0 <= j < 8 && |fb| == |heap.fb| == |heap.fasts| == NFASTBINS && p != 0
      requires Core() && heap.fb == fb[j := p] && fb[j] == 0 && Good(heap, {})
      modifies this`lo, this`hi, this`top, this`heap
      ensures Core() && heap.fb == fb[j := nextp] && |heap.fasts| == NFASTBINS && Good(heap, {})
      ensures heap == old(heap).(lo := lo, hi := hi, top := top, fb := heap.fb,
                                 fasts := old(heap.fasts)[j := heap.fasts[j]], ck := heap.ck, bins := heap.bins)
      ensures |heap.fasts[j]| < |old(heap.fasts)[j]| && FewerBins(old(heap.bins), heap.bins)
      ensures FreeKept(old(heap), heap)
      ensures Blocks(heap) == old(Blocks(heap)) && Saved(old(lo), old(hi), lo, hi, Blocks(heap))
    {
      nextp := Fd(lo, p);
      ghost var h0 := heap;
      heap := PopMove(heap, j);
      ghost var h1 := heap;
      FreeKeptOther(h0, h1, p);
      var size := Coalesce(p);
      FreedKeeps(h1, p, heap);
      FreeKeptTrans(h0, h1, heap);
    }

    /** Releases all chunks of fastbin j into the unsorted list or top. */
    method ConsolidateBin(j: int)
      requires Core() && heap.fb == fb && Good(heap, {}) && 0 <= j < 8 && |fb| == |heap.fasts| == NFASTBINS
      modifies this`lo, this`hi, this`top, this`fb, this`heap
      ensures Core() && heap.fb == fb && Good(heap, {})
      ensures heap == old(heap).(lo := lo, hi := hi, top := top, fb := fb, fasts := old(heap.fasts)[j := []],
                                 ck := heap.ck, bins := heap.bins)
      ensures FewerBins(old(heap.bins), heap.bins) && (old(heap.fasts)[j] == [] ==> heap.bins == old(heap.bins))
      ensures FreeKept(old(heap), heap)
      ensures Blocks(heap) == old(Blocks(heap)) && Saved(old(lo), old(hi), lo, hi, Blocks(heap))
    {
      var p := fb[j];
      EmptyFast(heap, j);
      if p != 0 {
        fb := fb[j := 0];
        assert heap.fb == fb[j := p];
        assert heap.fasts == heap.fasts[j := heap.fasts[j]];
        while p != 0
          invariant |fb| == |heap.fb| == |heap.fasts| == NFASTBINS
          invariant Core() && heap.fb == fb[j := p] && fb[j] == 0 && Good(heap, {})
          invariant heap == old(heap).(lo := lo, hi := hi, top := top, fb := heap.fb,
                                       fasts := old(heap.fasts)[j := heap.fasts[j]], ck := heap.ck, bins := heap.bins)
          invariant FewerBins(old(heap.bins), heap.bins) && old(heap.fasts)[j] != []
          invariant FreeKept(old(heap), heap)
          invariant Blocks(heap) == old(Blocks(heap)) && Saved(old(lo), old(hi), lo, hi, Blocks(heap))
          decreases |heap.fasts[j]|
        {
          ghost var lo1, hi1, h1 := lo, hi, heap;
          p := FreeFirst(j, p);
          FreeKeptTrans(old(heap), h1, heap);
          SavedTrans(old(lo), old(hi), lo1, hi1, lo, hi, Blocks(heap));
        }
      }
      EmptyFast(heap, j);
    }

    /** malloc_init_state */
    method InitState()
      requires Untouched()
      modifies this`lo, this`hi, this`maxFast, this`top
      ensures NoMemory()
    {
      var i := 1;
      while i < NBINS
        invariant 1 <= i <= NBINS
        invariant forall j {:trigger BinAt(j)} :: 1 <= j < i ==> Fd(lo, BinAt(j)) == BinAt(j) && Bk(hi, BinAt(j)) == BinAt(j)
        invariant Rd(hi, AV_BINS) == 0
      {
        var bin := BinAt(i);
        lo := lo[bin + 8 := bin];
        hi := hi[bin + 8 := bin];
        i := i + 1;
      }
      maxFast := MAX_FAST;
      top := BinAt(1);
    }

    /** malloc_consolidate, once initialised: all fastbin chunks are freed for good. */
    method Consolidate()
      requires Ready()
      modifies this`lo, this`hi, this`top, this`fb, this`heap, this`maxFast
      ensures Ready() && maxFast == (if old(maxFast) == MAX_FAST then MAX_FAST else MAX_FAST + 1)
      ensures NoFasts(heap) && FreeKept(old(heap), heap)
      ensures Allocated() == old(Allocated()) && Saved(old(lo), old(hi), lo, hi, Allocated())
    {
      ClearFastchunks();
      ghost var m := maxFast;
      var j := 0;
      while j < 8
        invariant 0 <= j <= 8 && maxFast == m
        invariant Core() && heap.fb == fb && Good(heap, {}) && heap.start == old(heap.start)
        invariant |heap.fasts| == NFASTBINS
        invariant forall k {:trigger heap.fasts[k]} :: 0 <= k < j ==> heap.fasts[k] == []
        invariant forall k {:trigger heap.fasts[k]} :: j <= k < NFASTBINS ==> heap.fasts[k] == old(heap.fasts)[k]
        invariant FewerBins(old(heap.bins), heap.bins) && (maxFast == MAX_FAST ==> heap.bins == old(heap.bins))
        invariant FreeKept(old(heap), heap)
        invariant Blocks(heap) == old(Blocks(heap)) && Saved(old(lo), old(hi), lo, hi, Blocks(heap))
      {
        ghost var lo1, hi1, h1 := lo, hi, heap;
        ConsolidateBin(j);
        FreeKeptTrans(old(heap), h1, heap);
        SavedTrans(old(lo), old(hi), lo1, hi1, lo, hi, Blocks(heap));
        j := j + 1;
      }
      UnusedFast(heap, 8);
      UnusedFast(heap, 9);
      MapFewer(binmap, old(heap.bins), heap.bins);
    }

    // ------------------------------------------------------ kernel/mem.c

    /** sbrk: moves the break and returns its old value, or fails and changes nothing.
        It succeeds exactly on increments that stay within the heap area, so it never gives memory back. */
    method Sbrk(diff: int) returns (s: int)
      requires 0 <= curptr <= memHeapEnd < WORD && -curptr <= diff < WORD
      modifies this`curptr
      ensures s == if 0 <= diff <= memHeapEnd - old(curptr) then old(curptr) else MORECORE_FAILURE
      ensures curptr == if s == MORECORE_FAILURE then old(curptr) else old(curptr) + diff
    {
      s := curptr;
      var c := (s + diff + WORD) % WORD;
      if c < curptr || c > memHeapEnd {
        return MORECORE_FAILURE;
      }
      curptr := c;
    }

    /** sYSTRIm: asks sbrk to take back the end of top.  The sbrk of kernel/mem.c refuses
        every decrement, so nothing is ever released. */
    method SysTrim(pad: nat) returns (released: bool)
      requires Ready() && pad <= TRIM_THRESHOLD - PAGESIZE && curptr - top >= TRIM_THRESHOLD
      modifies this`curptr
      ensures !released && curptr == old(curptr)
    {
      ReadTop(heap);
      var topSize := ChunkSize(Rd(hi, top));
      var extra := ((topSize - pad - MINSIZE + (PAGESIZE - 1)) / PAGESIZE - 1) * PAGESIZE;
      released := false;
      if extra > 0 {
        var currentBrk := Sbrk(0);
        if currentBrk == top + topSize {
          var r := Sbrk(-extra);
          var newBrk := Sbrk(0);
          if newBrk != MORECORE_FAILURE {
            if currentBrk - newBrk != 0 {
              assert false;  // the branch that would shrink top
            }
          }
        }
      }
    }

    // -------------------------------------------------------------- free

    /** fREe */
    method Free(mem: int)
      requires Ok() && (mem == 0 || mem - 2 * SIZE_SZ in Allocated())
      modifies this
      ensures Ok()
      ensures Allocated() == if mem == 0 then old(Allocated()) else old(Allocated()) - {mem - 2 * SIZE_SZ}
      ensures if mem == 0 then heap == old(heap) else Disposed(old(heap), mem - 2 * SIZE_SZ, heap)
      ensures Saved(old(lo), old(hi), lo, hi, Allocated())
    {
      if mem != 0 {
        FreeChunk(mem - 2 * SIZE_SZ);
      } else {
        SavedSame(lo, hi, Allocated());
      }
    }

    method FreeChunk(p: int)
      requires Ready() && p in Allocated()
      modifies this`lo, this`hi, this`curptr, this`maxFast, this`fb, this`top, this`heap
      ensures Ready() && Allocated() == old(Allocated()) - {p}
      ensures Disposed(old(heap), p, heap)
      ensures Saved(old(lo), old(hi), lo, hi, Allocated())
    {
      ReadHead(heap, p);
      var size := ChunkSize(Rd(hi, p));
      if size <= maxFast {
        FreeFast(p, size);
      } else {
        ghost var h0 := heap;
        size := FreeSlow(p);
        FreedInFree(h0, p, heap);
        if size >= FASTBIN_CONSOLIDATION_THRESHOLD {
          ghost var lo1, hi1 := lo, hi;
          TidyLarge();
          SavedTrans(old(lo), old(hi), lo1, hi1, lo, hi, Allocated());
        }
      }
    }

    /** Free, and note where the block went. */
    method FreeAndNote(p: int, ghost size: int)
      requires Ready() && p in Allocated() && Allocated()[p] == size
      modifies this`lo, this`hi, this`curptr, this`maxFast, this`fb, this`top, this`heap
      ensures Ready() && Allocated() == old(Allocated()) - {p}
      ensures GivenBack(old(heap).fasts, p, size, heap) && Recycled(p, size, heap)
      ensures Saved(old(lo), old(hi), lo, hi, Allocated())
    {
      FreeChunk(p);
      DisposedBack(old(heap), p, heap);
    }

    /** Consolidate the chunk as it arrives. */
    method FreeSlow(p: int) returns (size: nat)
      requires Ready() && p in Allocated()
      modifies this`lo, this`hi, this`maxFast, this`top, this`heap
      ensures Ready() && Allocated() == old(Allocated()) - {p}
      ensures Freed(old(heap), p, heap) && heap.fasts == old(heap.fasts) && FreeStart(old(heap), p) + size == FreeEnd(old(heap), p)
      ensures Saved(old(lo), old(hi), lo, hi, Allocated())
    {
      ghost var map0, bins0 := binmap, heap.bins;
      assert MapOk(map0, bins0);
      SetAnychunks();
      size := Coalesce(p);
      MapFewer(map0, bins0, heap.bins);
    }

    /** Place the chunk on its fastbin. */
    method FreeFast(p: int, size: nat)
      requires Ready() && p in Allocated() && heap.ck[p].size == size <= maxFast && size % 8 == 0
      modifies this`lo, this`maxFast, this`fb, this`heap
      ensures Ready() && Allocated() == old(Allocated()) - {p}
      ensures PushedFast(old(heap), p, heap)
      ensures Saved(old(lo), old(hi), lo, hi, Allocated())
    {
      SetFastchunks();
      assert Pow2(3) == 8;
      heap := PushFastMove(heap, p);
      var j := Shr(size, 3) - 2;
      lo := lo[p + 8 := fb[j]];
      fb := fb[j := p];
    }

    /** After freeing a large space: consolidate, and trim top if it has become very large. */
    method TidyLarge()
      requires Ready()
      modifies this`lo, this`hi, this`curptr, this`maxFast, this`fb, this`top, this`heap
      ensures Ready() && Allocated() == old(Allocated())
      ensures NoFasts(heap) && FreeKept(old(heap), heap)
      ensures Saved(old(lo), old(hi), lo, hi, Allocated())
    {
      if HaveFastchunks(maxFast) {
        Consolidate();
      } else {
        SavedSame(lo, hi, Allocated());
      }
      ReadTop(heap);
      if ChunkSize(Rd(hi, top)) >= TRIM_THRESHOLD {
        var released := SysTrim(0);
      }
    }

    // ----------------------------------------------------- out of the bins

    /** As Ready, but the chunk x has been taken off its list and is to be handed out. */
    ghost predicate Serving(x: int)
      reads this
    {
      && Core() && heap.fb == fb && Victim(heap, x)
      && FlagsOk(maxFast, heap.bins, heap.fasts) && MapOk(binmap, heap.bins) && maxFast != MAX_FAST
      && Accounts()
    }

    /** Exhaust: the whole victim is handed out. */
    method Exhaust(victim: int, size: int)
      requires Serving(victim) && size == heap.ck[victim].size
      modifies this`hi, this`heap
      ensures Ready() && victim !in old(Allocated()) && Allocated() == old(Allocated())[victim := size]
      ensures BinnedWithin(old(heap), heap, victim) && Whole(heap, victim, size)
      ensures heap.fasts == old(heap.fasts)
      ensures Saved(old(lo), old(hi), lo, hi, old(Allocated()))
    {
      heap := TakeMove(heap, victim, {});
      hi := hi[victim + size := WithInuse(Rd(hi, victim + size))];
    }

    /** Split: the victim's first nb bytes are handed out, and the rest is unsorted. */
    method SplitOff(victim: int, size: int, nb: nat)
      requires Serving(victim) && size == heap.ck[victim].size && heap.bins[1] == []
      requires MINSIZE <= nb && nb % 8 == 0 && MINSIZE <= size - nb
      modifies this`lo, this`hi, this`heap
      ensures Ready() && victim !in old(Allocated()) && Allocated() == old(Allocated())[victim := nb]
      ensures BinnedWithin(old(heap), heap, victim + nb) && CutInTwo(heap, victim, nb, size)
      ensures heap.bins == old(heap.bins)[1 := [victim + nb]]
      ensures heap.fasts == old(heap.fasts)
      ensures Saved(old(lo), old(hi), lo, hi, old(Allocated()))
    {
      var remainderSize := size - nb;
      var remainder := victim + nb;
      heap := SplitMove(heap, victim, nb);
      lo, hi := lo[BinAt(1) + 8 := remainder][remainder + 8 := BinAt(1)][victim + size := remainderSize],
                hi[BinAt(1) + 8 := remainder][remainder + 8 := BinAt(1)][victim := nb + 1][remainder := remainderSize + 1];
      MapUnsorted(binmap, old(heap.bins), [remainder]);
    }

    // ---------------------------------------------------- into the bins

    /** The bin for the victim, and the neighbours between which it keeps the bin sorted. */
    method FindSlot(victim: int, size: nat) returns (index: nat, bck: int, fwd: int, ghost k: nat)
      requires Core() && Victim(heap, victim) && size == heap.ck[victim].size && MINSIZE <= size < WORD
      ensures 2 <= index < NBINS && k <= |heap.bins[index]| && FitsBin(heap, victim, index, k)
      ensures BinPlace(heap, index, k, size)
      ensures fwd == After(BinAt(index), heap.bins[index], k - 1) && bck == Before(BinAt(index), heap.bins[index], k)
    {
      index := BinIndex(size);
      bck := BinAt(index);
      fwd := Fd(lo, bck);
      k := 0;
      assert BinOk(heap, index);
      BinHeaderOutside(heap, index);
      if size < 256 {
        SmallFits(heap, victim, index);
      } else if fwd != bck {
        bck, fwd, k := FindLargeSlot(victim, size, index, bck, fwd);
      } else {
        PlaceEmpty(heap, index, size);
      }
    }

    /** The place in a nonempty large bin: last if the victim is not larger than the smallest
        chunk, else before the first chunk that is not larger than it. */
    method FindLargeSlot(ghost victim: int, size: nat, ghost index: nat, bck0: int, fwd0: int) returns (bck: int, fwd: int, ghost k: nat)
      requires Core() && Victim(heap, victim) && size == heap.ck[victim].size && 2 <= index < NBINS && index == IndexOf(size)
      requires size >= 256
      requires bck0 == BinAt(index) != fwd0 == After(BinAt(index), heap.bins[index], -1)
      ensures k <= |heap.bins[index]| && FitsBin(heap, victim, index, k)
      ensures BinPlace(heap, index, k, size)
      ensures fwd == After(BinAt(index), heap.bins[index], k - 1) && bck == Before(BinAt(index), heap.bins[index], k)
    {
      ghost var L := heap.bins[index];
      assert BinOk(heap, index);
      bck, fwd, k := bck0, fwd0, 0;
      BinnedHead(heap, victim, index, |L| - 1);
      if size < Rd(hi, Bk(hi, bck)) {
        fwd := bck;
        bck := Bk(hi, bck);
        k := |L|;
        PlaceLast(heap, index, size);
      } else {
        while size + 1 < Rd(hi, fwd)
          invariant k < |L| && fwd == L[k]
          invariant forall m :: 0 <= m < k ==> L[m] in heap.ck && heap.ck[L[m]].size > size
          decreases |L| - k
        {
          BinnedHead(heap, victim, index, k);
          fwd := Fd(lo, fwd);
          k := k + 1;
        }
        BinnedHead(heap, victim, index, k);
        bck := Bk(hi, fwd);
        PlaceBefore(heap, index, size, k);
      }
    }

    /** bin_index */
    static method BinIndex(size: nat) returns (index: nat)
      requires MINSIZE <= size < WORD
      ensures index == IndexOf(size) && 2 <= index < NBINS
    {
      IndexRange(size);
      if size < 256 {
        index := SmallBinIndex(size);
      } else {
        index := LargeBinIndex(size);
      }
    }

    /** Place the victim in its bin, and mark the bin. */
    method PlaceInBin(victim: int, size: nat)
      requires Serving(victim) && size == heap.ck[victim].size
      modifies this`lo, this`hi, this`heap, this`binmap
      ensures Ready() && Allocated() == old(Allocated()) && heap.bins[1] == old(heap).bins[1]
      ensures forall i | 2 <= i < NBINS && i != IndexOf(size) :: heap.bins[i] == old(heap).bins[i]
      ensures victim in heap.ck && heap.ck[victim].size == size && BinnedWithin(old(heap), heap, victim)
      ensures heap.fasts == old(heap.fasts)
      ensures SameBut(old(heap), heap, victim, victim, victim)
      ensures InsertedIn(old(heap), IndexOf(size), victim, size, heap)
      ensures Saved(old(lo), old(hi), lo, hi, old(Allocated()))
    {
      PlaceOf(heap, victim);
      var index, bck, fwd;
      ghost var k;
      index, bck, fwd, k := FindSlot(victim, size);
      Mark(index);
      InsertedAdmin(maxFast, binmap, heap.bins, heap.fasts, index, k, victim);
      LinkedFacts(heap, victim, index, k, lo[victim + 8 := fwd][bck + 8 := victim], hi[victim + 8 := bck][fwd + 8 := victim]);
      heap := LinkMove(heap, victim, index, k);
      lo, hi := lo[victim + 8 := fwd][bck + 8 := victim], hi[victim + 8 := bck][fwd + 8 := victim];
    }

    /** mark_bin */
    method Mark(i: nat)
      requires MapOk(binmap, heap.bins) && 2 <= i < NBINS
      modifies this`binmap
      ensures MapOk(binmap, heap.bins) && Bit(binmap[i / 32], i % 32)
    {
      ghost var map0 := binmap;
      binmap := binmap[i / 32 := Or(binmap[i / 32], Pow2(i % 32))];
      MarkOk(map0, heap.bins, i);
    }

    // -------------------------------------------------- unsorted chunks

    /** Takes the last chunk of bin i, the unsorted list or a small bin, off its list. */
    method UnlinkLast(ghost i: nat, bin: int, victim: int, bck: int)
      requires Ready() && 1 <= i < NBINS && bin == BinAt(i) && victim == Bk(hi, bin) != bin && bck == Bk(hi, victim)
      modifies this`lo, this`hi, this`heap
      ensures Serving(victim) && Allocated() == old(Allocated())
      ensures victim in old(heap).ck && heap.ck[victim].size == old(heap).ck[victim].size
      ensures var L := old(heap).bins[i]; L != [] && victim == L[|L| - 1] && heap.bins[i] == L[..|L| - 1]
      ensures SameBut(old(heap), heap, victim, victim, victim) && (bck == bin ==> heap.bins[i] == [])
      ensures forall j | 1 <= j < NBINS && j != i :: heap.bins[j] == old(heap).bins[j]
      ensures old(heap).ck[victim].st.Binned? && BinnedWithin(old(heap), heap, victim)
      ensures heap.fasts == old(heap.fasts)
      ensures Saved(old(lo), old(hi), lo, hi, old(Allocated()))
    {
      LastOf(heap, i);
      assert heap.bins[i] != [];
      ghost var map0, bins0, h0 := binmap, heap.bins, heap;
      ghost var k;
      heap, k := UnlinkVictim(heap, victim);
      LastRemoved(h0, i, k, heap);
      hi := hi[bin + 8 := bck];
      lo := lo[bck + 8 := bin];
      MapFewer(map0, bins0, heap.bins);
    }

    /** What becomes of an unsorted chunk, once off the list: handed out if it is the last
        remainder serving a small request or an exact fit, else placed in its bin. */
    method ServeOrPlace(nb: nat, victim: int, bck: int, size: nat) returns (mem: int, ghost via: Path)
      requires Serving(victim) && size == heap.ck[victim].size && MINSIZE <= nb < WORD && nb % 8 == 0
      requires bck == BinAt(1) ==> heap.bins[1] == []
      requires nb < 256 ==> heap.bins[nb / 8] == []
      modifies this`lo, this`hi, this`heap, this`binmap, this`lastRemainder
      ensures Ready() && Granted(old(Allocated()), Allocated(), mem, nb)
      ensures mem != 0 ==> Chosen(old(lastRemainder), lastRemainder, heap, Mem2Chunk(mem), nb, via)
      ensures mem == 0 ==> heap.bins[1] == old(heap).bins[1] && (nb < 256 ==> heap.bins[nb / 8] == []) && lastRemainder == old(lastRemainder)
      ensures NoneFits(old(heap), nb) && size < nb ==> mem == 0 && NoneFits(heap, nb)
      ensures heap.fasts == old(heap.fasts)
      ensures if mem != 0 then mem == victim + 8 && (size == nb || bck == BinAt(1)) else size != nb && SameBut(old(heap), heap, victim, victim, victim)
      ensures Saved(old(lo), old(hi), lo, hi, old(Allocated()))
    {
      PlaceOf(heap, victim);
      mem, via := 0, Failed;
      if nb < 256 && bck == BinAt(1) && victim == lastRemainder && size > nb + MINSIZE {
        mem := SplitRemainder(nb, victim, size);
        via := ViaRemainder(size);
      } else if size == nb {
        Exhaust(victim, size);
        mem, via := victim + 2 * SIZE_SZ, ViaBin(nb);
      } else {
        OtherBin(nb, size);
        PlaceInBin(victim, size);
      }
    }

    /** Split and reattach the remainder. */
    method SplitRemainder(nb: nat, victim: int, size: nat) returns (mem: int)
      requires Serving(victim) && size == heap.ck[victim].size > nb + MINSIZE && MINSIZE <= nb < 256 && nb % 8 == 0
      requires victim == lastRemainder && victim > 0 && victim % 8 == 0 && heap.bins[1] == [] && heap.bins[nb / 8] == []
      modifies this`lo, this`hi, this`heap, this`lastRemainder
      ensures Ready() && Granted(old(Allocated()), Allocated(), mem, nb)
      ensures mem != 0 && Chosen(old(lastRemainder), lastRemainder, heap, Mem2Chunk(mem), nb, ViaRemainder(size))
      ensures heap.fasts == old(heap.fasts)
      ensures Saved(old(lo), old(hi), lo, hi, old(Allocated()))
    {
      SplitOff(victim, size, nb);
      NoExactLeft(heap, nb, victim + nb);
      lastRemainder := victim + nb;
      mem := victim + 2 * SIZE_SZ;
    }

    /** One round: the oldest unsorted chunk leaves the list. */
    method ProcessOne(nb: nat, victim: int) returns (mem: int, ghost via: Path)
      requires Ready() && maxFast != MAX_FAST && MINSIZE <= nb < WORD && nb % 8 == 0
      requires victim == Bk(hi, BinAt(1)) != BinAt(1)
      requires nb < 256 ==> heap.bins[nb / 8] == []
      modifies this`lo, this`hi, this`heap, this`binmap, this`lastRemainder
      ensures Ready() && Granted(old(Allocated()), Allocated(), mem, nb)
      ensures mem != 0 ==> Chosen(old(lastRemainder), lastRemainder, heap, Mem2Chunk(mem), nb, via)
      ensures var U := old(heap).bins[1];
              && U != [] && var v := U[|U| - 1];
                 if mem != 0 then mem == v + 8 && (SizeIs(old(heap), v, nb) || |U| == 1)
                 else !SizeIs(old(heap), v, nb) && heap.bins[1] == U[..|U| - 1] && SameBut(old(heap), heap, v, v, v)
      ensures mem == 0 ==> (nb < 256 ==> heap.bins[nb / 8] == []) && lastRemainder == old(lastRemainder)
      ensures NoneFits(old(heap), nb) ==> mem == 0 && NoneFits(heap, nb)
      ensures heap.fasts == old(heap.fasts)
      ensures Saved(old(lo), old(hi), lo, hi, old(Allocated()))
    {
      LastOf(heap, 1);
      ReadHead(heap, victim);
      var bck := Bk(hi, victim);
      var size := ChunkSize(Rd(hi, victim));
      ghost var B := Allocated();
      ghost var h0 := heap;
      UnlinkLast(1, BinAt(1), victim, bck);
      ghost var lo1, hi1, h1 := lo, hi, heap;
      mem, via := ServeOrPlace(nb, victim, bck, size);
      if mem == 0 { SameTrans(h0, h1, heap, victim, victim, victim); }
      SavedTrans(old(lo), old(hi), lo1, hi1, lo, hi, B);
    }

    /** Process recently freed or remaindered chunks: one is taken only if it is an exact fit,
        or the last remainder for a small request; the others go to their bins. */
    method ProcessUnsorted(nb: nat) returns (mem: int, ghost via: Path)
      requires Ready() && maxFast != MAX_FAST && MINSIZE <= nb < WORD && nb % 8 == 0
      requires nb < 256 ==> heap.bins[nb / 8] == []
      modifies this`lo, this`hi, this`heap, this`binmap, this`lastRemainder
      ensures Ready() && Granted(old(Allocated()), Allocated(), mem, nb)
      ensures mem != 0 ==> Chosen(old(lastRemainder), lastRemainder, heap, Mem2Chunk(mem), nb, via)
      ensures mem == 0 ==> heap.bins[1] == [] && (nb < 256 ==> heap.bins[nb / 8] == []) && lastRemainder == old(lastRemainder)
      ensures NoneFits(old(heap), nb) ==> mem == 0 && NoneFits(heap, nb)
      ensures heap.fasts == old(heap.fasts)
      ensures OldestTaken(old(heap), nb, mem) && (mem == 0 ==> NoOldest(old(heap), nb))
      ensures Saved(old(lo), old(hi), lo, hi, old(Allocated()))
    {
      mem, via := 0, Failed;
      SavedSame(lo, hi, Allocated());
      ghost var B := Allocated();
      var victim := Bk(hi, BinAt(1));
      while mem == 0 && victim != BinAt(1)
        invariant Ready() && maxFast == old(maxFast) && Granted(B, Allocated(), mem, nb)
        invariant mem == 0 ==> victim == Bk(hi, BinAt(1))
        invariant mem != 0 ==> Chosen(old(lastRemainder), lastRemainder, heap, Mem2Chunk(mem), nb, via)
        invariant mem == 0 && nb < 256 ==> heap.bins[nb / 8] == []
        invariant mem == 0 ==> lastRemainder == old(lastRemainder)
        invariant NoneFits(old(heap), nb) ==> mem == 0 && NoneFits(heap, nb)
        invariant if mem == 0 then Unserved(old(heap), heap, nb) else OldestTaken(old(heap), nb, mem)
        invariant heap.fasts == old(heap.fasts)
        invariant Saved(old(lo), old(hi), lo, hi, B)
        decreases mem == 0, |heap.bins[1]|
      {
        ghost var lo1, hi1, h1 := lo, hi, heap;
        mem, via := ProcessOne(nb, victim);
        if mem == 0 { UnservedStep(old(heap), h1, nb, heap); } else { ServedOldest(old(heap), h1, nb, mem); }
        SavedTrans(old(lo), old(hi), lo1, hi1, lo, hi, B);
        victim := Bk(hi, BinAt(1));
      }
      LastOf(heap, 1);
      if mem == 0 { UnservedEnd(old(heap), heap, nb); }
    }

    // -------------------------------------------------------- best fit

    /** Hand out the victim, split if the rest is large enough to be a chunk. */
    method Serve(victim: int, size: nat, nb: nat) returns (mem: int)
      requires Serving(victim) && size == heap.ck[victim].size >= nb && heap.bins[1] == []
      requires MINSIZE <= nb && nb % 8 == 0 && Fits(heap, nb, size)
      modifies this`lo, this`hi, this`heap, this`lastRemainder
      ensures Ready() && mem != 0 && Granted(old(Allocated()), Allocated(), mem, nb)
      ensures Chosen(old(lastRemainder), lastRemainder, heap, Mem2Chunk(mem), nb, ViaBin(size))
      ensures heap.fasts == old(heap.fasts)
      ensures mem == victim + 2 * SIZE_SZ
      ensures Saved(old(lo), old(hi), lo, hi, old(Allocated()))
    {
      PlaceOf(heap, victim);
      mem := victim + 2 * SIZE_SZ;
      if size - nb < MINSIZE {
        Exhaust(victim, size);
      } else {
        SplitOff(victim, size, nb);
        if nb < 256 {
          lastRemainder := victim + nb;
        }
      }
    }

    /** unlink(victim), then hand it out. */
    method UnlinkAndServe(victim: int, size: nat, nb: nat) returns (mem: int)
      requires Ready() && victim in heap.ck && heap.ck[victim].st.Binned? && size == heap.ck[victim].size >= nb
      requires heap.bins[1] == [] && MINSIZE <= nb && nb % 8 == 0 && Fits(heap, nb, size)
      modifies this`lo, this`hi, this`heap, this`lastRemainder
      ensures Ready() && mem != 0 && Granted(old(Allocated()), Allocated(), mem, nb)
      ensures Chosen(old(lastRemainder), lastRemainder, heap, Mem2Chunk(mem), nb, ViaBin(size))
      ensures heap.fasts == old(heap.fasts)
      ensures mem == victim + 2 * SIZE_SZ
      ensures Saved(old(lo), old(hi), lo, hi, old(Allocated()))
    {
      ghost var map0, bins0 := binmap, heap.bins;
      ghost var B := Allocated();
      var fwd, bck := Fd(lo, victim), Bk(hi, victim);
      ghost var k;
      heap, k := UnlinkVictim(heap, victim);
      hi := hi[fwd + 8 := bck];
      lo := lo[bck + 8 := fwd];
      MapFewer(map0, bins0, heap.bins);
      ghost var lo1, hi1 := lo, hi;
      mem := Serve(victim, size, nb);
      SavedTrans(old(lo), old(hi), lo1, hi1, lo, hi, B);
    }

    /** Large requests: scan the bin of the request from its smallest chunk up. */
    method ScanLargeBin(nb: nat, idx: nat) returns (mem: int, ghost via: Path)
      requires Ready() && 256 <= nb < WORD && nb % 8 == 0 && idx == IndexOf(nb) && heap.bins[1] == []
      modifies this`lo, this`hi, this`heap, this`lastRemainder
      ensures Ready() && Granted(old(Allocated()), Allocated(), mem, nb)
      ensures mem != 0 ==> Chosen(old(lastRemainder), lastRemainder, heap, Mem2Chunk(mem), nb, via)
      ensures mem == 0 ==> heap == old(heap) && BelowUnfit(heap, nb, idx) && lastRemainder == old(lastRemainder)
      ensures NoneFits(old(heap), nb) ==> mem == 0
      ensures heap.fasts == old(heap.fasts)
      ensures mem != 0 ==> LastFit(old(heap), idx, nb, Mem2Chunk(mem))
      ensures Saved(old(lo), old(hi), lo, hi, old(Allocated()))
    {
      var victim, size := FirstFitting(nb, idx);
      if size == 0 {
        mem, via := 0, Failed;
        SavedSame(lo, hi, Allocated());
      } else {
        mem := UnlinkAndServe(victim, size, nb);
        via := ViaBin(size);
      }
    }

    /** The smallest chunk of the bin that fits, with its size; size 0 if there is none. */
    method FirstFitting(nb: nat, idx: nat) returns (victim: int, size: nat)
      requires Ready() && 256 <= nb < WORD && nb % 8 == 0 && idx == IndexOf(nb) && heap.bins[1] == []
      ensures size == 0 ==> BelowUnfit(heap, nb, idx)
      ensures size != 0 ==> LastFit(heap, idx, nb, victim)
      ensures size != 0 ==> victim in heap.ck && heap.ck[victim].st.Binned? && size == heap.ck[victim].size >= nb && Fits(heap, nb, size)
    {
      IndexRange(nb);
      var bin := BinAt(idx);
      victim := Bk(hi, bin);
      ghost var L := heap.bins[idx];
      ghost var k := |L|;
      LastOf(heap, idx);
      BinHeaderOutside(heap, idx);
      while victim != bin
        invariant 0 <= k <= |L| && victim == Before(bin, L, k)
        invariant forall m :: k <= m < |L| ==> L[m] in heap.ck && heap.ck[L[m]].size < nb
        decreases k
      {
        k := k - 1;
        Neighbours(heap, idx, k);
        ReadHead(heap, victim);
        size := ChunkSize(Rd(hi, victim));
        if size >= nb {
          LargeFits(heap, nb, idx, k);
          return;
        }
        victim := Bk(hi, victim);
      }
      assert k == 0 by {
        if k > 0 { Neighbours(heap, idx, k - 1); }
      }
      LargeUnfit(heap, nb, idx, k);
      size := 0;
    }

    // ------------------------------------------------ the larger bins

    /** Advances to the next bin whose bit is set, skipping words of binmap without one. */
    method NextMarked(block0: nat, word0: nat, bit0: nat, bin0: int, ghost k0: nat)
      returns (found: bool, block: nat, word: nat, bit: nat, bin: int, ghost k: nat)
      requires Ready() && block0 <= 3 && word0 == binmap[block0] && k0 <= 32 && bin0 == BinAt(32 * block0 + k0)
      requires bit0 == (if k0 == 32 then 0 else Pow2(k0))
      ensures found ==> && block < 3 && k < 32 && word == binmap[block] && bit == Pow2(k) && Bit(word, k)
                        && bin == BinAt(32 * block + k) && 32 * block0 + k0 <= 32 * block + k
                        && NoneMarked(heap.bins, 32 * block0 + k0, 32 * block + k)
      ensures !found ==> NoneMarked(heap.bins, 32 * block0 + k0, NBINS)
    {
      block, word, bit, bin, k := block0, word0, bit0, bin0, k0;
      if bit > word || bit == 0 {
        SkipRest(binmap, heap.bins, block, k);
        block := block + 1;
        while block < 3 && binmap[block] == 0
          invariant block0 < block
          invariant NoneMarked(heap.bins, 32 * block0 + k0, 32 * block)
        {
          SkipRest(binmap, heap.bins, block, 0);
          block := block + 1;
        }
        if block >= 3 {
          found := false;
          return;
        }
        word, bit, k := binmap[block], 1, 0;
        bin := BinAt(32 * block);
      }
      while And(bit, word) == 0
        invariant k < 32 && bit == Pow2(k) <= word && bin == BinAt(32 * block + k) && 32 * block0 + k0 <= 32 * block + k
        invariant NoneMarked(heap.bins, 32 * block0 + k0, 32 * block + k)
        decreases 32 - k
      {
        SkipOne(binmap, heap.bins, block, k);
        bin := bin + 8;
        bit := Shl32(bit, 1);
        k := k + 1;
      }
      TestBit(bit, word, k);
      found := true;
    }

    /** unmark_bin: the bin turned out to be empty. */
    method Unmark(block: nat, word: nat, bit: nat, ghost k: nat) returns (word': nat)
      requires MapOk(binmap, heap.bins) && block < 3 && k < 32 && word == binmap[block] && bit == Pow2(k)
      requires NoneMarked(heap.bins, 32 * block + k, 32 * block + k + 1)
      modifies this`binmap
      ensures MapOk(binmap, heap.bins) && word' == binmap[block]
    {
      ghost var map0 := binmap;
      word' := AndNot(word, bit);
      binmap := binmap[block := word'];
      UnmarkOk(map0, heap.bins, block, k);
    }

    /** Search the bins above idx, guided by the bitmap, for the smallest chunk there. */
    method SearchBins(nb: nat, idx: nat) returns (mem: int, ghost via: Path)
      requires Ready() && MINSIZE <= nb < WORD && nb % 8 == 0 && idx == IndexOf(nb) && 2 <= idx < NBINS
      requires heap.bins[1] == [] && BelowUnfit(heap, nb, idx)
      modifies this`lo, this`hi, this`heap, this`lastRemainder, this`binmap
      ensures Ready() && Granted(old(Allocated()), Allocated(), mem, nb)
      ensures mem != 0 ==> Chosen(old(lastRemainder), lastRemainder, heap, Mem2Chunk(mem), nb, via)
      ensures mem == 0 ==> heap == old(heap) && NoneFits(heap, nb) && lastRemainder == old(lastRemainder)
      ensures NoneFits(old(heap), nb) ==> mem == 0
      ensures heap.fasts == old(heap.fasts)
      ensures mem != 0 ==> LastOfNext(old(heap), idx, Mem2Chunk(mem))
      ensures Saved(old(lo), old(hi), lo, hi, old(Allocated()))
    {
      var bin := FirstMarked(idx);
      if bin == 0 {
        mem, via := 0, Failed;
        AllUnfit(heap, nb, idx);
        SavedSame(lo, hi, Allocated());
      } else {
        var victim := Bk(hi, bin);
        ghost var i := (bin - BinAt(0)) / 8;
        LastOf(heap, i);
        ReadHead(heap, victim);
        var size := ChunkSize(Rd(hi, victim));
        SmallestAbove(heap, nb, idx, i);
        mem := UnlinkAndServe(victim, size, nb);
        via := ViaBin(size);
      }
    }

    /** The first nonempty bin above idx, or 0; bits of empty bins met on the way are cleared. */
    method FirstMarked(idx: nat) returns (bin: int)
      requires Ready() && 2 <= idx < NBINS
      modifies this`binmap
      ensures Ready()
      ensures bin == 0 ==> NoneMarked(heap.bins, idx + 1, NBINS)
      ensures bin != 0 ==> exists i {:trigger heap.bins[i]} :: idx < i < NBINS && bin == BinAt(i) && heap.bins[i] != []
                                                              && NoneMarked(heap.bins, idx + 1, i)
    {
      var block := (idx + 1) / 32;
      var word := binmap[block];
      var bit := Pow2((idx + 1) % 32);
      bin := BinAt(idx + 1);
      ghost var k: nat := (idx + 1) % 32;
      while true
        invariant Ready() && block <= 3 && k <= 32 && word == binmap[block] && bin == BinAt(32 * block + k)
        invariant bit == (if k == 32 then 0 else Pow2(k))
        invariant idx + 1 <= 32 * block + k && NoneMarked(heap.bins, idx + 1, 32 * block + k)
        decreases 128 - 32 * block - k
      {
        var found;
        found, block, word, bit, bin, k := NextMarked(block, word, bit, bin, k);
        if !found {
          return 0;
        }
        LastOf(heap, 32 * block + k);
        if Bk(hi, bin) != bin {
          return;
        }
        word := Unmark(block, word, bit, k);
        bin := bin + 8;
        NextBit(k);
        bit := Shl32(bit, 1);
        k := k + 1;
      }
    }

    // ---------------------------------------------------------------- top

    /** Split the first nb bytes off top. */
    method CarveTop(nb: nat, size: int) returns (mem: int)
      requires Ready() && MINSIZE <= nb && nb % 8 == 0 && size == curptr - top >= nb + MINSIZE
      modifies this`hi, this`top, this`heap
      ensures Ready() && Granted(old(Allocated()), Allocated(), mem, nb)
      ensures mem == old(top) + 2 * SIZE_SZ && mem > 0 && Allocated()[old(top)] == nb && top == old(top) + nb && curptr == old(curptr)
      ensures NoneFits(old(heap), nb) ==> Chosen(old(lastRemainder), lastRemainder, heap, Mem2Chunk(mem), nb, ViaTop)
      ensures heap.fasts == old(heap.fasts)
      ensures Saved(old(lo), old(hi), lo, hi, old(Allocated()))
    {
      var victim := top;
      var remainderSize := size - nb;
      var remainder := victim + nb;
      heap := TopCutMove(heap, nb);
      top := remainder;
      hi := hi[victim := nb + 1];
      hi := hi[remainder := remainderSize + 1];
      mem := victim + 2 * SIZE_SZ;
    }

    /** MORECORE extended the heap contiguously: top grows. */
    method ExtendTop(size: int, oldSize: int)
      requires 0 <= size && size % 8 == 0 && oldSize == heap.brk - top && curptr == heap.brk + size <= memHeapEnd < WORD
      requires InOrder() && sbrkedMem == curptr - memHeap
      modifies this`hi, this`heap, this`maxSbrkedMem
      ensures Ready() && Allocated() == old(Allocated()) && heap.ck == old(heap.ck)
      ensures Saved(old(lo), old(hi), lo, hi, old(Allocated()))
    {
      heap := TopGrowMove(heap, curptr);
      hi := hi[top := size + oldSize + 1];
      if sbrkedMem > maxSbrkedMem {
        maxSbrkedMem := sbrkedMem;
      }
    }

    /** The second MORECORE call, which completes the last page if there is room for it.
        The heap area starts aligned, so nothing is skipped at the front. */
    method PageAlignEnd(brk: int, size: int) returns (topSize: int)
      requires brk == memHeap && 0 < memHeap && memHeap % 8 == 0 && curptr == brk + size <= memHeapEnd < WORD
      requires 0 < size && size % PAGESIZE == 0 && sbrkedMem == size
      modifies this`curptr, this`sbrkedMem
      ensures curptr == PageEnd(old(curptr), memHeapEnd)
      ensures size <= topSize == sbrkedMem == curptr - brk && topSize % 8 == 0 && curptr <= memHeapEnd
    {
      var frontMisalign := (brk + 2 * SIZE_SZ) % 8;
      assert frontMisalign == 0;
      PageOctets(brk, size);
      var correction := PageCorrection((brk + size) % WORD);
      CorrectionEnds(curptr, memHeapEnd);
      var sndBrk := Sbrk(correction);
      if sndBrk == MORECORE_FAILURE {
        correction := 0;
        sndBrk := Sbrk(0);
      }
      topSize := sndBrk - brk + correction;
      assert topSize == size + correction;
      Arith.Octets(size, correction);
      sbrkedMem := sbrkedMem + correction;
    }

    static lemma PageOctets(brk: nat, size: nat)
      requires brk % 8 == 0 && size % PAGESIZE == 0 && brk + size < WORD
      ensures (brk + size) % WORD == brk + size && size % 8 == 0 && (brk + size) % 8 == 0
    {
    }

    /** First memory from MORECORE: align both ends, and make it all top. */
    method FirstTop(brk: int, size: int)
      requires FirstTime(BinAt(1)) && brk == memHeap && curptr == brk + size <= memHeapEnd < WORD
      requires 0 < size && size % PAGESIZE == 0 && sbrkedMem == size
      modifies this`hi, this`top, this`heap, this`curptr, this`sbrkedMem, this`maxSbrkedMem
      ensures curptr == PageEnd(old(curptr), memHeapEnd)
      ensures Ready() && heap.ck == map[] && curptr - top >= size
    {
      var topSize := PageAlignEnd(brk, size);
      StartTop(brk, topSize);
    }

    /** All memory from brk on is top. */
    method StartTop(brk: int, topSize: int)
      requires FirstTime(BinAt(1)) && brk == memHeap && topSize % 8 == 0 && MINSIZE <= topSize
      requires topSize == sbrkedMem == curptr - memHeap && curptr <= memHeapEnd < WORD
      modifies this`hi, this`top, this`heap, this`maxSbrkedMem
      ensures Ready() && heap.ck == map[] && top == brk
    {
      top := brk;
      hi := hi[top := topSize + 1];
      if sbrkedMem > maxSbrkedMem {
        maxSbrkedMem := sbrkedMem;
      }
      heap := Bare(lo, hi, fb, top, curptr);
      BareGood(lo, hi, top, curptr);
      BareAdmin(binmap, fb);
    }

    /** use_top: cut top if it is large enough, else relay to the system. */
    method UseTop(nb: nat) returns (mem: int, ghost via: Path)
      requires (NoMemory() || Ready()) && MINSIZE <= nb <= WORD - 2 * MINSIZE + 8 && nb % 8 == 0
      requires NoneFits(heap, nb) && (nb >= 256 ==> !HaveFastchunks(maxFast))
      modifies this
      ensures Ok() && maxFast != 0 && Granted(old(Allocated()), Allocated(), mem, nb)
      ensures mem != 0 ==> Ready() && Chosen(old(lastRemainder), lastRemainder, heap, Mem2Chunk(mem), nb, via)
      ensures mem == 0 ==> Starved(nb)
      ensures !old(HaveFastchunks(maxFast)) ==> (mem == 0 <==> old(Starved(nb)))
      ensures !old(HaveFastchunks(maxFast)) ==> !HaveFastchunks(maxFast)
      ensures old(Roomy(nb)) ==> heap.fasts == old(heap.fasts)
      ensures Saved(old(lo), old(hi), lo, hi, old(Allocated()))
      decreases HaveFastchunks(maxFast), 2
    {
      if NoMemory() { assert ChunkSize(0) == 0; } else { ReadTop(heap); }
      var size := ChunkSize(Rd(hi, top));
      if size >= nb + MINSIZE {
        mem := CarveTop(nb, size);
        via := ViaTop;
      } else {
        mem, via := SysMalloc(nb);
      }
    }

    /** Top is large enough for a request of nb bytes. */
    ghost predicate Roomy(nb: nat)
      reads this
    {
      Ready() && curptr - top >= nb + MINSIZE
    }

    /** sbrk has no room for what a request of nb bytes lacks. */
    ghost predicate Refused(nb: nat, oldSize: nat)
      requires nb + MINSIZE <= WORD && oldSize < nb + MINSIZE
      reads this
    {
      var size := MoreCoreSize(nb, oldSize);
      size == 0 || size >= 0x8000_0000 || curptr + size > memHeapEnd
    }

    /** No way to serve nb bytes: nothing is left to consolidate, no binned chunk fits, top is too small, and sbrk refuses. */
    ghost predicate Starved(nb: nat)
      reads this
    {
      && (NoMemory() || Ready()) && !HaveFastchunks(maxFast) && nb + MINSIZE <= WORD && NoneFits(heap, nb)
      && 0 <= ChunkSize(Rd(hi, top)) < nb + MINSIZE && Refused(nb, ChunkSize(Rd(hi, top)))
    }

    /** Memory came back from sbrk: top grows by it, or is made of it the first time. */
    method GainTop(brk: int, size: int, oldEnd: int, oldSize: int, ghost first: bool)
      requires 0 < size && size % PAGESIZE == 0 && curptr == brk + size <= memHeapEnd < WORD && sbrkedMem == curptr - memHeap
      requires if first then FirstTime(oldEnd) && oldEnd != brk == memHeap && oldSize == 0
               else oldEnd == brk == heap.brk && oldSize == heap.brk - top && InOrder()
      modifies this`hi, this`top, this`heap, this`curptr, this`sbrkedMem, this`maxSbrkedMem
      ensures curptr == if first then PageEnd(old(curptr), memHeapEnd) else old(curptr)
      ensures Ready() && heap.ck == old(heap.ck) && curptr - top >= size + oldSize
      ensures !first ==> Saved(old(lo), old(hi), lo, hi, old(Allocated()))
    {
      if brk == oldEnd {
        ExtendTop(size, oldSize);
      } else {
        FirstTop(brk, size);
      }
    }

    /** As NoMemory, with the break already moved. */
    ghost predicate FirstTime(oldEnd: int)
      reads this
    {
      && HEAP_MIN <= memHeap && memHeap % 8 == 0 && oldEnd == BinAt(1) && maxSbrkedMem == 0 && heap.ck == map[]
      && maxFast == MAX_FAST && fb == seq(NFASTBINS, _ => 0) && binmap == [0, 0, 0, 0] && EmptyRings(lo, hi)
    }

    /** As Ready, with the break already moved. */
    ghost predicate InOrder()
      reads this
    {
      && heap.lo == lo && heap.hi == hi && heap.top == top && heap.fb == fb && Good(heap, {})
      && FlagsOk(maxFast, heap.bins, heap.fasts) && MapOk(binmap, heap.bins) && heap.start == memHeap
    }

    /** Ask sbrk for room for nb bytes beyond what top has; false if it refuses. */
    method MoreCore(nb: nat, oldSize: nat) returns (ok: bool)
      requires (NoMemory() || Ready()) && MINSIZE <= nb <= WORD - 2 * MINSIZE + 8 && nb % 8 == 0
      requires oldSize == ChunkSize(Rd(hi, top)) < nb + MINSIZE
      modifies this`hi, this`top, this`heap, this`curptr, this`sbrkedMem, this`maxSbrkedMem
      ensures !ok ==> (NoMemory() || Ready()) && heap == old(heap) && hi == old(hi) && top == old(top) && Refused(nb, oldSize)
      ensures ok ==> Ready() && curptr - top >= nb + MINSIZE && old(!Refused(nb, oldSize))
      ensures ok ==> var e := old(curptr) + MoreCoreSize(nb, oldSize); curptr == if old(NoMemory()) then PageEnd(e, memHeapEnd) else e
      ensures !ok ==> curptr == old(curptr)
      ensures heap.ck == old(heap.ck)
      ensures Saved(old(lo), old(hi), lo, hi, old(Allocated()))
    {
      if NoMemory() { assert ChunkSize(0) == 0 && Allocated() == map[]; } else { ReadTop(heap); }
      SavedSame(lo, hi, Allocated());
      var oldEnd := top + oldSize;
      var size := MoreCoreSize(nb, oldSize);
      var brk := MORECORE_FAILURE;
      if 0 < size < 0x8000_0000 {
        brk := Sbrk(size);
      }
      ok := brk != MORECORE_FAILURE;
      if ok {
        sbrkedMem := sbrkedMem + size;
        GainTop(brk, size, oldEnd, oldSize, top == BinAt(1));
      }
    }

    /** sYSMALLOc */
    method SysMalloc(nb: nat) returns (mem: int, ghost via: Path)
      requires (NoMemory() || Ready()) && MINSIZE <= nb <= WORD - 2 * MINSIZE + 8 && nb % 8 == 0
      requires NoneFits(heap, nb) && (nb >= 256 ==> !HaveFastchunks(maxFast))
      requires ChunkSize(Rd(hi, top)) < nb + MINSIZE
      modifies this
      ensures Ok() && maxFast != 0 && Granted(old(Allocated()), Allocated(), mem, nb)
      ensures mem != 0 ==> Ready() && Chosen(old(lastRemainder), lastRemainder, heap, Mem2Chunk(mem), nb, via)
      ensures mem == 0 ==> Starved(nb)
      ensures !old(HaveFastchunks(maxFast)) ==> (mem == 0 <==> old(Starved(nb)))
      ensures !old(HaveFastchunks(maxFast)) ==> !HaveFastchunks(maxFast)
      ensures Saved(old(lo), old(hi), lo, hi, old(Allocated()))
      decreases HaveFastchunks(maxFast), 1
    {
      ghost var B := Allocated();
      if HaveFastchunks(maxFast) {
        mem, via := Retry(nb);
        return;
      }
      assert ChunkSize(0) == 0;
      var oldSize := ChunkSize(Rd(hi, top));
      var ok := MoreCore(nb, oldSize);
      mem, via := 0, Failed;
      if ok {
        ghost var lo1, hi1 := lo, hi;
        ReadTop(heap);
        var size := ChunkSize(Rd(hi, top));
        if size >= nb + MINSIZE {
          mem := CarveTop(nb, size);
          via := ViaTop;
          SavedTrans(old(lo), old(hi), lo1, hi1, lo, hi, B);
        }
      }
    }

    /** Consolidate, and try again. */
    method Retry(nb: nat) returns (mem: int, ghost via: Path)
      requires Ready() && HaveFastchunks(maxFast) && MINSIZE <= nb < 256 && nb % 8 == 0
      modifies this
      ensures Ok() && maxFast != 0 && Granted(old(Allocated()), Allocated(), mem, nb)
      ensures mem != 0 ==> Ready() && Chosen(old(lastRemainder), lastRemainder, heap, Mem2Chunk(mem), nb, via)
      ensures mem == 0 ==> Starved(nb)
      ensures Saved(old(lo), old(hi), lo, hi, old(Allocated()))
      decreases HaveFastchunks(maxFast), 0
    {
      ghost var B := Allocated();
      Consolidate();
      ghost var lo1, hi1 := lo, hi;
      RetryRequest(nb);
      mem, via := Malloc(nb - 7);
      SavedTrans(old(lo), old(hi), lo1, hi1, lo, hi, B);
    }

    /** mALLOc */
    method Malloc(bytes: nat) returns (mem: int, ghost via: Path)
      requires Ok() && bytes < WORD
      modifies this
      ensures Ok() && (maxFast == 0 ==> old(maxFast) == 0)
      ensures Granted(old(Allocated()), Allocated(), mem, Request(bytes))
      ensures mem != 0 ==> !OutOfRange(bytes) && Ready() && BestFit(old(heap), old(lastRemainder), lastRemainder, heap, Mem2Chunk(mem), Request(bytes), via)
      ensures mem == 0 ==> OutOfRange(bytes) || Starved(Request(bytes))
      ensures OutOfRange(bytes) || old(Starved(Request(bytes))) ==> mem == 0
      ensures mem != 0 && !via.ViaFastbin? ==> SmallFirst(old(heap), Request(bytes), mem)
      ensures mem == 0 && !OutOfRange(bytes) ==> NoFastFit(old(heap), Request(bytes))
      ensures !OutOfRange(bytes) && Request(bytes) >= 256 ==> !HaveFastchunks(maxFast)
      ensures Request(bytes) < 256 && old(Roomy(Request(bytes))) && !via.ViaFastbin? ==> heap.fasts == old(heap.fasts)
      ensures Saved(old(lo), old(hi), lo, hi, old(Allocated()))
      decreases HaveFastchunks(maxFast), 5
    {
      if OutOfRange(bytes) {
        SavedSame(lo, hi, Allocated());
        return 0, Failed;
      }
      var nb := Request(bytes);
      if !HaveAnychunks(maxFast) {
        if maxFast == 0 {
          InitState();
        }
        if Ready() { NoFreeChunks(heap, maxFast); }
        mem, via := UseTop(nb);
      } else {
        mem, via := MallocFromBins(nb);
      }
    }

    /** A fastbin of the request's size, if it holds a chunk, serves it. */
    method FromFastbin(nb: nat) returns (mem: int)
      requires Ready() && MINSIZE <= nb <= maxFast && nb % 8 == 0
      modifies this`fb, this`heap
      ensures Ready() && Granted(old(Allocated()), Allocated(), mem, nb)
      ensures mem != 0 ==> BestFit(old(heap), lastRemainder, lastRemainder, heap, Mem2Chunk(mem), nb, ViaFastbin)
      ensures mem == 0 ==> heap == old(heap) && fb == old(fb) && NoFastFit(heap, nb)
    {
      assert Pow2(3) == 8;
      var j := Shr(nb, 3) - 2;
      var victim := fb[j];
      FastbinFits(heap, nb);
      mem := 0;
      if victim != 0 {
        heap := PopMove(heap, j);
        fb := fb[j := Fd(lo, victim)];
        PlaceOf(heap, victim);
        mem := victim + 2 * SIZE_SZ;
      }
    }

    /** The small bin of the request's size, if it holds a chunk, serves it from its end. */
    method FromSmallBin(nb: nat) returns (mem: int)
      requires Ready() && MINSIZE <= nb < 256 && nb % 8 == 0
      modifies this`lo, this`hi, this`heap
      ensures Ready() && Granted(old(Allocated()), Allocated(), mem, nb)
      ensures mem == 0 ==> heap == old(heap) && lo == old(lo) && hi == old(hi) && heap.bins[nb / 8] == []
      ensures mem != 0 ==> Chosen(old(lastRemainder), lastRemainder, heap, Mem2Chunk(mem), nb, ViaBin(nb))
      ensures NoneFits(old(heap), nb) ==> mem == 0
      ensures heap.fasts == old(heap.fasts)
      ensures var L := old(heap).bins[nb / 8]; if L != [] then mem == L[|L| - 1] + 8 else mem == 0
      ensures Saved(old(lo), old(hi), lo, hi, old(Allocated()))
    {
      var idx := nb / 8;
      var bin := BinAt(idx);
      var victim := Bk(hi, bin);
      LastOf(heap, idx);
      SavedSame(lo, hi, Allocated());
      mem := 0;
      if victim != bin {
        SmallBinHas(heap, idx);
        mem := ServeLast(nb, bin, victim);
      }
    }

    /** The last chunk of the small bin is handed out. */
    method ServeLast(nb: nat, bin: int, victim: int) returns (mem: int)
      requires Ready() && MINSIZE <= nb < 256 && nb % 8 == 0 && bin == BinAt(nb / 8) && victim == Bk(hi, bin) != bin
      requires victim in heap.ck && heap.ck[victim].size == nb
      modifies this`lo, this`hi, this`heap
      ensures Ready() && Granted(old(Allocated()), Allocated(), mem, nb)
      ensures mem == victim + 2 * SIZE_SZ && mem != 0
      ensures Chosen(lastRemainder, lastRemainder, heap, Mem2Chunk(mem), nb, ViaBin(nb))
      ensures heap.fasts == old(heap.fasts)
      ensures Saved(old(lo), old(hi), lo, hi, old(Allocated()))
    {
      ghost var B := Allocated();
      UnlinkLast(nb / 8, bin, victim, Bk(hi, victim));
      ghost var lo1, hi1 := lo, hi;
      PlaceOf(heap, victim);
      Exhaust(victim, nb);
      SavedTrans(old(lo), old(hi), lo1, hi1, lo, hi, B);
      mem := victim + 2 * SIZE_SZ;
    }

    /** The search of mALLOc when some chunk has been freed before. */
    method MallocFromBins(nb: nat) returns (mem: int, ghost via: Path)
      requires Ready() && HaveAnychunks(maxFast) && MINSIZE <= nb <= WORD - 2 * MINSIZE + 8 && nb % 8 == 0
      modifies this
      ensures Ok() && maxFast != 0 && Granted(old(Allocated()), Allocated(), mem, nb)
      ensures mem != 0 ==> Ready() && BestFit(old(heap), old(lastRemainder), lastRemainder, heap, Mem2Chunk(mem), nb, via)
      ensures mem == 0 ==> Starved(nb)
      ensures old(Starved(nb)) ==> mem == 0
      ensures mem != 0 && !via.ViaFastbin? ==> SmallFirst(old(heap), nb, mem)
      ensures nb >= 256 ==> !HaveFastchunks(maxFast)
      ensures nb < 256 && old(Roomy(nb)) && !via.ViaFastbin? ==> heap.fasts == old(heap.fasts)
      ensures mem == 0 ==> NoFastFit(old(heap), nb)
      ensures Saved(old(lo), old(hi), lo, hi, old(Allocated()))
      decreases HaveFastchunks(maxFast), 4
    {
      ghost var B := Allocated();
      mem, via := FromExact(nb);
      if mem == 0 {
        ghost var lo1, hi1 := lo, hi;
        mem, via := MallocSlow(nb);
        SavedTrans(old(lo), old(hi), lo1, hi1, lo, hi, B);
      }
    }

    /** What mALLOc does before it looks at the unsorted chunks: a small request takes an exact fit
        from its fastbin or small bin; a large one consolidates the fastbins. */
    method FromExact(nb: nat) returns (mem: int, ghost via: Path)
      requires Ready() && HaveAnychunks(maxFast) && MINSIZE <= nb <= WORD - 2 * MINSIZE + 8 && nb % 8 == 0
      modifies this`lo, this`hi, this`heap, this`fb, this`top, this`maxFast
      ensures Ready() && HaveAnychunks(maxFast) && Granted(old(Allocated()), Allocated(), mem, nb)
      ensures mem != 0 ==> BestFit(old(heap), lastRemainder, lastRemainder, heap, Mem2Chunk(mem), nb, via)
      ensures mem == 0 ==> NoFastFit(old(heap), nb) && if nb < 256 then heap.bins[nb / 8] == [] else !HaveFastchunks(maxFast)
      ensures HaveFastchunks(maxFast) ==> old(HaveFastchunks(maxFast))
      ensures old(Starved(nb)) ==> mem == 0 && Starved(nb)
      ensures nb < 256 ==> if mem == 0 then heap == old(heap) && top == old(top)
                           else via.ViaFastbin? || (SmallFirst(old(heap), nb, mem) && heap.fasts == old(heap.fasts))
      ensures nb >= 256 ==> mem == 0 && !HaveFastchunks(maxFast)
      ensures Saved(old(lo), old(hi), lo, hi, old(Allocated()))
    {
      if nb < 256 {
        mem, via := FromSmall(nb);
      } else {
        FastbinFits(heap, nb);
        SavedSame(lo, hi, Allocated());
        mem, via := 0, Failed;
        if HaveFastchunks(maxFast) {
          Consolidate();
        }
      }
    }

    /** A small request: the fastbin of its size, then the small bin. */
    method FromSmall(nb: nat) returns (mem: int, ghost via: Path)
      requires Ready() && MINSIZE <= nb < 256 && nb % 8 == 0
      modifies this`lo, this`hi, this`heap, this`fb
      ensures Ready() && Granted(old(Allocated()), Allocated(), mem, nb)
      ensures mem != 0 ==> BestFit(old(heap), lastRemainder, lastRemainder, heap, Mem2Chunk(mem), nb, via)
      ensures mem != 0 ==> via.ViaFastbin? || (SmallFirst(old(heap), nb, mem) && heap.fasts == old(heap.fasts))
      ensures mem == 0 ==> NoFastFit(old(heap), nb) && heap.bins[nb / 8] == [] && heap == old(heap) && hi == old(hi)
      ensures NoFastFit(old(heap), nb) && NoneFits(old(heap), nb) ==> mem == 0
      ensures Saved(old(lo), old(hi), lo, hi, old(Allocated()))
    {
      FastbinFits(heap, nb);
      SavedSame(lo, hi, Allocated());
      if nb <= maxFast {
        mem := FromFastbin(nb);
        if mem != 0 {
          return mem, ViaFastbin;
        }
      }
      mem := FromSmallBin(nb);
      via := ViaBin(nb);
    }

    /** Sort out the unsorted chunks, then take the best fit, and top if there is none. */
    method MallocSlow(nb: nat) returns (mem: int, ghost via: Path)
      requires Ready() && HaveAnychunks(maxFast) && MINSIZE <= nb <= WORD - 2 * MINSIZE + 8 && nb % 8 == 0
      requires if nb < 256 then heap.bins[nb / 8] == [] else !HaveFastchunks(maxFast)
      modifies this
      ensures Ok() && maxFast != 0 && Granted(old(Allocated()), Allocated(), mem, nb)
      ensures mem != 0 ==> Ready() && Chosen(old(lastRemainder), lastRemainder, heap, Mem2Chunk(mem), nb, via)
      ensures mem == 0 ==> Starved(nb)
      ensures old(Starved(nb)) ==> mem == 0
      ensures OldestTaken(old(heap), nb, mem)
      ensures !old(HaveFastchunks(maxFast)) ==> !HaveFastchunks(maxFast)
      ensures old(Roomy(nb)) ==> heap.fasts == old(heap.fasts)
      ensures Saved(old(lo), old(hi), lo, hi, old(Allocated()))
      decreases HaveFastchunks(maxFast), 3
    {
      ghost var B := Allocated();
      mem, via := FromBins(nb);
      if mem == 0 {
        ghost var lo1, hi1 := lo, hi;
        mem, via := UseTop(nb);
        SavedTrans(old(lo), old(hi), lo1, hi1, lo, hi, B);
      }
    }

    /** A chunk from the unsorted list, or else the best fit from the bins. */
    method FromBins(nb: nat) returns (mem: int, ghost via: Path)
      requires Ready() && HaveAnychunks(maxFast) && MINSIZE <= nb <= WORD - 2 * MINSIZE + 8 && nb % 8 == 0
      requires nb < 256 ==> heap.bins[nb / 8] == []
      modifies this`lo, this`hi, this`heap, this`lastRemainder, this`binmap
      ensures Ready() && Granted(old(Allocated()), Allocated(), mem, nb)
      ensures mem != 0 ==> Chosen(old(lastRemainder), lastRemainder, heap, Mem2Chunk(mem), nb, via)
      ensures mem == 0 ==> NoneFits(heap, nb) && lastRemainder == old(lastRemainder)
      ensures old(Starved(nb)) ==> mem == 0 && Starved(nb)
      ensures heap.fasts == old(heap.fasts)
      ensures OldestTaken(old(heap), nb, mem)
      ensures mem == 0 ==> NoOldest(old(heap), nb)
      ensures Saved(old(lo), old(hi), lo, hi, old(Allocated()))
    {
      ghost var B := Allocated();
      ReadTop(heap);
      mem, via := ProcessUnsorted(nb);
      if mem == 0 {
        ghost var lo1, hi1 := lo, hi;
        mem, via := SearchAll(nb);
        SavedTrans(old(lo), old(hi), lo1, hi1, lo, hi, B);
        ReadTop(heap);
      }
    }

    /** All the sorted bins, from the one of the request up. */
    method SearchAll(nb: nat) returns (mem: int, ghost via: Path)
      requires Ready() && MINSIZE <= nb < WORD && nb % 8 == 0 && heap.bins[1] == []
      requires nb < 256 ==> heap.bins[nb / 8] == []
      modifies this`lo, this`hi, this`heap, this`lastRemainder, this`binmap
      ensures Ready() && Granted(old(Allocated()), Allocated(), mem, nb)
      ensures mem != 0 ==> Chosen(old(lastRemainder), lastRemainder, heap, Mem2Chunk(mem), nb, via)
      ensures mem == 0 ==> NoneFits(heap, nb) && lastRemainder == old(lastRemainder)
      ensures NoneFits(old(heap), nb) ==> mem == 0
      ensures heap.fasts == old(heap.fasts)
      ensures Saved(old(lo), old(hi), lo, hi, old(Allocated()))
    {
      ghost var B := Allocated();
      var idx := BinIndex(nb);
      SavedSame(lo, hi, B);
      if nb < 256 {
        LowerUnfit(heap, nb, idx);
      } else {
        mem, via := ScanLargeBin(nb, idx);
        if mem != 0 {
          return;
        }
      }
      ghost var lo1, hi1 := lo, hi;
      mem, via := SearchBins(nb, idx);
      SavedTrans(old(lo), old(hi), lo1, hi1, lo, hi, B);
    }

    // ------------------------------------------------------------ realloc

    /** As Ready, but the block p counts as size bytes already, its head yet to be stored. */
    ghost predicate Widened(p: int, size: int)
      reads this
    {
      && heap.lo == lo && heap.hi == Resized(hi, p, size) && heap.top == top && heap.brk == curptr && heap.fb == fb
      && Good(heap, {}) && p in heap.ck && heap.ck[p].st.Live? && heap.ck[p].size == size
      && FlagsOk(maxFast, heap.bins, heap.fasts) && MapOk(binmap, heap.bins) && Accounts()
    }

    /** Keep nb bytes of the block, and free the extra space if it can be a chunk. */
    method Trim(newp: int, newsize: int, nb: nat) returns (mem: int)
      requires Widened(newp, newsize) && MINSIZE <= nb <= newsize && nb % 8 == 0
      modifies this`lo, this`hi, this`curptr, this`maxFast, this`fb, this`top, this`heap
      ensures Ready() && mem == newp + 2 * SIZE_SZ
      ensures Allocated() == Blocks(old(heap))[newp := if newsize - nb < MINSIZE then newsize else nb]
      ensures newsize - nb >= MINSIZE ==> GivenBack(old(heap).fasts, newp + nb, newsize - nb, heap)
      ensures Saved(old(heap).lo, old(heap).hi, lo, hi, Allocated())
    {
      mem := newp + 2 * SIZE_SZ;
      var remainderSize := newsize - nb;
      if remainderSize < MINSIZE {
        hi := hi[newp := newsize + Rd(hi, newp) % 2];
        hi := hi[newp + newsize := WithInuse(Rd(hi, newp + newsize))];
        SavedSame(lo, hi, Allocated());
      } else {
        SplitAndFree(newp, newsize, nb);
      }
    }

    /** Split the remainder off the block and mark it in use. */
    method SplitLive(newp: int, newsize: int, nb: nat)
      requires Widened(newp, newsize) && MINSIZE <= nb && nb % 8 == 0 && MINSIZE <= newsize - nb
      modifies this`hi, this`heap
      ensures Ready() && Allocated() == Blocks(old(heap))[newp := nb][newp + nb := newsize - nb]
      ensures newp + nb !in Blocks(old(heap)) && heap.fasts == old(heap).fasts
      ensures Saved(old(heap).lo, old(heap).hi, lo, hi, Blocks(old(heap))[newp := nb])
    {
      heap := CutWidened(heap, newp, nb, hi);
      hi := SplitTags(hi, newp, nb, newsize);
    }

    /** Split the remainder off the block, and free it. */
    method SplitAndFree(newp: int, newsize: int, nb: nat)
      requires Widened(newp, newsize) && MINSIZE <= nb && nb % 8 == 0 && MINSIZE <= newsize - nb
      modifies this`lo, this`hi, this`curptr, this`maxFast, this`fb, this`top, this`heap
      ensures Ready() && Allocated() == Blocks(old(heap))[newp := nb]
      ensures GivenBack(old(heap).fasts, newp + nb, newsize - nb, heap)
      ensures Saved(old(heap).lo, old(heap).hi, lo, hi, Allocated())
    {
      ghost var lo0, hi0 := heap.lo, heap.hi;
      ghost var B := Blocks(heap)[newp := nb];
      SplitLive(newp, newsize, nb);
      ghost var lo1, hi1 := lo, hi;
      FreeAndNote(newp + nb, newsize - nb);
      assert B[newp + nb := newsize - nb] - {newp + nb} == B;
      SavedTrans(lo0, hi0, lo1, hi1, lo, hi, B);
    }

    /** The block is already big enough. */
    method ShrinkBlock(oldp: int, oldsize: nat, nb: nat) returns (mem: int)
      requires Ready() && oldp in Allocated() && Allocated()[oldp] == oldsize
      requires MINSIZE <= nb <= oldsize && nb % 8 == 0
      modifies this`lo, this`hi, this`curptr, this`maxFast, this`fb, this`top, this`heap
      ensures Ready() && mem == oldp + 2 * SIZE_SZ && Regranted(old(lo), old(hi), old(Allocated()), oldp, lo, hi, Allocated(), mem, nb)
      ensures oldsize - nb >= MINSIZE ==> GivenBack(old(heap).fasts, oldp + nb, oldsize - nb, heap)
    {
      ghost var lo0, hi0, B := lo, hi, Allocated();
      ReadHead(heap, oldp);
      SameSize(heap, oldp);
      mem := Trim(oldp, oldsize, nb);
      Stayed(lo0, hi0, B, oldp, lo, hi, Allocated(), if oldsize - nb < MINSIZE then oldsize else nb, nb);
    }

    /** Expand forward into top. */
    method GrowIntoTop(oldp: int, oldsize: nat, newsize: nat, nb: nat) returns (mem: int)
      requires Ready() && oldp in Allocated() && Allocated()[oldp] == oldsize < nb && oldp + oldsize == top
      requires newsize == oldsize + (curptr - top) && nb + MINSIZE <= newsize && nb % 8 == 0
      modifies this`hi, this`top, this`heap
      ensures mem == oldp + 2 * SIZE_SZ && top == oldp + nb
      ensures Ready() && mem != 0 && Regranted(old(lo), old(hi), old(Allocated()), oldp, lo, hi, Allocated(), mem, nb)
    {
      ghost var lo0, hi0, B := lo, hi, Allocated();
      ReadHead(heap, oldp);
      heap := GrowMove(heap, oldp, nb);
      hi := hi[oldp := nb + Rd(hi, oldp) % 2];
      top := oldp + nb;
      hi := hi[top := newsize - nb + 1];
      Stayed(lo0, hi0, B, oldp, lo, hi, Allocated(), nb, nb);
      mem := oldp + 2 * SIZE_SZ;
    }

    /** Expand forward into the next chunk, which is free. */
    method ExtendForward(oldp: int, next: int)
      requires Ready() && oldp in Allocated() && next == Next(heap, oldp) && next in heap.ck && heap.ck[next].st.Binned?
      modifies this`lo, this`hi, this`heap
      ensures heap.fasts == old(heap).fasts
      ensures next in old(heap).ck && Widened(oldp, old(heap).ck[oldp].size + old(heap).ck[next].size)
      ensures Allocated() == old(Allocated())[oldp := old(heap).ck[oldp].size + old(heap).ck[next].size]
      ensures Saved(old(lo), old(hi), heap.lo, heap.hi, old(Allocated()))
    {
      ghost var map0, bins0 := binmap, heap.bins;
      ghost var h1;
      PlaceOf(heap, next);
      assert bins0[heap.ck[next].st.bin] != [] && oldp in Blocks(heap);
      heap, h1 := ExtendMove(heap, oldp);
      assert oldp in Blocks(heap);
      var fwd, bck := Fd(lo, next), Bk(hi, next);
      hi := hi[fwd + 8 := bck];
      lo := lo[bck + 8 := fwd];
      MapFewer(map0, bins0, heap.bins);
    }

    method ExtendBlock(oldp: int, oldsize: nat, next: int, newsize: nat, nb: nat) returns (mem: int)
      requires Ready() && oldp in Allocated() && Allocated()[oldp] == oldsize < nb && next == oldp + oldsize
      requires next in heap.ck && heap.ck[next].st.Binned? && newsize == oldsize + heap.ck[next].size
      requires nb <= newsize && nb % 8 == 0
      modifies this`lo, this`hi, this`curptr, this`maxFast, this`fb, this`top, this`heap
      ensures mem == oldp + 2 * SIZE_SZ
      ensures newsize - nb >= MINSIZE ==> GivenBack(old(heap).fasts, oldp + nb, newsize - nb, heap)
      ensures Ready() && mem != 0 && Regranted(old(lo), old(hi), old(Allocated()), oldp, lo, hi, Allocated(), mem, nb)
    {
      ReadHead(heap, oldp);
      ghost var lo0, hi0, B := lo, hi, Allocated();
      ExtendForward(oldp, next);
      ghost var lo1, hi1 := heap.lo, heap.hi;
      mem := Trim(oldp, newsize, nb);
      Extended(lo0, hi0, B, oldp, lo1, hi1, lo, hi, Allocated(), newsize, nb);
    }

    /** allocate, copy, free */
    method MoveBlock(oldp: int, oldsize: nat, next: int, nb: nat) returns (mem: int)
      requires Ready() && oldp in Allocated() && Allocated()[oldp] == oldsize < nb && next == oldp + oldsize
      requires nb % 8 == 0 && nb <= WORD - 2 * MINSIZE + 8
      modifies this
      ensures Ok() && Regranted(old(lo), old(hi), old(Allocated()), oldp, lo, hi, Allocated(), mem, nb)
      ensures mem == 0 ==> OutOfRange(nb - 7) || Starved(nb)
      ensures mem != 0 && mem != oldp + 2 * SIZE_SZ ==> Recycled(oldp, oldsize, heap)
      ensures mem != next + 2 * SIZE_SZ
    {
      ghost var lo0, hi0, B := lo, hi, Allocated();
      ReadHead(heap, oldp);
      RetryRequest(nb);
      ghost var via;
      mem, via := Malloc(nb - 7);
      if mem != 0 {
        mem := Relocate(oldp, oldsize, next, mem, nb, lo0, hi0, B);
      }
    }

    /** The new block takes over: joined to the old one if it lies right behind it, else after a copy. */
    method Relocate(oldp: int, oldsize: nat, next: int, mem0: int, nb: nat, ghost lo0: Mem, ghost hi0: Mem, ghost B: map<int, int>) returns (mem: int)
      requires Ready() && oldp in B && B[oldp] == oldsize < nb && next == oldp + oldsize && nb % 8 == 0
      requires mem0 != 0 && Granted(B, Allocated(), mem0, nb) && Saved(lo0, hi0, lo, hi, B)
      modifies this`lo, this`hi, this`curptr, this`maxFast, this`fb, this`top, this`heap
      ensures Ready() && mem != 0 && Regranted(lo0, hi0, B, oldp, lo, hi, Allocated(), mem, nb)
      ensures mem != oldp + 2 * SIZE_SZ ==> Recycled(oldp, oldsize, heap)
      ensures mem != next + 2 * SIZE_SZ
    {
      var newp := Mem2Chunk(mem0);
      ReadHead(heap, newp);
      var newsize := ChunkSize(Rd(hi, newp));
      if newp == next {
        mem := JoinNext(oldp, oldsize, next, newsize, nb, lo0, hi0, B);
      } else {
        CopyAndFree(oldp, oldsize, newp, newsize, nb, lo0, hi0, B);
        mem := mem0;
      }
    }

    /** The chunk allocated is the next one: no copy is needed. */
    method JoinNext(oldp: int, oldsize: nat, next: int, newsize: nat, nb: nat, ghost lo0: Mem, ghost hi0: Mem, ghost B: map<int, int>) returns (mem: int)
      requires Ready() && oldp in B && B[oldp] == oldsize < nb <= newsize && nb % 8 == 0 && next == oldp + oldsize
      requires next !in B && Allocated() == B[next := newsize] && Saved(lo0, hi0, lo, hi, B)
      modifies this`lo, this`hi, this`curptr, this`maxFast, this`fb, this`top, this`heap
      ensures mem == oldp + 2 * SIZE_SZ
      ensures Ready() && mem != 0 && Regranted(lo0, hi0, B, oldp, lo, hi, Allocated(), mem, nb)
    {
      assert oldp in Allocated() && next in Allocated() && B[next := newsize] - {next} == B;
      ReadHead(heap, oldp);
      ReadHead(heap, next);
      ghost var lo1, hi1 := lo, hi;
      heap := JoinLiveMove(heap, oldp);
      assert oldp in Blocks(heap);
      SavedTrans(lo0, hi0, lo1, hi1, heap.lo, heap.hi, B);
      lo1, hi1 := heap.lo, heap.hi;
      mem := Trim(oldp, newsize + oldsize, nb);
      Extended(lo0, hi0, B, oldp, lo1, hi1, lo, hi, Allocated(), newsize + oldsize, nb);
    }

    /** The contents move to the new chunk, and the old one is freed. */
    method CopyAndFree(oldp: int, oldsize: nat, newp: int, newsize: nat, nb: nat, ghost lo0: Mem, ghost hi0: Mem, ghost B: map<int, int>)
      requires Ready() && oldp in B && B[oldp] == oldsize < nb <= newsize < nb + MINSIZE
      requires newp !in B && Allocated() == B[newp := newsize] && Saved(lo0, hi0, lo, hi, B)
      modifies this`lo, this`hi, this`curptr, this`maxFast, this`fb, this`top, this`heap
      ensures Ready() && Regranted(lo0, hi0, B, oldp, lo, hi, Allocated(), newp + 2 * SIZE_SZ, nb)
      ensures Recycled(oldp, oldsize, heap)
    {
      assert oldp in Allocated() && newp in Allocated() && B[newp := newsize] - {newp} == B;
      ReadHead(heap, oldp);
      ReadHead(heap, newp);
      ghost var lo1, hi1 := lo, hi;
      CopyBlock(oldp, newp, oldsize);
      ghost var lo2, hi2 := lo, hi;
      FreeAndNote(oldp, oldsize);
      Moved(lo0, hi0, B, oldp, lo1, hi1, lo2, hi2, lo, hi, newp, newsize, nb);
    }

    /** *(d + n) = *(s + n) */
    method CopyWord(s: int, d: int, n: nat, ghost p: int, ghost q: int)
      requires s == p + 8 && d == q + 8 && CopyPair(heap, p, q) && n < (heap.ck[p].size - 4) / 4 && Copying(heap, p, q, n, lo, hi)
      modifies this`lo, this`hi
      ensures Copying(heap, p, q, n + 1, lo, hi)
    {
      CopyStep(heap, p, q, n, lo, hi);
      var v := Word(lo, hi, s + 4 * n);
      lo, hi := PutLo(lo, d + 4 * n, v), PutHi(hi, d + 4 * n, v);
    }

    /** The copy of at most nine words, unrolled. */
    method CopyUnrolled(s: int, d: int, ncopies: nat, ghost p: int, ghost q: int)
      requires s == p + 8 && d == q + 8 && CopyPair(heap, p, q) && ncopies == (heap.ck[p].size - 4) / 4
      requires 3 <= ncopies <= 9 && ncopies % 2 == 1 && Copying(heap, p, q, 0, lo, hi)
      modifies this`lo, this`hi
      ensures Copying(heap, p, q, ncopies, lo, hi)
    {
      CopyWord(s, d, 0, p, q);
      CopyWord(s, d, 1, p, q);
      CopyWord(s, d, 2, p, q);
      if ncopies > 4 {
        CopyWord(s, d, 3, p, q);
        CopyWord(s, d, 4, p, q);
        if ncopies > 6 {
          CopyWord(s, d, 5, p, q);
          CopyWord(s, d, 6, p, q);
          if ncopies > 8 {
            CopyWord(s, d, 7, p, q);
            CopyWord(s, d, 8, p, q);
          }
        }
      }
    }

    /** MALLOC_COPY: memcpy, a word at a time. */
    method CopyLoop(s: int, d: int, ncopies: nat, ghost p: int, ghost q: int)
      requires s == p + 8 && d == q + 8 && CopyPair(heap, p, q) && ncopies == (heap.ck[p].size - 4) / 4
      requires Copying(heap, p, q, 0, lo, hi)
      modifies this`lo, this`hi
      ensures Copying(heap, p, q, ncopies, lo, hi)
    {
      var n := 0;
      while n < ncopies
        invariant n <= ncopies && Copying(heap, p, q, n, lo, hi)
      {
        CopyWord(s, d, n, p, q);
        n := n + 1;
      }
    }

    /** The contents of the block p go to the larger block q. */
    method CopyBlock(p: int, q: int, oldsize: nat)
      requires Ready() && p in Allocated() && q in Allocated() && p != q
      requires Allocated()[p] == oldsize <= Allocated()[q]
      modifies this`lo, this`hi, this`heap
      ensures Ready() && Allocated() == old(Allocated())
      ensures Saved(old(lo), old(hi), lo, hi, old(Allocated()) - {q}) && Carried(old(lo), old(hi), p, lo, hi, q, oldsize)
    {
      ReadHead(heap, p);
      var copysize := oldsize - SIZE_SZ;
      var ncopies := copysize / 4;
      OddCopies(oldsize);
      if ncopies > 9 {
        CopyLoop(p + 8, q + 8, ncopies, p, q);
      } else {
        CopyUnrolled(p + 8, q + 8, ncopies, p, q);
      }
      heap := CopyMove(heap, p, q, lo, hi);
    }

    /** Where a block goes whose padded size is to be nb: it stays if it is large enough, and also if the
        chunk behind it is free and makes it large enough, or is top and has room to spare; then top starts
        behind the block.  It never moves to the place right behind it.  What is left over at its end, or
        its old place, is given back. */
    static ghost predicate Fitted(h0: Heap, p: int, nb: nat, mem: int, h: Heap)
      requires p in h0.ck
    {
      var size, next := h0.ck[p].size, p + h0.ck[p].size;
      && (size >= nb ==> mem == p + 2 * SIZE_SZ)
      && (next in h0.ck && h0.ck[next].st.Binned? && size + h0.ck[next].size >= nb ==> mem == p + 2 * SIZE_SZ)
      && (size < nb && next == h0.top && size + (h0.brk - h0.top) >= nb + MINSIZE ==> mem == p + 2 * SIZE_SZ && h.top == p + nb)
      && mem != next + 2 * SIZE_SZ
      && (size >= nb + MINSIZE ==> GivenBack(h0.fasts, p + nb, size - nb, h))
      && (size < nb && next in h0.ck && h0.ck[next].st.Binned? && size + h0.ck[next].size >= nb + MINSIZE
          ==> GivenBack(h0.fasts, p + nb, size + h0.ck[next].size - nb, h))
      && (mem != 0 && mem != p + 2 * SIZE_SZ ==> Recycled(p, size, h))
    }

    static lemma FittedShrunk(h0: Heap, p: int, nb: nat, h: Heap)
      requires p in h0.ck && h0.ck[p].size >= nb && h0.ck[p].size > 0
      requires h0.ck[p].size >= nb + MINSIZE ==> GivenBack(h0.fasts, p + nb, h0.ck[p].size - nb, h)
      ensures Fitted(h0, p, nb, p + 2 * SIZE_SZ, h)
    {
    }

    static lemma FittedExtended(h0: Heap, p: int, nb: nat, h: Heap)
      requires p in h0.ck && 0 < h0.ck[p].size < nb && Next(h0, p) in h0.ck && Next(h0, p) != h0.top
      requires var total := h0.ck[p].size + h0.ck[Next(h0, p)].size; total >= nb + MINSIZE ==> GivenBack(h0.fasts, p + nb, total - nb, h)
      ensures Fitted(h0, p, nb, p + 2 * SIZE_SZ, h)
    {
    }

    static lemma FittedMoved(h0: Heap, p: int, nb: nat, mem: int, h: Heap)
      requires p in h0.ck && h0.ck[p].size < nb && mem != Next(h0, p) + 2 * SIZE_SZ
      requires Next(h0, p) == h0.top ==> h0.top !in h0.ck && h0.ck[p].size + (h0.brk - h0.top) < nb + MINSIZE
      requires Next(h0, p) in h0.ck && h0.ck[Next(h0, p)].st.Binned? ==> h0.ck[p].size + h0.ck[Next(h0, p)].size < nb
      requires mem != 0 && mem != p + 2 * SIZE_SZ ==> Recycled(p, h0.ck[p].size, h)
      ensures Fitted(h0, p, nb, mem, h)
    {
    }

    static lemma FittedGrown(h0: Heap, p: int, nb: nat, h: Heap)
      requires p in h0.ck && 0 < h0.ck[p].size < nb && Next(h0, p) == h0.top && h0.top !in h0.ck && h.top == p + nb
      ensures Fitted(h0, p, nb, p + 2 * SIZE_SZ, h)
    {
    }

    /** rEALLOc of a block, once its padded size is known */
    method Resize(oldp: int, nb: nat) returns (mem: int)
      requires Ready() && oldp in Allocated() && MINSIZE <= nb <= WORD - 2 * MINSIZE + 8 && nb % 8 == 0
      modifies this
      ensures Ok() && Regranted(old(lo), old(hi), old(Allocated()), oldp, lo, hi, Allocated(), mem, nb)
      ensures mem == 0 ==> OutOfRange(nb - 7) || Starved(nb)
      ensures Fitted(old(heap), oldp, nb, mem, heap)
    {
      ReadHead(heap, oldp);
      var oldsize := ChunkSize(Rd(hi, oldp));
      if oldsize >= nb {
        ghost var h0 := heap;
        mem := ShrinkBlock(oldp, oldsize, nb);
        FittedShrunk(h0, oldp, nb, heap);
      } else {
        mem := Enlarge(oldp, oldsize, nb);
      }
    }

    /** The block is too small. */
    method Enlarge(oldp: int, oldsize: nat, nb: nat) returns (mem: int)
      requires Ready() && oldp in Allocated() && 0 < oldsize == Allocated()[oldp] < nb <= WORD - 2 * MINSIZE + 8 && nb % 8 == 0
      modifies this
      ensures Ok() && Regranted(old(lo), old(hi), old(Allocated()), oldp, lo, hi, Allocated(), mem, nb)
      ensures mem == 0 ==> OutOfRange(nb - 7) || Starved(nb)
      ensures Fitted(old(heap), oldp, nb, mem, heap)
    {
      ghost var h0 := heap;
      ReadNext(heap, oldp);
      var next := oldp + oldsize;
      var newsize := oldsize + ChunkSize(Rd(hi, next));
      if next == top && newsize >= nb + MINSIZE {
        mem := GrowIntoTop(oldp, oldsize, newsize, nb);
        FittedGrown(h0, oldp, nb, heap);
        return;
      }
      if next != top {
        ReadInuse(heap, next);
        if !PrevInuse(Rd(hi, next + ChunkSize(Rd(hi, next)))) && newsize >= nb {
          mem := ExtendBlock(oldp, oldsize, next, newsize, nb);
          FittedExtended(h0, oldp, nb, heap);
          return;
        }
      }
      mem := MoveBlock(oldp, oldsize, next, nb);
      FittedMoved(h0, oldp, nb, mem, heap);
    }

    /** rEALLOc */
    method Realloc(oldmem: int, bytes: nat) returns (mem: int)
      requires Ok() && bytes < WORD && (oldmem == 0 || Mem2Chunk(oldmem) in Allocated())
      modifies this
      ensures Ok()
      ensures oldmem == 0 ==> Granted(old(Allocated()), Allocated(), mem, Request(bytes)) && Saved(old(lo), old(hi), lo, hi, old(Allocated()))
      ensures oldmem != 0 ==> Regranted(old(lo), old(hi), old(Allocated()), Mem2Chunk(oldmem), lo, hi, Allocated(), mem, Request(bytes))
      ensures mem != 0 ==> !OutOfRange(bytes)
      ensures mem == 0 ==> OutOfRange(bytes) || OutOfRange(Request(bytes) - 7) || Starved(Request(bytes))
      ensures oldmem != 0 && !OutOfRange(bytes) ==> Fitted(old(heap), Mem2Chunk(oldmem), Request(bytes), mem, heap)
    {
      mem := 0;
      if oldmem == 0 {
        ghost var via;
        mem, via := Malloc(bytes);
      } else if OutOfRange(bytes) {
        SavedSame(lo, hi, Allocated());
      } else {
        mem := Resize(Mem2Chunk(oldmem), Request(bytes));
      }
    }

    // ----------------------------------------------------------- memalign

    /** The block p is cut in two blocks, the first of lead bytes. */
    method SplitLead(p: int, size: nat, lead: nat)
      requires Ready() && p in Allocated() && Allocated()[p] == size
      requires MINSIZE <= lead && lead % 8 == 0 && MINSIZE <= size - lead
      modifies this`hi, this`heap
      ensures Ready() && p + lead !in old(Allocated()) && heap.fasts == old(heap).fasts
      ensures Allocated() == old(Allocated())[p := lead][p + lead := size - lead]
      ensures Saved(old(lo), old(hi), lo, hi, old(Allocated())[p := lead])
    {
      heap := LeadMove(heap, p, lead);
      hi := hi[p + lead := size - lead + 1];
      hi := hi[p + size := WithInuse(Rd(hi, p + size))];
      hi := hi[p := lead + Rd(hi, p) % 2];
    }

    /** Give back the lead of the block p, and keep the rest. */
    method CutLead(p: int, size: nat, lead: nat, ghost B: map<int, int>)
      requires Ready() && p !in B && Allocated() == B[p := size]
      requires MINSIZE <= lead && lead % 8 == 0 && MINSIZE <= size - lead
      modifies this`lo, this`hi, this`curptr, this`maxFast, this`fb, this`top, this`heap
      ensures Ready() && p + lead !in B && Allocated() == B[p + lead := size - lead]
      ensures GivenBack(old(heap).fasts, p, lead, heap)
      ensures Saved(old(lo), old(hi), lo, hi, B)
    {
      ghost var lo0, hi0 := lo, hi;
      assert p in Allocated() && Allocated()[p] == size;
      SplitLead(p, size, lead);
      ghost var lo1, hi1 := lo, hi;
      assert B[p := size][p := lead] == B[p := lead];
      FreeAndNote(p, lead);
      assert Allocated() == B[p + lead := size - lead];
      Shrunk(lo0, hi0, lo1, hi1, B, B[p := lead]);
      Shrunk(lo1, hi1, lo, hi, B, Allocated());
      SavedTrans(lo0, hi0, lo1, hi1, lo, hi, B);
    }

    /** Give back spare room at the end of the block p. */
    method CutTail(p: int, size: nat, nb: nat, ghost B: map<int, int>)
      requires Ready() && p !in B && Allocated() == B[p := size]
      requires MINSIZE <= nb && nb % 8 == 0 && MINSIZE <= size - nb
      modifies this`lo, this`hi, this`curptr, this`maxFast, this`fb, this`top, this`heap
      ensures Ready() && Allocated() == B[p := nb]
      ensures GivenBack(old(heap).fasts, p + nb, size - nb, heap)
      ensures Saved(old(lo), old(hi), lo, hi, B)
    {
      ghost var lo0, hi0 := lo, hi;
      assert p in Allocated() && Allocated()[p] == size;
      SplitTail(p, size, nb);
      ghost var lo1, hi1 := lo, hi;
      FreeAndNote(p + nb, size - nb);
      assert Allocated() == B[p := nb];
      Shrunk(lo0, hi0, lo1, hi1, B, B[p := nb]);
      Shrunk(lo1, hi1, lo, hi, B, Allocated());
      SavedTrans(lo0, hi0, lo1, hi1, lo, hi, B);
    }

    method SplitTail(p: int, size: nat, nb: nat)
      requires Ready() && p in Allocated() && Allocated()[p] == size
      requires MINSIZE <= nb && nb % 8 == 0 && MINSIZE <= size - nb
      modifies this`hi, this`heap
      ensures Ready() && p + nb !in old(Allocated()) && heap.fasts == old(heap).fasts
      ensures Allocated() == old(Allocated())[p := nb][p + nb := size - nb]
      ensures Saved(old(lo), old(hi), lo, hi, old(Allocated())[p := nb])
    {
      heap := TailMove(heap, p, nb);
      hi := hi[p + nb := size - nb + 1];
      hi := hi[p := nb + Rd(hi, p) % 2];
    }

    /** mEMALIGn */
    method Memalign(alignment: nat, bytes: nat) returns (mem: int)
      requires Ok() && bytes < WORD && alignment <= 0x8000_0000
      requires alignment > 8 && !OutOfRange(bytes) ==> Request(bytes) + AlignTo(alignment) + MINSIZE < WORD
      modifies this
      ensures Ok()
      ensures Aligned(old(Allocated()), Allocated(), mem, Request(bytes), AlignTo(alignment))
      ensures Saved(old(lo), old(hi), lo, hi, old(Allocated()))
      ensures mem != 0 ==> !OutOfRange(bytes)
      ensures mem == 0 ==> OutOfRange(bytes)
                           || (var n := if alignment <= 8 then bytes else Request(bytes) + AlignTo(alignment) + MINSIZE;
                               OutOfRange(n) || Starved(Request(n)))
    {
      mem := 0;
      if alignment <= 8 {
        ghost var via;
        mem, via := Malloc(bytes);
      } else {
        var a;
        ghost var k;
        a, k := Alignment(alignment);
        if OutOfRange(bytes) {
          SavedSame(lo, hi, Allocated());
        } else {
          mem := AllocateAligned(a, k, Request(bytes));
        }
      }
    }

    /** malloc with room to spare, then cut at both ends. */
    method AllocateAligned(a: nat, ghost k: nat, nb: nat) returns (mem: int)
      requires Ok() && a == Pow2(k) && 4 <= k <= 31 && MINSIZE <= nb && nb % 8 == 0 && nb + a + MINSIZE < WORD
      modifies this
      ensures Ok() && Aligned(old(Allocated()), Allocated(), mem, nb, a)
      ensures Saved(old(lo), old(hi), lo, hi, old(Allocated()))
      ensures mem == 0 ==> OutOfRange(nb + a + MINSIZE) || Starved(Request(nb + a + MINSIZE))
    {
      ghost var lo0, hi0, B := lo, hi, Allocated();
      ghost var via;
      mem, via := Malloc(nb + a + MINSIZE);
      if mem != 0 {
        PaddedRequest(nb, a, k);
        var p := Mem2Chunk(mem);
        ReadHead(heap, p);
        ghost var lo1, hi1 := lo, hi;
        mem := AlignBlock(p, a, k, nb, B);
        SavedTrans(lo0, hi0, lo1, hi1, lo, hi, B);
      }
    }

    /** Cut the block p0 down to an aligned block. */
    method AlignBlock(p0: int, a: nat, ghost k: nat, nb: nat, ghost B: map<int, int>) returns (mem: int)
      requires Ready() && a == Pow2(k) && 4 <= k <= 31 && a % 8 == 0 && MINSIZE <= nb && nb % 8 == 0
      requires p0 !in B && p0 in Allocated() && Allocated() == B[p0 := Allocated()[p0]]
      requires nb + a + 24 <= Allocated()[p0]
      modifies this`lo, this`hi, this`curptr, this`maxFast, this`fb, this`top, this`heap
      ensures Ready() && mem != 0 && Aligned(B, Allocated(), mem, nb, a)
      ensures Saved(old(lo), old(hi), lo, hi, B)
    {
      var p := AlignLead(p0, a, k, nb, B);
      ghost var lo1, hi1 := lo, hi;
      TrimTail(p, nb, B);
      SavedTrans(old(lo), old(hi), lo1, hi1, lo, hi, B);
      mem := p + 2 * SIZE_SZ;
    }

    /** Give back the lead, if the block p0 is misaligned. */
    method AlignLead(p0: int, a: nat, ghost k: nat, nb: nat, ghost B: map<int, int>) returns (p: int)
      requires Ready() && a == Pow2(k) && 4 <= k <= 31 && a % 8 == 0 && MINSIZE <= nb
      requires p0 !in B && p0 in Allocated() && Allocated() == B[p0 := Allocated()[p0]]
      requires nb + a + 24 <= Allocated()[p0]
      modifies this`lo, this`hi, this`curptr, this`maxFast, this`fb, this`top, this`heap
      ensures Ready() && p > 0 && p !in B && p in Allocated() && Allocated() == B[p := Allocated()[p]]
      ensures (p + 8) % a == 0 && nb <= Allocated()[p]
      ensures if p == p0 then heap == old(heap) else p > p0 && GivenBack(old(heap).fasts, p0, p - p0, heap)
      ensures Saved(old(lo), old(hi), lo, hi, B)
    {
      p := p0;
      var size := BlockSize(p0);
      SavedSame(lo, hi, B);
      var lead := Spot(p0 + 8, a, k);
      if lead != 0 {
        CutLead(p0, size, lead, B);
        p := p0 + lead;
      }
    }

    /** chunksize of a block, which lies below the break */
    method BlockSize(p: int) returns (size: nat)
      requires Ready() && p in Allocated()
      ensures size == Allocated()[p] && 0 < p && (p + 8) % 8 == 0 && p + size < WORD
    {
      ReadHead(heap, p);
      size := ChunkSize(Rd(hi, p));
    }

    method TrimTail(p: int, nb: nat, ghost B: map<int, int>)
      requires Ready() && p !in B && p in Allocated() && Allocated() == B[p := Allocated()[p]]
      requires MINSIZE <= nb <= Allocated()[p] && nb % 8 == 0
      modifies this`lo, this`hi, this`curptr, this`maxFast, this`fb, this`top, this`heap
      ensures Ready() && p in Allocated() && Allocated() == B[p := Allocated()[p]] && nb <= Allocated()[p] <= nb + MINSIZE
      ensures Allocated()[p] == var s := old(Allocated()[p]); if s > nb + MINSIZE then nb else s
      ensures old(Allocated()[p]) > nb + MINSIZE ==> GivenBack(old(heap).fasts, p + nb, old(Allocated()[p]) - nb, heap)
      ensures Saved(old(lo), old(hi), lo, hi, B)
    {
      ReadHead(heap, p);
      var size := ChunkSize(Rd(hi, p));
      if size > nb + MINSIZE {
        CutTail(p, size, nb, B);
      } else {
        SavedSame(lo, hi, B);
      }
    }

    // ---------------------------------------------- programs and start

    /** A program stores v in word i of its own block. */
    method Store(mem: int, i: nat, v: int)
      requires Ready() && Mem2Chunk(mem) in Allocated() && i < (Allocated()[Mem2Chunk(mem)] - SIZE_SZ) / 4
      modifies this`lo, this`hi, this`heap
      ensures Ready() && Allocated() == old(Allocated())
      ensures lo == PutLo(old(lo), mem + 4 * i, v) && hi == PutHi(old(hi), mem + 4 * i, v)
      ensures Saved(old(lo), old(hi), lo, hi, Allocated() - {Mem2Chunk(mem)})
    {
      var d := mem + 4 * i;
      heap := StoreMove(heap, Mem2Chunk(mem), i, v);
      lo, hi := PutLo(lo, d, v), PutHi(hi, d, v);
    }

    /** malloc_state is all zero, and the heap area is aligned and above the kernel's data. */
    constructor (memHeap: int, memHeapEnd: int)
      requires HEAP_MIN <= memHeap <= memHeapEnd < WORD && memHeap % 8 == 0
      ensures Ok() && Untouched() && Allocated() == map[] && this.memHeap == memHeap && this.memHeapEnd == memHeapEnd
    {
      this.memHeap, this.memHeapEnd := memHeap, memHeapEnd;
      lo, hi := map[], map[];
      curptr := memHeap;
      maxFast, fb, top, lastRemainder := 0, seq(NFASTBINS, _ => 0), 0, 0;
      binmap := [0, 0, 0, 0];
      sbrkedMem, maxSbrkedMem := 0, 0;
      heap := Bare(map[], map[], seq(NFASTBINS, _ => 0), memHeap, memHeap);
    }
  }
}
