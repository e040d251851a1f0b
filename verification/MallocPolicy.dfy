/** The rules of `shared/malloc.c`: request sizes, the flag bits and the bin map, and best fit,
    with what is needed to keep and to use them. */
module MallocPolicy {
  import opened Words
  import opened MallocBins
  import opened MallocLists
  import opened MallocHeap
  import opened MallocSteps
  import opened MallocMoves
  import opened MallocAlign

  const SIZE_SZ := 4
  const PAGESIZE := 4096
  const TRIM_THRESHOLD := 256 * 1024
  const FASTBIN_CONSOLIDATION_THRESHOLD := 128 * 1024
  const MORECORE_FAILURE := -1

  /** max_fast: request2size(DEFAULT_MXFAST), with ANYCHUNKS_BIT and FASTCHUNKS_BIT below it. */
  const MAX_FAST := 72

  /** REQUEST_OUT_OF_RANGE */
  predicate OutOfRange(req: nat) {
    req >= WORD - 2 * MINSIZE
  }

  /** request2size, for requests that are in range */
  function Request(req: nat): (nb: nat)
    ensures nb % 8 == 0 && MINSIZE <= nb && req + SIZE_SZ <= nb
    ensures nb < req + SIZE_SZ + 8 || nb == MINSIZE
  {
    if req + SIZE_SZ + 7 < MINSIZE then MINSIZE else (req + SIZE_SZ + 7) / 8 * 8
  }

  /** have_anychunks and have_fastchunks are set whenever they have to be. */
  ghost predicate FlagsOk(maxFast: nat, bins: seq<seq<int>>, fasts: seq<seq<int>>) {
    && FlagValue(maxFast)
    && (forall i {:trigger bins[i]} :: 0 <= i < |bins| && bins[i] != [] ==> maxFast != MAX_FAST)
    && (forall j {:trigger fasts[j]} :: 0 <= j < |fasts| && fasts[j] != [] ==> maxFast == MAX_FAST + 3)
  }

  /** A clear binmap bit means an empty bin. */
  ghost predicate MapOk(binmap: seq<nat>, bins: seq<seq<int>>) {
    && |binmap| == 4 && binmap[3] == 0 && |bins| == NBINS
    && (forall b {:trigger binmap[b]} :: 0 <= b < 4 ==> binmap[b] < WORD)
    && (forall i {:trigger MapBit(binmap, bins, i)} :: 2 <= i < NBINS ==> MapBit(binmap, bins, i))
  }

  ghost predicate MapBit(binmap: seq<nat>, bins: seq<seq<int>>, i: int)
    requires |binmap| == 4 && |bins| == NBINS && 2 <= i < NBINS
  {
    bins[i] != [] ==> Bit(binmap[i / 32], i % 32)
  }

  lemma MapFewer(binmap: seq<nat>, b: seq<seq<int>>, b': seq<seq<int>>)
    requires MapOk(binmap, b) && FewerBins(b, b')
    ensures MapOk(binmap, b')
  {
    forall i | 2 <= i < NBINS ensures MapBit(binmap, b', i) {
      assert MapBit(binmap, b, i);
      assert b'[i] != [] ==> b[i] != [];
    }
  }

  lemma MarkOk(m: seq<nat>, bins: seq<seq<int>>, i: nat)
    requires MapOk(m, bins) && 2 <= i < NBINS
    ensures var m' := m[i / 32 := Or(m[i / 32], Pow2(i % 32))];
            MapOk(m', bins) && Bit(m'[i / 32], i % 32)
  {
    var b := i / 32;
    var m' := m[b := Or(m[b], Pow2(i % 32))];
    Powers();
    OrPowBound(m[b], i % 32);
    OrPowBits(m[b], i % 32, i % 32);
    forall j | 2 <= j < NBINS ensures MapBit(m', bins, j) {
      assert MapBit(m, bins, j);
      if j / 32 == b { OrPowBits(m[b], i % 32, j % 32); }
    }
  }

  lemma InsertedAdmin(maxFast: nat, binmap: seq<nat>, bins: seq<seq<int>>, fasts: seq<seq<int>>, i: int, k: int, x: int)
    requires FlagsOk(maxFast, bins, fasts) && MapOk(binmap, bins) && maxFast != MAX_FAST
    requires 2 <= i < NBINS && 0 <= k <= |bins[i]| && Bit(binmap[i / 32], i % 32)
    ensures FlagsOk(maxFast, bins[i := Inserted(bins[i], k, x)], fasts)
    ensures MapOk(binmap, bins[i := Inserted(bins[i], k, x)])
  {
    var b' := bins[i := Inserted(bins[i], k, x)];
    forall j | 2 <= j < NBINS ensures MapBit(binmap, b', j) {
      assert MapBit(binmap, bins, j);
    }
  }

  /** All chunks of a small bin have the same size, so any position is sorted. */
  lemma SmallFits(h: Heap, x: int, i: int)
    requires Valid(h) && x in h.ck && 16 <= h.ck[x].size < 256 && 2 <= i < NBINS && i == IndexOf(h.ck[x].size)
    ensures FitsBin(h, x, i, 0)
  {
    PlaceOf(h, x);
    forall m | 0 <= m < |h.bins[i]| && h.bins[i][m] in h.ck
      ensures h.ck[h.bins[i][m]].size == h.ck[x].size
    {
      assert BinOk(h, i);
      var p := h.bins[i][m];
      PlaceOf(h, p);
      IndexRange(h.ck[p].size);
    }
  }

  /** The bin of a small request holds chunks of exactly that size. */
  lemma OtherBin(nb: nat, size: nat)
    requires MINSIZE <= nb && nb % 8 == 0 && MINSIZE <= size && size % 8 == 0 && size != nb
    ensures nb < 256 ==> IndexOf(size) != nb / 8
  {
    IndexRange(size);
  }

  lemma MapUnsorted(binmap: seq<nat>, b: seq<seq<int>>, L: seq<int>)
    requires MapOk(binmap, b)
    ensures MapOk(binmap, b[1 := L])
  {
    MapFewer(binmap, b, b[1 := L]);
  }

  /** Every bin header is linked to itself. */
  ghost predicate EmptyRings(lo: Mem, hi: Mem) {
    forall i {:trigger BinAt(i)} :: 1 <= i < NBINS ==> Fd(lo, BinAt(i)) == BinAt(i) && Bk(hi, BinAt(i)) == BinAt(i)
  }

  predicate HaveAnychunks(maxFast: nat) {
    maxFast % 2 == 1
  }

  predicate HaveFastchunks(maxFast: nat) {
    maxFast / 2 % 2 == 1
  }

  /** The values max_fast takes once initialised. */
  predicate FlagValue(m: nat) {
    m == MAX_FAST || m == MAX_FAST + 1 || m == MAX_FAST + 3
  }

  /** Reading, setting and clearing the flag bits of max_fast. */
  lemma Flags(m: nat)
    requires FlagValue(m)
    ensures Or(m, 1) == if m == MAX_FAST + 3 then m else MAX_FAST + 1
    ensures Or(m, 3) == MAX_FAST + 3
    ensures AndNot(m, 2) == if m == MAX_FAST then m else MAX_FAST + 1
  {
    assert And(m, 3) == m % 4 by { assert And(m / 2 / 2, 0) == 0; }
    assert And(m, 1) == m % 2 by { assert And(m / 2, 0) == 0; }
    assert And(m, 2) == m % 4 - m % 2 by { assert And(m / 2 / 2, 0) == 0; }
  }

  /** ((end + pagemask) & ~pagemask) - end, with the sum wrapping */
  function PageCorrection(end: int): (c: int)
    requires 0 <= end < WORD
    ensures -end <= c < PAGESIZE && (end % 8 == 0 ==> c % 8 == 0)
  {
    (end + PAGESIZE - 1) % WORD / PAGESIZE * PAGESIZE - end
  }

  /** Where the first memory ends: at the end of its last page, if the heap area goes that far. */
  function PageEnd(end: nat, limit: int): nat {
    var e := (end + PAGESIZE - 1) / PAGESIZE * PAGESIZE;
    if e <= limit then e else end
  }

  lemma PageEndBounds(end: nat, limit: int)
    ensures var e := PageEnd(end, limit); end <= e < end + PAGESIZE && (e == end || (e % PAGESIZE == 0 && e <= limit))
  {
  }

  /** The correction leads there, or cannot be had. */
  lemma CorrectionEnds(end: nat, limit: int)
    requires end <= limit < WORD
    ensures var c := PageCorrection(end);
            if 0 <= c <= limit - end then end + c == PageEnd(end, limit) else PageEnd(end, limit) == end
  {
    var q, s := (end + PAGESIZE - 1) / PAGESIZE, (end + PAGESIZE - 1) % WORD;
    assert s == if end + PAGESIZE - 1 < WORD then end + PAGESIZE - 1 else end + PAGESIZE - 1 - WORD;
  }

  /** (nb + top_pad + MINSIZE - old_size + pagemask) & ~pagemask, on unsigned words */
  function MoreCoreSize(nb: nat, oldSize: nat): (size: int)
    requires nb + MINSIZE <= WORD && oldSize < nb + MINSIZE
    ensures size % PAGESIZE == 0 && 0 <= size
    ensures size == 0 || size >= nb + MINSIZE - oldSize
    ensures size < nb + MINSIZE - oldSize + PAGESIZE
  {
    (nb + MINSIZE - oldSize + (PAGESIZE - 1)) % WORD / PAGESIZE * PAGESIZE
  }

  /** The block p has been put at the head of the fastbin of its size, and nothing else has changed. */
  ghost predicate PushedFast(h0: Heap, p: int, h: Heap)
    requires p in h0.ck
  {
    var j := h0.ck[p].size / 8 - 2;
    && 0 <= j < |h0.fasts| && h.fasts == h0.fasts[j := [p] + h0.fasts[j]]
    && h.ck == h0.ck[p := h0.ck[p].(st := Fast)] && h.bins == h0.bins && h.top == h0.top
  }

  ghost predicate NoFasts(h: Heap) {
    forall j {:trigger h.fasts[j]} :: 0 <= j < |h.fasts| ==> h.fasts[j] == []
  }

  /** Where a block goes that is freed: small ones to their fastbin; others, with their free neighbours,
      to the unsorted list or to top, and if that makes a large free chunk the fastbins are consolidated. */
  ghost predicate Disposed(h0: Heap, p: int, h: Heap)
    requires p in h0.ck
  {
    if h0.ck[p].size <= MAX_FAST then PushedFast(h0, p, h)
    else if FreeEnd(h0, p) - FreeStart(h0, p) < FASTBIN_CONSOLIDATION_THRESHOLD then Freed(h0, p, h) && h.fasts == h0.fasts
    else InFree(h, p, Next(h0, p)) && NoFasts(h)
  }

  /** The piece of that size at p has been given back: it is first on its fastbin, before the chunks
      fasts holds, or lies in an unsorted chunk or in top. */
  ghost predicate GivenBack(fasts: seq<seq<int>>, p: int, size: int, h: Heap) {
    if size <= MAX_FAST then var j := size / 8 - 2; 0 <= j < |fasts| && h.fasts == fasts[j := [p] + fasts[j]]
    else InFree(h, p, p + size)
  }

  /** The same, with what else the fastbin holds left open. */
  ghost predicate Recycled(p: int, size: int, h: Heap) {
    if size <= MAX_FAST then var j := size / 8 - 2; 0 <= j < |h.fasts| && h.fasts[j] != [] && h.fasts[j][0] == p
    else InFree(h, p, p + size)
  }

  lemma DisposedBack(h0: Heap, p: int, h: Heap)
    requires Valid(h0) && p in h0.ck && h0.ck[p].st.Live? && Disposed(h0, p, h)
    ensures GivenBack(h0.fasts, p, h0.ck[p].size, h) && Recycled(p, h0.ck[p].size, h)
  {
    var size := h0.ck[p].size;
    if size > MAX_FAST && FreeEnd(h0, p) - FreeStart(h0, p) < FASTBIN_CONSOLIDATION_THRESHOLD {
      FreedInFree(h0, p, h);
    }
  }

  /** Which part of mALLOc served a request: a fastbin, the last remainder or a free chunk out
      of the bins or the unsorted list, which had size found, top, or nothing. */
  datatype Path = ViaFastbin | ViaRemainder(found: int) | ViaBin(found: int) | ViaTop | Failed

  /** The chunk address of a returned pointer: mem2chunk. */
  function Mem2Chunk(mem: int): int {
    mem - 2 * SIZE_SZ
  }

  /** The outcome of an allocation of nb bytes: nothing changed, or one new aligned block
      of at least nb and less than nb + MINSIZE bytes. */
  ghost predicate Granted(B: map<int, int>, B': map<int, int>, mem: int, nb: nat) {
    if mem == 0 then B' == B
    else var p := Mem2Chunk(mem);
         p > 0 && p % 8 == 0 && p !in B && p in B' && B' == B[p := B'[p]] && nb <= B'[p] < nb + MINSIZE
  }

  /** The outcome of memalign: as Granted, but the block is aligned, and may have MINSIZE
      bytes more than needed. */
  ghost predicate Aligned(B: map<int, int>, B': map<int, int>, mem: int, nb: nat, a: nat)
    requires a > 0
  {
    if mem == 0 then B' == B
    else var p := Mem2Chunk(mem);
         p > 0 && mem % a == 0 && p !in B && p in B' && B' == B[p := B'[p]] && nb <= B'[p] <= nb + MINSIZE
  }

  /** The sum nb + alignment + MINSIZE is a word: what memalign asks malloc for is enough
      exactly if it does not wrap. */
  lemma PaddingWraps(bytes: nat, a: nat)
    requires !OutOfRange(bytes) && MINSIZE <= a <= 0x8000_0000
    ensures Request((Request(bytes) + a + MINSIZE) % WORD) >= Request(bytes) <==> Request(bytes) + a + MINSIZE < WORD
    ensures Request((Request(bytes) + a + MINSIZE) % WORD) >= Request(bytes) + a + MINSIZE <==> Request(bytes) + a + MINSIZE < WORD
  {
    var sum := Request(bytes) + a + MINSIZE;
    assert sum % WORD == if sum < WORD then sum else sum - WORD;
  }

  /** A request in range that wraps: 8 bytes are asked for instead of 2 GB and more. */
  lemma PaddingWrapsExample()
    ensures var bytes := 0x7FFF_FFF0;
            var a := AlignTo(0x8000_0000);
            && !OutOfRange(bytes) && (Request(bytes) + a + MINSIZE) % WORD == 8 && Request(8) == 16 < Request(bytes)
  {
    SomePowers();
    AlignToPower(31);
  }

  /** The padded request of memalign, padded again by malloc. */
  lemma PaddedRequest(nb: nat, a: nat, k: nat)
    requires a == Pow2(k) && k >= 3 && nb % 8 == 0
    ensures a % 8 == 0 && Request(nb + a + MINSIZE) == nb + a + MINSIZE + 8
  {
    PowMultiple(k);
  }

  /** Without anychunks, nothing has been freed. */
  lemma NoFreeChunks(h: Heap, maxFast: nat)
    requires Valid(h) && FlagsOk(maxFast, h.bins, h.fasts) && !HaveAnychunks(maxFast)
    ensures forall q {:trigger h.ck[q]} :: q in h.ck ==> !h.ck[q].st.Binned? && !h.ck[q].st.Fast?
    ensures forall i {:trigger h.bins[i]} :: 0 <= i < |h.bins| ==> h.bins[i] == []
  {
    forall q | q in h.ck ensures !h.ck[q].st.Binned? && !h.ck[q].st.Fast? {
      PlaceOf(h, q);
    }
  }

  /** The fastbin of a size is nonempty exactly if some chunk of that size is fast. */
  lemma FastbinFits(h: Heap, nb: nat)
    requires Valid(h) && MINSIZE <= nb && nb % 8 == 0
    ensures nb > MAX_FAST ==> NoFastFit(h, nb)
    ensures nb <= MAX_FAST ==> (h.fb[nb / 8 - 2] == 0 <==> NoFastFit(h, nb))
  {
    forall p | p in h.ck && FastFit(h, p, nb) ensures nb <= MAX_FAST && p in h.fasts[nb / 8 - 2] {
      PlaceOf(h, p);
    }
    if nb <= MAX_FAST {
      var j := nb / 8 - 2;
      EmptyFast(h, j);
      assert FastOk(h, j);
      if h.fasts[j] != [] { assert FastFit(h, h.fasts[j][0], nb); }
    }
  }

  /** The last remainder, when cut, was the only unsorted chunk, and no sorted one is an exact fit. */
  lemma NoExactLeft(h: Heap, nb: nat, r: int)
    requires Valid(h) && MINSIZE <= nb < 256 && nb % 8 == 0 && h.bins[1] == [r] && h.bins[nb / 8] == []
    ensures NoExact(h, nb, r)
  {
    forall q | q in h.ck && h.ck[q].st.Binned? && q != r ensures h.ck[q].size != nb {
      PlaceOf(h, q);
      IndexRange(nb);
    }
  }

  /** The free chunk of the given size at p was handed out whole. */
  ghost predicate Whole(h: Heap, p: int, size: int) {
    && p in h.ck && h.ck[p].size == size && h.ck[p].st.Live? && h.ck[p].before == -1
    && p + size in h.ck && !h.ck[p + size].st.Binned?
  }

  /** The free chunk of the given size at p was cut: its first nb bytes were handed out, and the
      rest is the one unsorted chunk. */
  ghost predicate CutInTwo(h: Heap, p: int, nb: nat, size: int) {
    && p in h.ck && nb < size && h.ck[p] == Chunk(nb, Live, -1)
    && p + nb in h.ck && h.ck[p + nb] == Chunk(size - nb, Binned(1), -1) && |h.bins| == NBINS && h.bins[1] == [p + nb]
  }

  /** How a chunk of the given size serves nb bytes: cut if the rest is large enough to be a chunk. */
  ghost predicate ServedFrom(h: Heap, p: int, nb: nat, size: int) {
    nb <= size && if size - nb < MINSIZE then Whole(h, p, size) else CutInTwo(h, p, nb, size)
  }

  /** No binned chunk but r is an exact fit. */
  ghost predicate NoExact(h: Heap, nb: nat, r: int) {
    forall q {:trigger h.ck[q]} :: q in h.ck && h.ck[q].st.Binned? && q != r ==> h.ck[q].size != nb
  }

  /** No binned chunk but r fits and is smaller than found. */
  ghost predicate NoneBetween(h: Heap, nb: nat, found: int, r: int) {
    forall q {:trigger h.ck[q]} :: q in h.ck && h.ck[q].st.Binned? && q != r ==> h.ck[q].size < nb || h.ck[q].size >= found
  }

  /** Best fit, outside the fastbins, with the last remainder as it was before and is afterwards: what is
      handed out is from the start of a smallest binned chunk that fits; or of the last remainder, if it
      is the only unsorted chunk and a small request has no exact fit; or of top, if no binned chunk fits.
      The rest of a chunk cut for a small request becomes the last remainder. */
  ghost predicate Chosen(last: int, last': int, h: Heap, p: int, nb: nat, via: Path) {
    match via
    case ViaBin(found) =>
      ServedFrom(h, p, nb, found) && NoneBetween(h, nb, found, p + nb) && last' == if nb < 256 && found - nb >= MINSIZE then p + nb else last
    case ViaRemainder(found) =>
      p == last && nb < 256 && nb + MINSIZE < found && CutInTwo(h, p, nb, found) && NoExact(h, nb, p + nb) && last' == p + nb
    case ViaTop =>
      p in h.ck && h.ck[p] == Chunk(nb, Live, -1) && p + nb == h.top && NoneFits(h, nb) && last' == last
    case ViaFastbin => false
    case Failed => false
  }

  /** The chunk p is on a fastbin and an exact fit. */
  ghost predicate FastFit(h: Heap, p: int, nb: nat) {
    p in h.ck && h.ck[p].st.Fast? && h.ck[p].size == nb
  }

  ghost predicate NoFastFit(h: Heap, nb: nat) {
    forall p {:trigger h.ck[p]} :: p in h.ck ==> !FastFit(h, p, nb)
  }

  /** The k-th unsorted chunk is the oldest of exactly nb bytes. */
  ghost predicate OldestExact(h: Heap, nb: nat, k: int) {
    && |h.bins| == NBINS && 0 <= k < |h.bins[1]| && SizeIs(h, h.bins[1][k], nb)
    && forall j {:trigger h.bins[1][j]} :: k < j < |h.bins[1]| ==> !SizeIs(h, h.bins[1][j], nb)
  }

  ghost predicate SizeIs(h: Heap, q: int, size: int) {
    q in h.ck && h.ck[q].size == size
  }

  /** v is the last chunk of bin i that fits nb bytes. */
  ghost predicate LastFit(h: Heap, i: int, nb: nat, v: int) {
    |h.bins| == NBINS && 0 <= i < NBINS && exists k {:trigger h.bins[i][k]} :: 0 <= k < |h.bins[i]| && h.bins[i][k] == v && NoneFitFrom(h, i, nb, k + 1)
  }

  ghost predicate NoneFitFrom(h: Heap, i: int, nb: nat, k: int)
    requires |h.bins| == NBINS && 0 <= i < NBINS
  {
    forall m {:trigger h.bins[i][m]} :: k <= m < |h.bins[i]| && 0 <= m ==> h.bins[i][m] in h.ck && h.ck[h.bins[i][m]].size < nb
  }

  /** v is the last chunk of the first nonempty bin above idx. */
  ghost predicate LastOfNext(h: Heap, idx: int, v: int) {
    && |h.bins| == NBINS && 0 <= idx
    && exists i {:trigger h.bins[i]} :: idx < i < NBINS && h.bins[i] != [] && NoneMarked(h.bins, idx + 1, i) && v == h.bins[i][|h.bins[i]| - 1]
  }

  /** Where a chunk goes in its bin: first in a small bin; last in a large one if no chunk there is smaller;
      else before the first chunk that is not larger. */
  ghost predicate BinPlace(h: Heap, i: int, k: int, size: nat)
    requires |h.bins| == NBINS && 0 <= i < NBINS
  {
    var L := h.bins[i];
    if size < 256 then k == 0
    else if NoSmaller(h, i, size) then k == |L|
    else 0 <= k <= |L| && forall m {:trigger L[m]} :: 0 <= m < |L| ==> L[m] in h.ck && (h.ck[L[m]].size > size <==> m < k)
  }

  ghost predicate NoSmaller(h: Heap, i: int, size: nat)
    requires |h.bins| == NBINS && 0 <= i < NBINS
  {
    forall m {:trigger h.bins[i][m]} :: 0 <= m < |h.bins[i]| ==> h.bins[i][m] in h.ck && h.ck[h.bins[i][m]].size >= size
  }

  /** The last chunk of a large bin is a smallest one. */
  lemma PlaceLast(h: Heap, i: int, size: nat)
    requires Valid(h) && 2 <= i < NBINS && h.bins[i] != [] && size >= 256
    requires h.bins[i][|h.bins[i]| - 1] in h.ck && h.ck[h.bins[i][|h.bins[i]| - 1]].size >= size
    ensures BinPlace(h, i, |h.bins[i]|, size)
  {
    assert BinOk(h, i);
  }

  lemma PlaceBefore(h: Heap, i: int, size: nat, k: nat)
    requires Valid(h) && 2 <= i < NBINS && k < |h.bins[i]| && size >= 256
    requires var L := h.bins[i];
             && L[|L| - 1] in h.ck && h.ck[L[|L| - 1]].size < size
             && (forall m :: 0 <= m < k ==> L[m] in h.ck && h.ck[L[m]].size > size)
             && L[k] in h.ck && h.ck[L[k]].size <= size
    ensures BinPlace(h, i, k, size)
  {
    assert BinOk(h, i);
    var L := h.bins[i];
    assert !NoSmaller(h, i, size) by { assert h.ck[L[|L| - 1]].size < size; }
  }

  lemma PlaceEmpty(h: Heap, i: int, size: nat)
    requires |h.bins| == NBINS && 0 <= i < NBINS && h.bins[i] == []
    ensures BinPlace(h, i, 0, size)
  {
  }

  /** The chunk x has come to its place in bin i. */
  ghost predicate InsertedIn(h0: Heap, i: int, x: int, size: nat, h: Heap) {
    && |h0.bins| == |h.bins| == NBINS && 0 <= i < NBINS
    && exists k {:trigger BinPlace(h0, i, k, size)} ::
         BinPlace(h0, i, k, size) && 0 <= k <= |h0.bins[i]| && h.bins[i] == Inserted(h0.bins[i], k, x)
  }

  /** Linking x at its place in bin i changes nothing else. */
  lemma LinkedFacts(h: Heap, x: int, i: int, k: int, lo': Mem, hi': Mem)
    requires x in h.ck && |h.bins| == NBINS && 1 <= i < NBINS && 0 <= k <= |h.bins[i]| && BinPlace(h, i, k, h.ck[x].size)
    ensures var h' := Linked(h, x, i, k, lo', hi');
            && InsertedIn(h, i, x, h.ck[x].size, h') && BinnedWithin(h, h', x) && SameBut(h, h', x, x, x)
            && x in h'.ck && h'.ck[x].size == h.ck[x].size
            && forall j | 1 <= j < NBINS && j != i :: h'.bins[j] == h.bins[j]
  {
  }

  /** The last chunk of a bin has been unlinked. */
  lemma LastRemoved(h: Heap, i: int, k: int, h': Heap)
    requires Valid(h) && 1 <= i < NBINS && h.bins[i] != [] && 0 <= k < |h.bins[i]|
    requires h.bins[i][k] == h.bins[i][|h.bins[i]| - 1] && |h'.bins| == NBINS && h'.bins[i] == Removed(h.bins[i], k)
    ensures h'.bins[i] == h.bins[i][..|h.bins[i]| - 1]
  {
    assert Distinct(h.bins[i]) by { assert BinOk(h, i); }
  }

  ghost predicate NoOldest(h: Heap, nb: nat) {
    forall k {:trigger OldestExact(h, nb, k)} :: !OldestExact(h, nb, k)
  }

  /** The unsorted chunks from the n-th on have been looked at, and none of them was an exact fit; the first n
      are as they were. */
  ghost predicate Unserved(h0: Heap, h: Heap, nb: nat) {
    && |h0.bins| == |h.bins| == NBINS
    && var U, n := h0.bins[1], |h.bins[1]|;
       && n <= |U| && h.bins[1] == U[..n]
       && (forall k {:trigger U[k]} :: n <= k < |U| ==> !SizeIs(h0, U[k], nb))
       && (forall k {:trigger U[k]} :: 0 <= k < n ==> SameAt(h0, h, U[k]))
  }

  lemma UnservedStep(h0: Heap, h: Heap, nb: nat, h': Heap)
    requires Valid(h0) && Unserved(h0, h, nb) && h.bins[1] != [] && |h'.bins| == NBINS
    requires var L := h.bins[1];
             var v := L[|L| - 1];
             !SizeIs(h, v, nb) && h'.bins[1] == L[..|L| - 1] && SameBut(h, h', v, v, v)
    ensures Unserved(h0, h', nb)
  {
    var U, n := h0.bins[1], |h.bins[1]|;
    var v := U[n - 1];
    assert SameAt(h0, h, v);
    assert Distinct(U) by { assert BinOk(h0, 1); }
    forall k | 0 <= k < n - 1 ensures SameAt(h0, h', U[k]) {
      assert U[k] != v && SameAt(h0, h, U[k]) && SameAt(h, h', U[k]);
    }
  }

  lemma ServedOldest(h0: Heap, h: Heap, nb: nat, mem: int)
    requires Unserved(h0, h, nb) && h.bins[1] != []
    requires var v := h.bins[1][|h.bins[1]| - 1]; mem == v + 8 && (SizeIs(h, v, nb) || |h.bins[1]| == 1)
    ensures OldestTaken(h0, nb, mem)
  {
    var U, n := h0.bins[1], |h.bins[1]|;
    assert SameAt(h0, h, U[n - 1]);
    forall k | OldestExact(h0, nb, k) ensures mem == U[k] + 8 {
      assert SizeIs(h0, U[k], nb);
    }
  }

  lemma UnservedEnd(h0: Heap, h: Heap, nb: nat)
    requires Unserved(h0, h, nb) && h.bins[1] == []
    ensures NoOldest(h0, nb)
  {
    forall k ensures !OldestExact(h0, nb, k) {}
  }

  /** If some unsorted chunk is an exact fit, mem is the oldest one. */
  ghost predicate OldestTaken(h: Heap, nb: nat, mem: int) {
    forall k {:trigger OldestExact(h, nb, k)} :: OldestExact(h, nb, k) ==> mem == h.bins[1][k] + 8
  }

  /** A small request takes the last chunk of its bin, which is an exact fit, or else the oldest exact fit among
      the unsorted chunks, if there is one. */
  ghost predicate SmallFirst(h: Heap, nb: nat, mem: int) {
    nb < 256 && h.ck != map[] ==>
      && |h.bins| == NBINS
      && var L := h.bins[nb / 8]; if L != [] then mem == L[|L| - 1] + 8 else OldestTaken(h, nb, mem)
  }

  /** Which chunk serves nb bytes: the last one freed of exactly that size, if a fastbin holds one; else by best fit. */
  ghost predicate BestFit(h0: Heap, last: int, last': int, h: Heap, p: int, nb: nat, via: Path) {
    if via.ViaFastbin? then
      && FastFit(h0, p, nb) && |h0.fasts| == NFASTBINS && MINSIZE <= nb <= MAX_FAST && h0.fasts[nb / 8 - 2] != [] && h0.fasts[nb / 8 - 2][0] == p
      && h.ck == h0.ck[p := h0.ck[p].(st := Live)] && h.fasts == h0.fasts[nb / 8 - 2 := h0.fasts[nb / 8 - 2][1..]] && last' == last
    else NoFastFit(h0, nb) && Chosen(last, last', h, p, nb, via)
  }

  ghost predicate NoneFits(h: Heap, nb: nat) {
    forall q {:trigger h.ck[q]} :: q in h.ck && h.ck[q].st.Binned? ==> h.ck[q].size < nb
  }

  /** No binned chunk of at least nb bytes is smaller than size. */
  ghost predicate Fits(h: Heap, nb: nat, size: nat) {
    forall q {:trigger h.ck[q]} :: q in h.ck && h.ck[q].st.Binned? ==> h.ck[q].size < nb || h.ck[q].size >= size
  }

  /** Every chunk in the bins up to idx is too small. */
  ghost predicate BelowUnfit(h: Heap, nb: nat, idx: int) {
    forall q {:trigger h.ck[q]} :: q in h.ck && h.ck[q].st.Binned? && h.ck[q].st.bin <= idx ==> h.ck[q].size < nb
  }

  /** The bins from a up to b are empty. */
  ghost predicate NoneMarked(bins: seq<seq<int>>, a: int, b: int)
    requires |bins| == NBINS
  {
    forall j {:trigger bins[j]} :: a <= j < b && 2 <= j < NBINS ==> bins[j] == []
  }

  /** If bit k exceeds the word, or lies outside it, the rest of the block is empty. */
  lemma SkipRest(binmap: seq<nat>, bins: seq<seq<int>>, block: nat, k: nat)
    requires MapOk(binmap, bins) && block <= 3 && k <= 32 && (k == 32 || binmap[block] < Pow2(k))
    ensures NoneMarked(bins, 32 * block + k, 32 * (block + 1))
  {
    forall j | 32 * block + k <= j < 32 * (block + 1) && 2 <= j < NBINS ensures bins[j] == [] {
      NoBit(binmap[block], k, j % 32);
      assert MapBit(binmap, bins, j);
    }
  }

  lemma BelowWord(v: nat, k: nat)
    requires Pow2(k) <= v < WORD
    ensures k < 32
  {
    PowMono(32, if k < 32 then 32 else k);
    Powers();
  }

  lemma SkipOne(binmap: seq<nat>, bins: seq<seq<int>>, block: nat, k: nat)
    requires MapOk(binmap, bins) && block < 3 && k < 32 && Pow2(k) <= binmap[block] && And(Pow2(k), binmap[block]) == 0
    ensures NoneMarked(bins, 32 * block + k, 32 * block + k + 1)
    ensures k + 1 < 32 && Pow2(k + 1) <= binmap[block] && Shl32(Pow2(k), 1) == Pow2(k + 1)
  {
    TestBit(Pow2(k), binmap[block], k);
    HigherBit(binmap[block], k);
    BelowWord(binmap[block], k + 1);
    NextBit(k);
    ClearBit(binmap, bins, block, k);
  }

  lemma ClearBit(binmap: seq<nat>, bins: seq<seq<int>>, block: nat, k: nat)
    requires MapOk(binmap, bins) && block < 3 && k < 32 && !Bit(binmap[block], k)
    ensures NoneMarked(bins, 32 * block + k, 32 * block + k + 1)
  {
    var i := 32 * block + k;
    if 2 <= i {
      assert i / 32 == block && i % 32 == k;
      assert MapBit(binmap, bins, i);
    }
  }

  lemma UnmarkOk(m: seq<nat>, bins: seq<seq<int>>, block: nat, k: nat)
    requires MapOk(m, bins) && block < 3 && k < 32 && NoneMarked(bins, 32 * block + k, 32 * block + k + 1)
    ensures MapOk(m[block := AndNot(m[block], Pow2(k))], bins)
  {
    var m' := m[block := AndNot(m[block], Pow2(k))];
    forall j | 2 <= j < NBINS ensures MapBit(m', bins, j) {
      assert MapBit(m, bins, j);
      if j / 32 == block { AndNotPowBits(m[block], k, j % 32); }
    }
  }

  /** With the bins above idx empty too, no binned chunk fits. */
  lemma AllUnfit(h: Heap, nb: nat, idx: nat)
    requires Valid(h) && h.bins[1] == [] && BelowUnfit(h, nb, idx) && NoneMarked(h.bins, idx + 1, NBINS)
    ensures NoneFits(h, nb)
  {
    forall q | q in h.ck && h.ck[q].st.Binned? ensures h.ck[q].size < nb {
      SortedBin(h, q);
    }
  }

  /** The last chunk of the first nonempty bin above idx is the smallest that fits. */
  lemma SmallestAbove(h: Heap, nb: nat, idx: nat, i: nat)
    requires Valid(h) && h.bins[1] == [] && MINSIZE <= nb && idx == IndexOf(nb) && BelowUnfit(h, nb, idx)
    requires 2 <= idx < i < NBINS && h.bins[i] != [] && NoneMarked(h.bins, idx + 1, i)
    requires h.bins[i][|h.bins[i]| - 1] in h.ck && h.ck[h.bins[i][|h.bins[i]| - 1]].st == Binned(i)
    ensures var size := h.ck[h.bins[i][|h.bins[i]| - 1]].size; size >= nb && Fits(h, nb, size)
  {
    var v := h.bins[i][|h.bins[i]| - 1];
    var size := h.ck[v].size;
    SortedBin(h, v);
    if size < nb { IndexMono(size, nb); }
    forall q | q in h.ck && h.ck[q].st.Binned? && h.ck[q].size >= nb ensures h.ck[q].size >= size {
      SortedBin(h, q);
      if h.ck[q].size < size { IndexMono(h.ck[q].size, size); }
      if h.ck[q].st.bin == i {
        var m :| 0 <= m < |h.bins[i]| && h.bins[i][m] == q;
        assert BinOk(h, i);
      }
    }
  }

  /** bit & map tests bit k. */
  lemma TestBit(bit: nat, word: nat, k: nat)
    requires bit == Pow2(k)
    ensures And(bit, word) == 0 <==> !Bit(word, k)
  {
    AndSym(bit, word);
    AndPow(word, k);
  }

  lemma {:induction false} AndSym(a: nat, b: nat)
    ensures And(a, b) == And(b, a)
  {
    if a != 0 && b != 0 { AndSym(a / 2, b / 2); }
  }

  /** A binned chunk is in the bin of its size, when no chunk is unsorted. */
  lemma SortedBin(h: Heap, q: int)
    requires Valid(h) && h.bins[1] == [] && q in h.ck && h.ck[q].st.Binned?
    ensures 2 <= h.ck[q].st.bin < NBINS && h.ck[q].st.bin == IndexOf(h.ck[q].size) && MINSIZE <= h.ck[q].size
    ensures q in h.bins[h.ck[q].st.bin]
  {
    PlaceOf(h, q);
  }

  lemma LargeFits(h: Heap, nb: nat, idx: nat, k: nat)
    requires Valid(h) && h.bins[1] == [] && MINSIZE <= nb && idx == IndexOf(nb) && 2 <= idx < NBINS && k < |h.bins[idx]|
    requires forall m :: k < m < |h.bins[idx]| ==> h.bins[idx][m] in h.ck && h.ck[h.bins[idx][m]].size < nb
    requires h.bins[idx][k] in h.ck && h.ck[h.bins[idx][k]].st == Binned(idx) && h.ck[h.bins[idx][k]].size >= nb
    ensures Fits(h, nb, h.ck[h.bins[idx][k]].size)
  {
    var size := h.ck[h.bins[idx][k]].size;
    SortedBin(h, h.bins[idx][k]);
    forall q | q in h.ck && h.ck[q].st.Binned?
      ensures h.ck[q].size < nb || h.ck[q].size >= size
    {
      SortedBin(h, q);
      if h.ck[q].size < size { IndexMono(h.ck[q].size, size); }
      if h.ck[q].size >= nb { IndexMono(nb, h.ck[q].size); }
      if h.ck[q].st.bin == idx {
        var m :| 0 <= m < |h.bins[idx]| && h.bins[idx][m] == q;
        assert BinOk(h, idx);
      }
    }
  }

  lemma LargeUnfit(h: Heap, nb: nat, idx: nat, k: nat)
    requires Valid(h) && h.bins[1] == [] && MINSIZE <= nb && idx == IndexOf(nb) && 2 <= idx < NBINS && k == 0
    requires forall m :: k <= m < |h.bins[idx]| ==> h.bins[idx][m] in h.ck && h.ck[h.bins[idx][m]].size < nb
    ensures BelowUnfit(h, nb, idx)
  {
    forall q | q in h.ck && h.ck[q].st.Binned? && h.ck[q].st.bin <= idx
      ensures h.ck[q].size < nb
    {
      SortedBin(h, q);
      if h.ck[q].size >= nb { IndexMono(nb, h.ck[q].size); }
      if h.ck[q].st.bin == idx {
        var m :| 0 <= m < |h.bins[idx]| && h.bins[idx][m] == q;
      }
    }
  }

  /** A small bin below 32 holds chunks of one size. */
  lemma SmallBinHas(h: Heap, idx: nat)
    requires Valid(h) && 2 <= idx < 32
    ensures forall q {:trigger h.ck[q]} :: q in h.ck && h.ck[q].st == Binned(idx) ==> h.ck[q].size == 8 * idx
  {
    forall q | q in h.ck && h.ck[q].st == Binned(idx) ensures h.ck[q].size == 8 * idx {
      PlaceOf(h, q);
      IndexRange(h.ck[q].size);
    }
  }

  lemma LowerUnfit(h: Heap, nb: nat, idx: nat)
    requires Valid(h) && h.bins[1] == [] && MINSIZE <= nb && idx == IndexOf(nb) && 2 <= idx < NBINS && h.bins[idx] == []
    ensures BelowUnfit(h, nb, idx)
  {
    LargeUnfit(h, nb, idx, 0);
  }

  /** The request size is recomputed to the same value when sYSMALLOc retries. */
  lemma RetryRequest(nb: nat)
    requires MINSIZE <= nb && nb % 8 == 0
    ensures Request(nb - 7) == nb
  {
  }

  lemma BareAdmin(binmap: seq<nat>, fb: seq<int>)
    requires binmap == [0, 0, 0, 0]
    ensures FlagsOk(MAX_FAST, seq(NBINS, _ => []), seq(NFASTBINS, _ => []))
    ensures MapOk(binmap, seq(NBINS, _ => []))
  {
    var bins: seq<seq<int>> := seq(NBINS, _ => []);
    forall i | 2 <= i < NBINS ensures MapBit(binmap, bins, i) {}
  }

  /** A chunk of 8k bytes holds 2k - 1 payload words. */
  lemma OddCopies(size: nat)
    requires size % 8 == 0 && MINSIZE <= size
    ensures (size - SIZE_SZ) / 4 >= 3 && (size - SIZE_SZ) / 4 % 2 == 1
  {
    assert (size - 4) / 4 == 2 * (size / 8) - 1;
  }

  lemma SavedSame(lo: Mem, hi: Mem, B: map<int, int>)
    ensures Saved(lo, hi, lo, hi, B)
  {
    forall p | p in B ensures SamePayload(lo, hi, lo, hi, p, B[p]) {}
  }

  lemma NotBack(h: Heap, p0: int, p: int, n: int)
    requires Gathered(h, p0, p)
    ensures Next(h, p0) != p
    ensures Next(h, p0) in h.ck ==> Next(h, Next(h, p0)) != p
  {
    assert Placed(h, p0) && Placed(h, p);
    if Next(h, p0) in h.ck { assert Placed(h, Next(h, p0)); }
  }
}
