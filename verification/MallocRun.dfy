/** Whole runs of a program over the allocator: the heap behaves as a store of separate
    blocks, in which every word holds what the program last put there. */
module MallocRun {
  import opened Words
  import opened MallocLists
  import opened MallocHeap
  import opened MallocMoves
  import opened MallocResize
  import opened MallocAlign
  import opened MallocPolicy
  import opened Malloc
  import opened MallocRoom

  /** What a program may ask for.  Actions on blocks it does not hold are ignored. */
  datatype Action =
    | DoMalloc(bytes: nat)
    | DoFree(mem: int)
    | DoRealloc(mem: int, bytes: nat)
    | DoMemalign(alignment: nat, bytes: nat)
    | DoStore(mem: int, i: nat, v: int)
    | DoLoad(mem: int, i: nat)

  /** Word i of the block in the chunk p is v. */
  ghost predicate WordIs(lo: Mem, hi: Mem, p: int, i: int, v: int) {
    Word(lo, hi, p + 8 + 4 * i) == v
  }

  /** The chunk p of the given size holds the block. */
  ghost predicate Holds(lo: Mem, hi: Mem, p: int, size: int, b: Block) {
    && b.bytes + SIZE_SZ <= size <= Request(b.bytes) + MINSIZE && MINSIZE <= size && p % 8 == 0 && size % 8 == 0
    && (forall i {:trigger b.words[i]} :: i in b.words ==> 0 <= i && 4 * (i + 1) <= b.bytes)
    && (forall i {:trigger WordIs(lo, hi, p, i, b.words[i])} :: i in b.words ==> WordIs(lo, hi, p, i, b.words[i]))
  }

  ghost predicate Mirrors(lo: Mem, hi: Mem, B: map<int, int>, mem: int, b: Block) {
    Mem2Chunk(mem) in B && Holds(lo, hi, Mem2Chunk(mem), B[Mem2Chunk(mem)], b)
  }

  /** The program's view of its blocks is what the memory holds, and no block is lost. */
  ghost predicate Faithful(lo: Mem, hi: Mem, B: map<int, int>, data: map<int, Block>) {
    && (forall mem {:trigger Mirrors(lo, hi, B, mem, data[mem])} :: mem in data ==> Mirrors(lo, hi, B, mem, data[mem]))
    && (forall p {:trigger Held(data, p)} :: p in B ==> Held(data, p))
  }

  // ------------------------------------------------------ single blocks

  /** Where word i of a block of m bytes lies. */
  lemma WordRange(q: int, m: int, i: nat)
    requires q % 8 == 0 && m % 8 == 0 && MINSIZE <= m && 4 * (i + 1) + SIZE_SZ <= m
    ensures var a := q + 8 + 4 * (i / 2 * 2); a % 8 == 0 && q < a <= q + m && (i % 2 == 1 ==> a < q + m)
  {
    var j, n, r := i / 2, m / 8, q / 8;
    assert i < 2 * n - 1 && (i == 2 * j || i == 2 * j + 1);
    assert q + 8 + 4 * (j * 2) == 8 * (r + 1 + j);
  }

  lemma CarriedAt(lo: Mem, hi: Mem, p: int, lo': Mem, hi': Mem, q: int, m: int, a: int)
    requires Carried(lo, hi, p, lo', hi', q, m) && q < a <= q + m && a % 8 == 0
    ensures Rd(lo', a) == Rd(lo, a - q + p) && (a < q + m ==> Rd(hi', a) == Rd(hi, a - q + p))
  {
  }

  /** A word of a block is part of its payload. */
  lemma PayloadWord(lo: Mem, hi: Mem, lo': Mem, hi': Mem, p: int, q: int, m: int, i: nat)
    requires p % 8 == q % 8 == m % 8 == 0 && MINSIZE <= m && 4 * (i + 1) + SIZE_SZ <= m && Carried(lo, hi, p, lo', hi', q, m)
    ensures Word(lo', hi', q + 8 + 4 * i) == Word(lo, hi, p + 8 + 4 * i)
  {
    var k := i / 2 * 2;
    WordsAt(lo, hi, p, k);
    WordsAt(lo', hi', q, k);
    WordRange(q, m, i);
    CarriedAt(lo, hi, p, lo', hi', q, m, q + 8 + 4 * k);
    assert i == k || i == k + 1;
  }

  lemma SameCarried(lo: Mem, hi: Mem, lo': Mem, hi': Mem, p: int, m: int)
    requires SamePayload(lo, hi, lo', hi', p, m)
    ensures Carried(lo, hi, p, lo', hi', p, m)
  {
  }

  /** The block, resized to a number of bytes. */
  function Clipped(b: Block, bytes: nat): Block {
    Block(bytes, map i | i in b.words && 4 * (i + 1) <= bytes :: b.words[i])
  }

  lemma HoldsCarried(lo: Mem, hi: Mem, p: int, s: int, b: Block, lo': Mem, hi': Mem, q: int, s': int, bytes: nat)
    requires Holds(lo, hi, p, s, b) && q % 8 == s' % 8 == 0 && MINSIZE <= s' && bytes + SIZE_SZ <= s' <= Request(bytes) + MINSIZE
    requires Carried(lo, hi, p, lo', hi', q, if s < s' then s else s')
    ensures Holds(lo', hi', q, s', Clipped(b, bytes))
  {
    var b' := Clipped(b, bytes);
    forall i | i in b'.words ensures 0 <= i && 4 * (i + 1) <= bytes && WordIs(lo', hi', q, i, b'.words[i]) {
      assert b.words[i] == b'.words[i] && WordIs(lo, hi, p, i, b.words[i]);
      PayloadWord(lo, hi, lo', hi', p, q, if s < s' then s else s', i);
    }
  }

  /** A block that keeps its address and size keeps its contents. */
  lemma MirrorsSaved(lo: Mem, hi: Mem, B: map<int, int>, mem: int, b: Block, lo': Mem, hi': Mem, B': map<int, int>, C: map<int, int>)
    requires Mirrors(lo, hi, B, mem, b) && Saved(lo, hi, lo', hi', C)
    requires var p := Mem2Chunk(mem); p in B && p in C && p in B' && B[p] == C[p] == B'[p]
    ensures Mirrors(lo', hi', B', mem, b)
  {
    var p := Mem2Chunk(mem);
    assert SamePayload(lo, hi, lo', hi', p, C[p]);
    SameCarried(lo, hi, lo', hi', p, C[p]);
    HoldsCarried(lo, hi, p, B[p], b, lo', hi', p, B[p], b.bytes);
    assert Clipped(b, b.bytes).words == b.words;
  }

  lemma Aligned4(p: int, i: int)
    requires p % 8 == 0
    ensures (p + 8 + 4 * i) % 4 == 0
  {
    assert p + 8 + 4 * i == 4 * (2 * (p / 8) + 2 + i);
  }

  lemma StoredHolds(lo: Mem, hi: Mem, p: int, size: int, b: Block, i: nat, v: int)
    requires Holds(lo, hi, p, size, b) && 4 * (i + 1) <= b.bytes
    ensures Holds(PutLo(lo, p + 8 + 4 * i, v), PutHi(hi, p + 8 + 4 * i, v), p, size, Block(b.bytes, b.words[i := v]))
  {
    var w := p + 8 + 4 * i;
    var lo', hi' := PutLo(lo, w, v), PutHi(hi, w, v);
    var d' := b.words[i := v];
    forall j | j in d' ensures 0 <= j && 4 * (j + 1) <= b.bytes && WordIs(lo', hi', p, j, d'[j]) {
      if j != i {
        assert b.words[j] == d'[j] && WordIs(lo, hi, p, j, b.words[j]);
        Aligned4(p, i);
        Aligned4(p, j);
        PutOther(lo, hi, w, v, p + 8 + 4 * j);
      }
    }
  }

  // --------------------------------------------------------- all blocks

  lemma SameFaithful(lo: Mem, hi: Mem, B: map<int, int>, data: map<int, Block>, lo': Mem, hi': Mem)
    requires Faithful(lo, hi, B, data) && Saved(lo, hi, lo', hi', B)
    ensures Faithful(lo', hi', B, data)
  {
    forall mem | mem in data ensures Mirrors(lo', hi', B, mem, data[mem]) {
      assert Mirrors(lo, hi, B, mem, data[mem]);
      MirrorsSaved(lo, hi, B, mem, data[mem], lo', hi', B, B);
    }
  }

  lemma AddedFaithful(lo: Mem, hi: Mem, B: map<int, int>, data: map<int, Block>, lo': Mem, hi': Mem, B': map<int, int>, p: int, bytes: nat)
    requires Faithful(lo, hi, B, data) && Saved(lo, hi, lo', hi', B)
    requires p !in B && p in B' && B' == B[p := B'[p]] && p > 0 && p % 8 == 0
    requires B'[p] % 8 == 0 && MINSIZE <= B'[p] && bytes + SIZE_SZ <= B'[p] <= Request(bytes) + MINSIZE
    ensures p + 8 !in data && Faithful(lo', hi', B', data[p + 8 := Block(bytes, map[])])
  {
    var data' := data[p + 8 := Block(bytes, map[])];
    assert p + 8 in data ==> Mirrors(lo, hi, B, p + 8, data[p + 8]);
    forall mem | mem in data' ensures Mirrors(lo', hi', B', mem, data'[mem]) {
      if mem != p + 8 {
        assert Mirrors(lo, hi, B, mem, data[mem]);
        MirrorsSaved(lo, hi, B, mem, data[mem], lo', hi', B', B);
      }
    }
    forall x | x in B' ensures Held(data', x) {
      if x != p { assert Held(data, x); }
    }
  }

  lemma FreedFaithful(lo: Mem, hi: Mem, B: map<int, int>, data: map<int, Block>, lo': Mem, hi': Mem, mem0: int)
    requires Faithful(lo, hi, B, data) && Mem2Chunk(mem0) in B && Saved(lo, hi, lo', hi', B - {Mem2Chunk(mem0)})
    ensures Faithful(lo', hi', B - {Mem2Chunk(mem0)}, data - {mem0})
  {
    var B' := B - {Mem2Chunk(mem0)};
    forall mem | mem in data - {mem0} ensures Mirrors(lo', hi', B', mem, data[mem]) {
      assert Mirrors(lo, hi, B, mem, data[mem]);
      MirrorsSaved(lo, hi, B, mem, data[mem], lo', hi', B', B');
    }
    forall p | p in B' ensures Held(data - {mem0}, p) {
      assert Held(data, p);
    }
  }

  /** The program's view after a realloc. */
  function Moved(data: map<int, Block>, mem: int, mem': int, bytes: nat): map<int, Block>
    requires mem in data
  {
    (data - {mem})[mem' := Clipped(data[mem], bytes)]
  }

  lemma MovedFaithful(lo: Mem, hi: Mem, B: map<int, int>, data: map<int, Block>, lo': Mem, hi': Mem, B': map<int, int>,
                      mem: int, mem': int, bytes: nat)
    requires Faithful(lo, hi, B, data) && mem in data && mem' > 8
    requires Mem2Chunk(mem) in B && Regranted(lo, hi, B, Mem2Chunk(mem), lo', hi', B', mem', Request(bytes))
    requires Mem2Chunk(mem') in B' && B'[Mem2Chunk(mem')] % 8 == 0
    ensures Faithful(lo', hi', B', Moved(data, mem, mem', bytes))
  {
    assert Mirrors(lo, hi, B, mem, data[mem]);
    var p, q := Mem2Chunk(mem), Mem2Chunk(mem');
    HoldsCarried(lo, hi, p, B[p], data[mem], lo', hi', q, B'[q], bytes);
    RestFaithful(lo, hi, B, data, lo', hi', mem, mem', B'[q], Clipped(data[mem], bytes));
  }

  lemma RestFaithful(lo: Mem, hi: Mem, B: map<int, int>, data: map<int, Block>, lo': Mem, hi': Mem, mem: int, mem': int, s: int, b: Block)
    requires Faithful(lo, hi, B, data) && mem in data && mem' > 8
    requires mem' == mem || Mem2Chunk(mem') !in B
    requires Saved(lo, hi, lo', hi', B - {Mem2Chunk(mem)})
    requires Holds(lo', hi', Mem2Chunk(mem'), s, b)
    ensures Faithful(lo', hi', (B - {Mem2Chunk(mem)})[Mem2Chunk(mem') := s], (data - {mem})[mem' := b])
  {
    var C := B - {Mem2Chunk(mem)};
    var B' := C[Mem2Chunk(mem') := s];
    var data' := (data - {mem})[mem' := b];
    forall x | x in data' ensures Mirrors(lo', hi', B', x, data'[x]) {
      if x != mem' {
        assert Mirrors(lo, hi, B, x, data[x]);
        MirrorsSaved(lo, hi, B, x, data[x], lo', hi', B', C);
      }
    }
    forall x | x in B' ensures Held(data', x) {
      if x != Mem2Chunk(mem') { assert Held(data, x); }
    }
  }

  lemma StoredFaithful(lo: Mem, hi: Mem, B: map<int, int>, data: map<int, Block>, mem: int, i: nat, v: int, lo': Mem, hi': Mem)
    requires Faithful(lo, hi, B, data) && mem in data && Mem2Chunk(mem) in B && 4 * (i + 1) <= data[mem].bytes
    requires lo' == PutLo(lo, mem + 4 * i, v) && hi' == PutHi(hi, mem + 4 * i, v)
    requires Saved(lo, hi, lo', hi', B - {Mem2Chunk(mem)})
    ensures Faithful(lo', hi', B, Written(data, mem, i, v))
  {
    var data' := Written(data, mem, i, v);
    assert Mirrors(lo, hi, B, mem, data[mem]);
    StoredHolds(lo, hi, Mem2Chunk(mem), B[Mem2Chunk(mem)], data[mem], i, v);
    assert Mirrors(lo', hi', B, mem, data'[mem]);
    forall x | x in data' ensures Mirrors(lo', hi', B, x, data'[x]) {
      if x != mem {
        assert Mirrors(lo, hi, B, x, data[x]);
        MirrorsSaved(lo, hi, B, x, data[x], lo', hi', B, B - {Mem2Chunk(mem)});
      }
    }
    forall x | x in B ensures Held(data', x) {
      assert Held(data, x);
    }
  }

  /** The program's view after a store. */
  function Written(data: map<int, Block>, mem: int, i: nat, v: int): map<int, Block>
    requires mem in data
  {
    data[mem := Block(data[mem].bytes, data[mem].words[i := v])]
  }

  // ------------------------------------------------------------ actions

  /** The program's view of its blocks is right, and the allocator is in order. */
  ghost predicate InStep(m: Mstate, data: map<int, Block>)
    reads m
  {
    m.Ok() && Faithful(m.lo, m.hi, m.Allocated(), data)
  }

  /** Blocks lie in chunks of at least MINSIZE, at multiples of 8. */
  lemma BlockShape(m: Mstate, p: int)
    requires m.Ok() && p in m.Allocated()
    ensures p > 0 && p % 8 == 0 && m.Allocated()[p] % 8 == 0 && m.Allocated()[p] >= MINSIZE && m.Ready()
  {
    PlaceOf(m.heap, p);
  }

  /** What was stored can be read back. */
  lemma ReadBack(m: Mstate, data: map<int, Block>, mem: int, i: int)
    requires InStep(m, data) && mem in data && i in data[mem].words
    ensures Word(m.lo, m.hi, mem + 4 * i) == data[mem].words[i]
  {
    assert Mirrors(m.lo, m.hi, m.Allocated(), mem, data[mem]);
    assert WordIs(m.lo, m.hi, Mem2Chunk(mem), i, data[mem].words[i]);
  }

  lemma Inside(m: Mstate, data: map<int, Block>, a: int)
    requires InStep(m, data) && a in data
    ensures m.memHeap < a && a + data[a].bytes < m.curptr <= m.memHeapEnd
  {
    assert Mirrors(m.lo, m.hi, m.Allocated(), a, data[a]);
    BlockShape(m, Mem2Chunk(a));
    PlaceOf(m.heap, Mem2Chunk(a));
  }

  /** The bytes asked for of two blocks do not overlap. */
  lemma Disjoint(m: Mstate, data: map<int, Block>, a: int, b: int)
    requires InStep(m, data) && a in data && b in data && a < b
    ensures a + data[a].bytes <= b
  {
    assert Mirrors(m.lo, m.hi, m.Allocated(), a, data[a]) && Mirrors(m.lo, m.hi, m.Allocated(), b, data[b]);
    BlockShape(m, Mem2Chunk(a));
    PlaceOf(m.heap, Mem2Chunk(a));
    PlaceOf(m.heap, Mem2Chunk(b));
    Ordered(m.heap, Mem2Chunk(a), Mem2Chunk(b));
  }

  /** The blocks held are apart, and lie between two addresses. */
  ghost predicate Separate(data: map<int, Block>, start: int, end: int) {
    && (forall a {:trigger data[a]} :: a in data ==> start < a && a + data[a].bytes < end)
    && (forall a, b {:trigger data[a], data[b]} :: a in data && b in data && a < b ==> a + data[a].bytes <= b)
  }

  lemma InStepSeparate(m: Mstate, data: map<int, Block>)
    requires InStep(m, data)
    ensures Separate(data, m.memHeap, m.memHeapEnd)
  {
    forall a, b | a in data && b in data && a < b ensures a + data[a].bytes <= b {
      Disjoint(m, data, a, b);
    }
    forall a | a in data ensures m.memHeap < a && a + data[a].bytes < m.memHeapEnd {
      Inside(m, data, a);
    }
  }

  lemma InStepKnown(m: Mstate, data: map<int, Block>)
    requires InStep(m, data)
    ensures Known(m.Allocated(), data)
  {
    forall x | x in data ensures Sized(m.Allocated(), data, x) {
      assert Mirrors(m.lo, m.hi, m.Allocated(), x, data[x]);
    }
  }

  // ----------------------------------------------- actions and outcomes

  /** What came of an action. */
  datatype Outcome =
    | Got(mem: int, bytes: nat)
    | Gave(mem: int)
    | Changed(mem: int, mem': int, bytes: nat)
    | Put(mem: int, i: nat, v: int)
    | Loaded(v: int)
    | Null
    | Ignored

  /** A request of bytes bytes, for which malloc is asked for padded bytes, gives a new block at a
      multiple of a; or null, if it is out of range or the program holds too much. */
  ghost predicate Served(o: Outcome, data: map<int, Block>, bytes: nat, padded: nat, a: nat, room: int)
    requires a > 0
  {
    if o.Null? then OutOfRange(bytes) || OutOfRange(padded) || Short(room, data, Request(padded))
    else o.Got? && o.bytes == bytes && o.mem > 0 && o.mem !in data && o.mem % a == 0 && !OutOfRange(bytes)
  }

  /** The block has its new size, in place if it does not grow; or null as before. */
  ghost predicate Resized(o: Outcome, data: map<int, Block>, mem: int, bytes: nat, room: int)
    requires mem in data
  {
    if o.Null? then OutOfRange(bytes) || (Request(bytes) > Request(data[mem].bytes) && Short(room, data, Request(bytes)))
    else && o.Changed? && o.mem == mem && o.bytes == bytes && o.mem' > 0 && o.mem' % 8 == 0 && !OutOfRange(bytes)
         && (o.mem' == mem || (o.mem' !in data && Request(bytes) > Request(data[mem].bytes)))
  }

  /** The bytes memalign asks malloc for. */
  function Padded(alignment: nat, bytes: nat): nat {
    if alignment <= 8 then bytes else Request(bytes) + AlignTo(alignment) + MINSIZE
  }

  /** The requests memalign can handle; see MallocAlign and MallocPolicy for the others. */
  predicate Alignable(alignment: nat, bytes: nat) {
    && bytes < WORD && alignment <= 0x8000_0000
    && (alignment > 8 && !OutOfRange(bytes) ==> Request(bytes) + AlignTo(alignment) + MINSIZE < WORD)
  }

  /** What may come of an action of a program that holds the blocks in data, in a heap area of
      room bytes.  Actions on blocks it does not hold do nothing. */
  ghost predicate Did(action: Action, data: map<int, Block>, o: Outcome, room: int) {
    match action
    case DoMalloc(bytes) =>
      if bytes < WORD then Served(o, data, bytes, bytes, 8, room) else o == Ignored
    case DoFree(mem) =>
      o == if mem in data then Gave(mem) else Ignored
    case DoRealloc(mem, bytes) =>
      if mem in data && bytes < WORD then Resized(o, data, mem, bytes, room) else o == Ignored
    case DoMemalign(alignment, bytes) =>
      if Alignable(alignment, bytes) then Served(o, data, bytes, Padded(alignment, bytes), AlignTo(alignment), room) else o == Ignored
    case DoStore(mem, i, v) =>
      o == if mem in data && 4 * (i + 1) <= data[mem].bytes then Put(mem, i, v) else Ignored
    case DoLoad(mem, i) =>
      if mem in data && 4 * (i + 1) <= data[mem].bytes then o.Loaded? && (i in data[mem].words ==> o.v == data[mem].words[i])
      else o == Ignored
  }

  /** What the program knows of its blocks after one more outcome. */
  function Apply(data: map<int, Block>, o: Outcome): map<int, Block> {
    match o
    case Got(mem, bytes) => data[mem := Block(bytes, map[])]
    case Gave(mem) => data - {mem}
    case Changed(mem, mem', bytes) => if mem in data then Moved(data, mem, mem', bytes) else data
    case Put(mem, i, v) => if mem in data then Written(data, mem, i, v) else data
    case Loaded(_) => data
    case Null => data
    case Ignored => data
  }

  /** The blocks and their contents, from the history alone. */
  function Replay(outcomes: seq<Outcome>): map<int, Block> {
    if outcomes == [] then map[] else Apply(Replay(outcomes[..|outcomes| - 1]), outcomes[|outcomes| - 1])
  }

  function Room(m: Mstate): int {
    m.memHeapEnd - m.memHeap
  }

  method Allocate(m: Mstate, bytes: nat, ghost data: map<int, Block>) returns (o: Outcome)
    requires InStep(m, data) && bytes < WORD
    modifies m
    ensures Served(o, data, bytes, bytes, 8, Room(m)) && InStep(m, Apply(data, o))
  {
    ghost var lo0, hi0, B := m.lo, m.hi, m.Allocated();
    ghost var via;
    var mem;
    mem, via := m.Malloc(bytes);
    o := if mem == 0 then Null else Got(mem, bytes);
    if mem == 0 {
      SameFaithful(lo0, hi0, B, data, m.lo, m.hi);
      if !OutOfRange(bytes) { HeldShort(m, data, Request(bytes)); }
    } else {
      BlockShape(m, Mem2Chunk(mem));
      AddedFaithful(lo0, hi0, B, data, m.lo, m.hi, m.Allocated(), Mem2Chunk(mem), bytes);
    }
  }

  lemma HeldShort(m: Mstate, data: map<int, Block>, nb: nat)
    requires InStep(m, data) && MINSIZE <= nb && (OutOfRange(nb - 7) || m.Starved(nb))
    ensures Short(Room(m), data, nb)
  {
    InStepKnown(m, data);
    if m.Starved(nb) { StarvedShort(m, data, nb); }
  }

  method AllocateAligned(m: Mstate, alignment: nat, bytes: nat, ghost data: map<int, Block>) returns (o: Outcome)
    requires InStep(m, data) && Alignable(alignment, bytes)
    modifies m
    ensures Served(o, data, bytes, Padded(alignment, bytes), AlignTo(alignment), Room(m)) && InStep(m, Apply(data, o))
  {
    ghost var lo0, hi0, B := m.lo, m.hi, m.Allocated();
    var mem := m.Memalign(alignment, bytes);
    o := if mem == 0 then Null else Got(mem, bytes);
    if mem == 0 {
      SameFaithful(lo0, hi0, B, data, m.lo, m.hi);
      if !OutOfRange(bytes) && !OutOfRange(Padded(alignment, bytes)) { HeldShort(m, data, Request(Padded(alignment, bytes))); }
    } else {
      BlockShape(m, Mem2Chunk(mem));
      AddedFaithful(lo0, hi0, B, data, m.lo, m.hi, m.Allocated(), Mem2Chunk(mem), bytes);
    }
  }

  /** A small block just freed is what the next request of its size gets. */
  method Recycle(m: Mstate, mem: int, bytes: nat) returns (mem': int)
    requires m.Ready() && Mem2Chunk(mem) in m.Allocated() && bytes < WORD
    requires m.Allocated()[Mem2Chunk(mem)] == Request(bytes) <= MAX_FAST
    modifies m
    ensures mem' == mem && m.Ready() && m.Allocated() == old(m.Allocated())
  {
    var p := Mem2Chunk(mem);
    BlockShape(m, p);
    m.Free(mem);
    assert FastFit(m.heap, p, Request(bytes));
    ghost var via;
    mem', via := m.Malloc(bytes);
  }

  method Release(m: Mstate, mem: int, ghost data: map<int, Block>)
    requires InStep(m, data) && mem in data
    modifies m
    ensures InStep(m, data - {mem})
  {
    ghost var lo0, hi0, B := m.lo, m.hi, m.Allocated();
    assert Mirrors(lo0, hi0, B, mem, data[mem]);
    BlockShape(m, Mem2Chunk(mem));
    m.Free(mem);
    FreedFaithful(lo0, hi0, B, data, m.lo, m.hi, mem);
  }

  /** The contents survive a realloc, as far as the new block has room. */
  method Reallocate(m: Mstate, mem: int, bytes: nat, ghost data: map<int, Block>) returns (o: Outcome)
    requires InStep(m, data) && bytes < WORD && mem in data
    modifies m
    ensures Resized(o, data, mem, bytes, Room(m)) && InStep(m, Apply(data, o))
  {
    ghost var lo0, hi0, B := m.lo, m.hi, m.Allocated();
    assert Mirrors(lo0, hi0, B, mem, data[mem]);
    BlockShape(m, Mem2Chunk(mem));
    RoundedUp(data[mem].bytes, B[Mem2Chunk(mem)]);
    var mem' := m.Realloc(mem, bytes);
    o := if mem' == 0 then Null else Changed(mem, mem', bytes);
    if mem' == 0 {
      SameFaithful(lo0, hi0, B, data, m.lo, m.hi);
      if !OutOfRange(bytes) { HeldShort(m, data, Request(bytes)); }
    } else {
      BlockShape(m, Mem2Chunk(mem'));
      assert mem' in data ==> Mirrors(lo0, hi0, B, mem', data[mem']);
      MovedFaithful(lo0, hi0, B, data, m.lo, m.hi, m.Allocated(), mem, mem', bytes);
    }
  }

  /** No smaller chunk would do. */
  lemma RoundedUp(bytes: nat, size: nat)
    requires bytes + SIZE_SZ <= size && MINSIZE <= size && size % 8 == 0
    ensures Request(bytes) <= size
  {
  }

  method Write(m: Mstate, mem: int, i: nat, v: int, ghost data: map<int, Block>)
    requires InStep(m, data) && mem in data && 4 * (i + 1) <= data[mem].bytes
    modifies m
    ensures InStep(m, Written(data, mem, i, v))
  {
    ghost var lo0, hi0, B := m.lo, m.hi, m.Allocated();
    assert Mirrors(lo0, hi0, B, mem, data[mem]);
    BlockShape(m, Mem2Chunk(mem));
    m.Store(mem, i, v);
    StoredFaithful(lo0, hi0, B, data, mem, i, v, m.lo, m.hi);
  }

  // --------------------------------------------------------- whole runs

  lemma ReplayOne(outcomes: seq<Outcome>, o: Outcome)
    ensures Replay(outcomes + [o]) == Apply(Replay(outcomes), o)
  {
    assert (outcomes + [o])[..|outcomes|] == outcomes;
  }

  /** One action of a program that frees, resizes, writes and reads only what it holds. */
  method Step(m: Mstate, action: Action, data: map<int, Block>) returns (o: Outcome)
    requires InStep(m, data)
    modifies m
    ensures Did(action, data, o, Room(m)) && InStep(m, Apply(data, o))
  {
    o := Ignored;
    match action
    case DoMalloc(bytes) =>
      if bytes < WORD {
        o := Allocate(m, bytes, data);
      }
    case DoFree(mem) =>
      if mem in data {
        Release(m, mem, data);
        o := Gave(mem);
      }
    case DoRealloc(mem, bytes) =>
      if mem in data && bytes < WORD {
        o := Reallocate(m, mem, bytes, data);
      }
    case DoMemalign(alignment, bytes) =>
      if Alignable(alignment, bytes) {
        o := AllocateAligned(m, alignment, bytes, data);
      }
    case DoStore(mem, i, v) =>
      if mem in data && 4 * (i + 1) <= data[mem].bytes {
        Write(m, mem, i, v, data);
        o := Put(mem, i, v);
      }
    case DoLoad(mem, i) =>
      if mem in data && 4 * (i + 1) <= data[mem].bytes {
        o := Loaded(Word(m.lo, m.hi, mem + 4 * i));
        if i in data[mem].words { ReadBack(m, data, mem, i); }
      }
  }

  /** Action i had an outcome that is right after the outcomes before it, and the blocks held were apart. */
  ghost predicate WentRight(actions: seq<Action>, outcomes: seq<Outcome>, i: nat, start: int, end: int)
    requires i < |actions| && i < |outcomes|
  {
    var data := Replay(outcomes[..i]);
    Did(actions[i], data, outcomes[i], end - start) && Separate(data, start, end)
  }

  lemma StillRight(actions: seq<Action>, outcomes: seq<Outcome>, i: nat, o: Outcome, start: int, end: int)
    requires i < |outcomes| < |actions| && WentRight(actions, outcomes, i, start, end)
    ensures WentRight(actions, outcomes + [o], i, start, end)
  {
    assert (outcomes + [o])[..i] == outcomes[..i];
  }

  /** In any sequence of actions on a fresh allocator each one has the outcome that the history
      before it calls for: requests succeed unless the program holds too much, and every word
      reads as it was last written.  In the end memory holds what the history says. */
  method Run(memHeap: int, memHeapEnd: int, actions: seq<Action>) returns (m: Mstate, outcomes: seq<Outcome>)
    requires HEAP_MIN <= memHeap <= memHeapEnd < WORD && memHeap % 8 == 0
    ensures InStep(m, Replay(outcomes)) && |outcomes| == |actions|
    ensures forall i {:trigger WentRight(actions, outcomes, i, memHeap, memHeapEnd)} ::
              0 <= i < |actions| ==> WentRight(actions, outcomes, i, memHeap, memHeapEnd)
  {
    m := new Mstate(memHeap, memHeapEnd);
    outcomes := [];
    var data: map<int, Block> := map[];
    var i := 0;
    while i < |actions|
      invariant fresh(m) && m.memHeap == memHeap && m.memHeapEnd == memHeapEnd && 0 <= i == |outcomes| <= |actions|
      invariant data == Replay(outcomes) && InStep(m, data)
      invariant forall j {:trigger WentRight(actions, outcomes, j, memHeap, memHeapEnd)} ::
                  0 <= j < i ==> WentRight(actions, outcomes, j, memHeap, memHeapEnd)
    {
      InStepSeparate(m, data);
      var o := Step(m, actions[i], data);
      forall j | 0 <= j < i ensures WentRight(actions, outcomes + [o], j, memHeap, memHeapEnd) {
        StillRight(actions, outcomes, j, o, memHeap, memHeapEnd);
      }
      assert (outcomes + [o])[..i] == outcomes;
      ReplayOne(outcomes, o);
      data := Apply(data, o);
      outcomes := outcomes + [o];
      i := i + 1;
    }
  }
}
