/** Page tables (`kernel/boot/early_mm.c`), the walk over them, and the copies of the debugger
    through them (`kernel/gdb_serial_support.c`).  Formats: Intel SDM volume 3A, section 4.3,
    "32-Bit Paging". */
module Paging {
  import opened Options
  import opened Words
  import opened Arith
  import opened MallocAlign

  const PAGE := 0x1000
  const SUPERPAGE := 0x40_0000
  const LIMIT := 0x1000_0000  // 256 MB
  const TABLES := 64

  /** Words of memory by their byte address. */
  type Mem = map<int, nat>

  function Rd(m: Mem, a: int): nat {
    if a in m then m[a] else 0
  }

  // ---------------------------------------------------------- the masks

  /** x & 0xfffff000, x & 0xfff and x & 1 on 32-bit words */
  lemma Masks(x: nat)
    requires x < WORD
    ensures And(x, 0xFFFF_F000) == x - x % PAGE && And(x, 0xFFF) == x % PAGE && And(x, 1) == x % 2
    ensures And(x, 0x3F_FFFF) == x % SUPERPAGE && And(x, 0x3FF) == x % 1024
    ensures And(x, 0x80) != 0 <==> Bit(x, 7)
    ensures AndNot(x, 0x3F_FFFF) == x - x % SUPERPAGE
  {
    MaskPowers();
    AlignDown(x, 32, 12);
    AndMask(x, 12);
    AndMask(x, 1);
    AndMask(x, 22);
    AndMask(x, 10);
    AndPow(x, 7);
  }

  lemma MaskPowers()
    ensures Pow2(32) == WORD && Pow2(12) == PAGE && Pow2(22) == SUPERPAGE && Pow2(10) == 1024 && Pow2(7) == 128 && Pow2(1) == 2
  {
    Powers();
    assert Pow2(7) == 128 && Pow2(1) == 2 && Pow2(4) == 16;
    PowAdd(5, 5);
    PowAdd(8, 4);
    PowAdd(8, 14);
  }

  /** A page-aligned address and the flag bits do not overlap. */
  lemma {:induction false} AndLow(a: nat, k: nat, f: nat)
    requires a % Pow2(k) == 0 && f < Pow2(k)
    ensures And(a, f) == 0
    decreases k
  {
    if k > 0 && a > 0 && f > 0 {
      HalfMod(a, Pow2(k - 1));
      AndLow(a / 2, k - 1, f / 2);
    }
  }

  /** An entry of the page directory or of a page table, with the two flags that are used. */
  lemma EntryParts(a: nat, f: nat)
    requires a % PAGE == 0 && a < WORD && (f == 1 || f == 3)
    ensures var e := Or(a, f); e == a + f && e < WORD && e - e % PAGE == a && e % 2 == 1 && !Bit(e, 7)
  {
    NoOverlap(a, f);
    var q, r := Split(a, PAGE);
    ModUnique(a + f, PAGE, q, f);
    LowBits(a + f);
  }

  lemma NoOverlap(a: nat, f: nat)
    requires a % PAGE == 0 && f < PAGE
    ensures Or(a, f) == a + f
  {
    MaskPowers();
    AndLow(a, 12, f);
  }

  lemma LowBits(e: nat)
    requires e % PAGE == 1 || e % PAGE == 3
    ensures !Bit(e, 7) && e % 2 == 1
  {
    var q, r := Split(e, PAGE);
    ModUnique(e, 256, 16 * q, r);
    ModUnique(e, 2, 2048 * q + r / 2, r % 2);
    BitOfMod(e);
  }

  lemma BitOfMod(e: nat)
    requires e % 256 < 128
    ensures !Bit(e, 7)
  {
    MaskPowers();
    assert Pow2(8) == 256 by { Powers(); }
    AndMask(e, 8);
    AndBits(e, Pow2(8) - 1, 7);
    NoBit(e % 256, 7, 7);
    SevenSet();
  }

  lemma SevenSet()
    ensures Bit(255, 7)
  {
  }

  // --------------------------------------------------------- the tables

  /** Regions to be mapped: page-aligned, in the first 256 MB, and not in page 0. */
  datatype Region = Region(start: nat, end: nat, flags: nat)

  predicate GoodRegion(r: Region) {
    r.start % PAGE == 0 && r.end % PAGE == 0 && PAGE <= r.start && r.end <= LIMIT && (r.flags == 1 || r.flags == 3)
  }

  predicate Covers(r: Region, n: nat) {
    r.start <= n * PAGE < r.end
  }

  /** The entry for page n: of the last region that covers it. */
  function EntryFor(regions: seq<Region>, n: nat): nat {
    if regions == [] then 0
    else
      var r := regions[|regions| - 1];
      if Covers(r, n) then Or(n * PAGE, r.flags) else EntryFor(regions[..|regions| - 1], n)
  }

  predicate Mapped(regions: seq<Region>, n: nat) {
    exists i :: 0 <= i < |regions| && Covers(regions[i], n)
  }

  lemma {:induction false} EntryPresent(regions: seq<Region>, n: nat)
    requires (forall r :: r in regions ==> GoodRegion(r)) && n < 0x1_0000
    ensures !Mapped(regions, n) ==> EntryFor(regions, n) == 0
    ensures Mapped(regions, n) ==> EntryFor(regions, n) == n * PAGE + 1 || EntryFor(regions, n) == n * PAGE + 3
    decreases |regions|
  {
    if regions != [] {
      var k := |regions| - 1;
      var front := regions[..k];
      EntryPresent(front, n);
      assert regions[k] in regions;
      if Covers(regions[k], n) {
        EntryParts(n * PAGE, regions[k].flags);
      } else {
        assert Mapped(regions, n) ==> Mapped(front, n) by {
          if i :| 0 <= i < |regions| && Covers(regions[i], n) { assert front[i] == regions[i]; }
        }
        assert Mapped(front, n) ==> Mapped(regions, n) by {
          if i :| 0 <= i < |front| && Covers(front[i], n) { assert Covers(regions[i], n); }
        }
      }
    }
  }

  /** The page directory: 64 page tables in a row, and nothing else. */
  ghost predicate DirAt(m: Mem, pgdir: int, pgtab: nat, i: int) {
    Rd(m, pgdir + 4 * i) == if i < TABLES then pgtab + i * PAGE + 3 else 0
  }

  ghost predicate DirOk(m: Mem, pgdir: int, pgtab: nat, count: int) {
    forall i {:trigger DirAt(m, pgdir, pgtab, i)} :: 0 <= i < count ==> DirAt(m, pgdir, pgtab, i)
  }

  ghost predicate TabAt(m: Mem, pgtab: int, regions: seq<Region>, n: nat) {
    Rd(m, pgtab + 4 * n) == EntryFor(regions, n)
  }

  ghost predicate TabOk(m: Mem, pgtab: int, regions: seq<Region>, count: nat) {
    forall n: nat {:trigger TabAt(m, pgtab, regions, n)} :: n < count ==> TabAt(m, pgtab, regions, n)
  }

  /** The two structures are page-aligned, and apart from each other. */
  ghost predicate Placed(pgdir: nat, pgtab: nat) {
    && pgdir % PAGE == 0 && pgtab % PAGE == 0 && pgtab + TABLES * PAGE <= WORD && pgdir + PAGE <= WORD
    && (pgdir + PAGE <= pgtab || pgtab + TABLES * PAGE <= pgdir)
  }

  /** A store in the directory. */
  lemma DirStored(mem: Mem, pgdir: nat, pgtab: nat, i: nat, e: nat)
    requires Placed(pgdir, pgtab) && i < 1024 && DirOk(mem, pgdir, pgtab, i) && e == if i < TABLES then pgtab + i * PAGE + 3 else 0
    ensures DirOk(mem[pgdir + 4 * i := e], pgdir, pgtab, i + 1)
    ensures TabOk(mem, pgtab, [], 0x1_0000) ==> TabOk(mem[pgdir + 4 * i := e], pgtab, [], 0x1_0000)
  {
    var m := mem[pgdir + 4 * i := e];
    forall k | 0 <= k < i + 1 ensures DirAt(m, pgdir, pgtab, k) {
      assert k < i ==> DirAt(mem, pgdir, pgtab, k);
    }
    if TabOk(mem, pgtab, [], 0x1_0000) {
      forall n: nat | n < 0x1_0000 ensures TabAt(m, pgtab, [], n) {
        assert TabAt(mem, pgtab, [], n);
      }
    }
  }

  /** A store in the tables leaves the directory alone. */
  lemma DirKept(m: Mem, pgdir: nat, pgtab: nat, n: nat, e: nat)
    requires Placed(pgdir, pgtab) && n < 0x1_0000 && DirOk(m, pgdir, pgtab, 1024)
    ensures DirOk(m[pgtab + 4 * n := e], pgdir, pgtab, 1024)
  {
    var m' := m[pgtab + 4 * n := e];
    forall i | 0 <= i < 1024 ensures DirAt(m', pgdir, pgtab, i) {
      assert DirAt(m, pgdir, pgtab, i);
    }
  }

  /** A store in the tables. */
  lemma PageStored(m: Mem, pgdir: nat, pgtab: nat, before: seq<Region>, r: Region, address: nat)
    requires Placed(pgdir, pgtab) && GoodRegion(r) && r.start <= address < r.end && address % PAGE == 0
    requires DirOk(m, pgdir, pgtab, 1024) && PartOk(m, pgtab, before, r, address)
    ensures var m' := m[pgtab + 4 * (address / PAGE) := Or(address, r.flags)];
            DirOk(m', pgdir, pgtab, 1024) && PartOk(m', pgtab, before, r, address + PAGE)
  {
    var n0 := address / PAGE;
    var m' := m[pgtab + 4 * n0 := Or(address, r.flags)];
    DirKept(m, pgdir, pgtab, n0, Or(address, r.flags));
    var next := address + PAGE;
    forall n: nat | n < 0x1_0000 ensures PartAt(m', pgtab, before, r, next, n) {
      assert PartAt(m, pgtab, before, r, address, n);
      PartStored(m, pgtab, before, r, n0, n);
    }
  }

  class Tables {
    var mem: Mem
    const pgdir: nat
    const pgtab: nat

    ghost predicate Valid() {
      Placed(pgdir, pgtab)
    }

    constructor (pgdir: nat, pgtab: nat, mem: Mem)
      ensures this.pgdir == pgdir && this.pgtab == pgtab && this.mem == mem
    {
      this.pgdir, this.pgtab, this.mem := pgdir, pgtab, mem;
    }

    /** memset(pgtab, 0, 4096*64) */
    method Clear()
      modifies this
      ensures TabOk(mem, pgtab, [], 0x1_0000)
    {
      var n := 0;
      while n < 0x1_0000
        invariant 0 <= n <= 0x1_0000 && TabOk(mem, pgtab, [], n)
      {
        ghost var m0 := mem;
        mem := mem[pgtab + 4 * n := 0];
        forall k: nat | k < n + 1 ensures TabAt(mem, pgtab, [], k) {
          if k < n { assert TabAt(m0, pgtab, [], k); }
        }
        n := n + 1;
      }
    }

    /** early_mm_fill_pgdir */
    method FillPgdir(pagedir: nat, pagetab: nat, count: nat)
      requires Valid() && pagedir == pgdir && pagetab == pgtab && count == TABLES
      modifies this
      ensures DirOk(mem, pgdir, pgtab, 1024)
      ensures TabOk(old(mem), pgtab, [], 0x1_0000) ==> TabOk(mem, pgtab, [], 0x1_0000)
    {
      ghost var m0 := mem;
      var i := 0;
      while i < count
        invariant 0 <= i <= count && DirOk(mem, pgdir, pgtab, i)
        invariant TabOk(m0, pgtab, [], 0x1_0000) ==> TabOk(mem, pgtab, [], 0x1_0000)
      {
        EntryParts(pagetab + i * 0x1000, 3);
        DirStored(mem, pgdir, pgtab, i, Or(pagetab + i * 0x1000, 3));
        mem := mem[pagedir + 4 * i := Or(pagetab + i * 0x1000, 3)];
        i := i + 1;
      }
      while i < 1024
        invariant count <= i <= 1024 && DirOk(mem, pgdir, pgtab, i)
        invariant TabOk(m0, pgtab, [], 0x1_0000) ==> TabOk(mem, pgtab, [], 0x1_0000)
      {
        DirStored(mem, pgdir, pgtab, i, 0);
        mem := mem[pagedir + 4 * i := 0];
        i := i + 1;
      }
    }

    /** One round of early_mm_map_region */
    method MapPage(pdir: nat, address: nat, flags: nat)
      requires Valid() && pdir == pgdir && DirOk(mem, pgdir, pgtab, 1024) && address % PAGE == 0 && address < LIMIT && (flags == 1 || flags == 3)
      modifies this
      ensures mem == old(mem)[pgtab + 4 * (address / PAGE) := Or(address, flags)]
    {
      var pdIndex, ptIndex := Indexes(address);
      assert DirAt(mem, pgdir, pgtab, pdIndex);
      TablePointer(pgtab, pdIndex);
      var ptable := Frame(Rd(mem, pdir + 4 * pdIndex));
      var frame := Frame(address);
      mem := mem[ptable + 4 * ptIndex := Or(frame, flags)];
    }

    /** early_mm_map_region: r is region number i of those to be mapped. */
    method MapRegion(pdir: nat, r: Region, ghost regions: seq<Region>, ghost i: nat)
      requires Valid() && pdir == pgdir && DirOk(mem, pgdir, pgtab, 1024) && GoodRegion(r)
      requires i < |regions| && r == regions[i] && TabOk(mem, pgtab, regions[..i], 0x1_0000)
      modifies this
      ensures DirOk(mem, pgdir, pgtab, 1024) && TabOk(mem, pgtab, regions[..i + 1], 0x1_0000)
    {
      ghost var before := regions[..i];
      var address := r.start;
      Untouched(mem, pgtab, before, r);
      while address < r.end
        invariant r.start <= address && address % PAGE == 0 && (address <= r.end || address == r.start)
        invariant DirOk(mem, pgdir, pgtab, 1024) && PartOk(mem, pgtab, before, r, address)
        decreases r.end - address
      {
        PageStored(mem, pgdir, pgtab, before, r, address);
        MapPage(pdir, address, r.flags);
        address := address + 4096;
      }
      WholeRegion(mem, pgtab, before, r, address);
      assert before + [r] == regions[..i + 1];
    }

    /** early_mm_map_kernel */
    method MapKernel(k: Layout)
      requires Valid() && forall r :: r in Regions(k) ==> GoodRegion(r)
      modifies this
      ensures DirOk(mem, pgdir, pgtab, 1024) && TabOk(mem, pgtab, Regions(k), 0x1_0000)
      ensures forall n: nat {:trigger Entry(n, Rights(k, n * PAGE))} :: n < 0x1_0000 ==>
                Rd(mem, pgtab + 4 * n) == Entry(n, Rights(k, n * PAGE))
    {
      MapZones(k);
      forall n: nat | n < 0x1_0000 ensures Rd(mem, pgtab + 4 * n) == Entry(n, Rights(k, n * PAGE)) {
        KernelRights(k, n);
        assert TabAt(mem, pgtab, Regions(k), n);
      }
    }

    method MapZones(k: Layout)
      requires Valid() && forall r :: r in Regions(k) ==> GoodRegion(r)
      modifies this
      ensures DirOk(mem, pgdir, pgtab, 1024) && TabOk(mem, pgtab, Regions(k), 0x1_0000)
    {
      Clear();
      FillPgdir(pgdir, pgtab, 64);
      FirstPage();
      ghost var rs := Regions(k);
      MapRegion(pgdir, Region(4096, k.start, 3), rs, 0);
      MapRegion(pgdir, Region(k.start, k.textStart, 3), rs, 1);
      MapRegion(pgdir, Region(k.textStart, k.textEnd, 1), rs, 2);
      MapRegion(pgdir, Region(k.multibootStart, k.multibootEnd, 1), rs, 3);
      MapRegion(pgdir, Region(k.rodataStart, k.rodataEnd, 1), rs, 4);
      MapRegion(pgdir, Region(k.stackStart, k.stackEnd, 3), rs, 5);
      MapRegion(pgdir, Region(k.dataStart, k.dataEnd, 3), rs, 6);
      MapRegion(pgdir, Region(k.bssStart, k.bssEnd, 3), rs, 7);
      MapRegion(pgdir, Region(k.end, k.memEnd, 3), rs, 8);
      assert rs[..9] == rs;
    }

    /** pgtab[0] = 0 */
    method FirstPage()
      requires Valid() && DirOk(mem, pgdir, pgtab, 1024) && TabOk(mem, pgtab, [], 0x1_0000)
      modifies this
      ensures DirOk(mem, pgdir, pgtab, 1024) && TabOk(mem, pgtab, [], 0x1_0000)
    {
      ghost var m0 := mem;
      mem := mem[pgtab := 0];
      forall i | 0 <= i < 1024 ensures DirAt(mem, pgdir, pgtab, i) {
        assert DirAt(m0, pgdir, pgtab, i);
      }
      forall n: nat | n < 0x1_0000 ensures TabAt(mem, pgtab, [], n) {
        assert TabAt(m0, pgtab, [], n);
      }
    }
  }

  /** The symbols of the linker script. */
  datatype Layout = Layout(start: nat, textStart: nat, textEnd: nat, multibootStart: nat, multibootEnd: nat,
                           rodataStart: nat, rodataEnd: nat, stackStart: nat, stackEnd: nat, dataStart: nat, dataEnd: nat,
                           bssStart: nat, bssEnd: nat, end: nat, memEnd: nat)

  /** The zones, in the order in which they are mapped: read-only ones with flags 1, others with 3. */
  function Regions(k: Layout): seq<Region> {
    [Region(4096, k.start, 3), Region(k.start, k.textStart, 3), Region(k.textStart, k.textEnd, 1),
     Region(k.multibootStart, k.multibootEnd, 1), Region(k.rodataStart, k.rodataEnd, 1),
     Region(k.stackStart, k.stackEnd, 3), Region(k.dataStart, k.dataEnd, 3), Region(k.bssStart, k.bssEnd, 3),
     Region(k.end, k.memEnd, 3)]
  }

  /** One more region. */
  lemma EntryOne(rs: seq<Region>, i: nat, n: nat)
    requires i < |rs| && GoodRegion(rs[i]) && n < 0x1_0000
    ensures EntryFor(rs[..i + 1], n) == if Covers(rs[i], n) then n * PAGE + rs[i].flags else EntryFor(rs[..i], n)
  {
    assert rs[..i + 1][..i] == rs[..i];
    EntryParts(n * PAGE, rs[i].flags);
  }

  /** The rights of the page at an address a: stack, data, bss and free memory can be written to; text,
      multiboot header and constants, apart from those, only read; what is below the text can be
      written to, and nothing else is mapped. */
  function Rights(k: Layout, a: nat): nat {
    if k.stackStart <= a < k.stackEnd || k.dataStart <= a < k.dataEnd || k.bssStart <= a < k.bssEnd || k.end <= a < k.memEnd then 3
    else if k.textStart <= a < k.textEnd || k.multibootStart <= a < k.multibootEnd || k.rodataStart <= a < k.rodataEnd then 1
    else if 4096 <= a < k.start || k.start <= a < k.textStart then 3
    else 0
  }

  /** An entry with the given flags, or none. */
  function Entry(n: nat, flags: nat): nat {
    if flags == 0 then 0 else n * PAGE + flags
  }

  lemma LowRights(k: Layout, rs: seq<Region>, n: nat)
    requires rs == Regions(k) && (forall i {:trigger rs[i]} :: 0 <= i < 9 ==> GoodRegion(rs[i])) && n < 0x1_0000
    ensures var a := n * PAGE;
            EntryFor(rs[..5], n) == Entry(n,
              if k.textStart <= a < k.textEnd || k.multibootStart <= a < k.multibootEnd || k.rodataStart <= a < k.rodataEnd then 1
              else if 4096 <= a < k.start || k.start <= a < k.textStart then 3
              else 0)
  {
    EntryOne(rs, 0, n);
    EntryOne(rs, 1, n);
    EntryOne(rs, 2, n);
    EntryOne(rs, 3, n);
    EntryOne(rs, 4, n);
    assert rs[..0] == [];
  }

  lemma KernelRights(k: Layout, n: nat)
    requires (forall r :: r in Regions(k) ==> GoodRegion(r)) && n < 0x1_0000
    ensures EntryFor(Regions(k), n) == Entry(n, Rights(k, n * PAGE))
  {
    var rs := Regions(k);
    assert forall i {:trigger rs[i]} :: 0 <= i < 9 ==> rs[i] in rs;
    LowRights(k, rs, n);
    EntryOne(rs, 5, n);
    EntryOne(rs, 6, n);
    EntryOne(rs, 7, n);
    EntryOne(rs, 8, n);
    assert rs[..9] == rs;
  }

  /** Page n, while region r is mapped up to an address. */
  ghost predicate PartAt(m: Mem, pgtab: int, before: seq<Region>, r: Region, address: nat, n: nat) {
    Rd(m, pgtab + 4 * n) == if r.start <= n * PAGE < address then Or(n * PAGE, r.flags) else EntryFor(before, n)
  }

  lemma PartStored(m: Mem, pgtab: int, before: seq<Region>, r: Region, n0: nat, n: nat)
    requires r.start <= n0 * PAGE && PartAt(m, pgtab, before, r, n0 * PAGE, n)
    ensures PartAt(m[pgtab + 4 * n0 := Or(n0 * PAGE, r.flags)], pgtab, before, r, n0 * PAGE + PAGE, n)
  {
    PartPut(m, pgtab, before, r, n0, n, Or(n0 * PAGE, r.flags));
  }

  lemma PartPut(m: Mem, pgtab: int, before: seq<Region>, r: Region, n0: nat, n: nat, e: nat)
    requires r.start <= n0 * PAGE && PartAt(m, pgtab, before, r, n0 * PAGE, n) && e == Or(n0 * PAGE, r.flags)
    ensures PartAt(m[pgtab + 4 * n0 := e], pgtab, before, r, n0 * PAGE + PAGE, n)
  {
    if n != n0 { assert Rd(m[pgtab + 4 * n0 := e], pgtab + 4 * n) == Rd(m, pgtab + 4 * n); }
    assert n * PAGE < n0 * PAGE + PAGE <==> n <= n0;
  }

  ghost predicate PartOk(m: Mem, pgtab: int, before: seq<Region>, r: Region, address: nat) {
    forall n: nat {:trigger PartAt(m, pgtab, before, r, address, n)} :: n < 0x1_0000 ==> PartAt(m, pgtab, before, r, address, n)
  }

  lemma Untouched(m: Mem, pgtab: int, before: seq<Region>, r: Region)
    requires TabOk(m, pgtab, before, 0x1_0000)
    ensures PartOk(m, pgtab, before, r, r.start)
  {
    forall n: nat | n < 0x1_0000 ensures PartAt(m, pgtab, before, r, r.start, n) {
      assert TabAt(m, pgtab, before, n);
    }
  }

  lemma WholeRegion(m: Mem, pgtab: int, before: seq<Region>, r: Region, address: nat)
    requires PartOk(m, pgtab, before, r, address) && (address == r.end || (address == r.start && r.end <= address))
    ensures TabOk(m, pgtab, before + [r], 0x1_0000)
  {
    assert (before + [r])[..|before|] == before;
    forall n: nat | n < 0x1_0000 ensures TabAt(m, pgtab, before + [r], n) {
      assert PartAt(m, pgtab, before, r, address, n);
    }
  }

  /** The page number of an address, in two parts. */
  lemma PageIndex(address: nat) returns (n: nat, d: nat, t: nat)
    requires address < WORD
    ensures n == address / PAGE == 1024 * d + t && d < 1024 && t < 1024 && (address < LIMIT <==> d < TABLES)
    ensures Shr(address, 22) == d && And(Shr(address, 12), 0x3FF) == t
  {
    MaskPowers();
    var r;
    n, r := Split(address, PAGE);
    d, t := Split(n, 1024);
    ModUnique(address, SUPERPAGE, d, t * PAGE + r);
    Masks(n);
  }

  /** x & 0xfffff000 */
  method Frame(x: nat) returns (y: nat)
    requires x < WORD
    ensures y == x - x % PAGE
  {
    Masks(x);
    y := And(x, 0xFFFF_F000);
  }

  /** address >> 22 and (address >> 12) & 0x3ff */
  method Indexes(address: nat) returns (d: nat, t: nat)
    requires address < WORD
    ensures address / PAGE == 1024 * d + t && d < 1024 && t < 1024 && (address < LIMIT ==> d < TABLES)
  {
    ghost var n, d', t' := PageIndex(address);
    d := Shr(address, 22);
    t := And(Shr(address, 12), 0x3FF);
  }

  lemma TablePointer(pgtab: nat, i: nat)
    requires pgtab % PAGE == 0 && pgtab + TABLES * PAGE <= WORD && i < TABLES
    ensures var e := pgtab + i * PAGE + 3; e < WORD && e - e % PAGE == pgtab + i * PAGE
  {
    EntryParts(pgtab + i * PAGE, 3);
  }

  // ----------------------------------------------------------- the walk

  ghost predicate WordsOk(m: Mem) {
    forall a {:trigger m[a]} :: a in m ==> m[a] < WORD
  }

  /** The paging registers of the client. */
  datatype Client = Client(cr0: nat, cr3: nat)

  predicate PagingOn(c: Client) {
    Bit(c.cr0, 31)
  }

  /** The physical address of one virtual address, as the processor finds it. */
  function Translate(m: Mem, c: Client, v: nat): Option<nat> {
    if !PagingOn(c) then Some(v)
    else
      var pde := Rd(m, c.cr3 - c.cr3 % PAGE + 4 * (v / SUPERPAGE));
      if pde % 2 == 0 then None
      else if Bit(pde, 7) then Some(pde - pde % SUPERPAGE + v % SUPERPAGE)
      else
        var pte := Rd(m, pde - pde % PAGE + 4 * (v / PAGE % 1024));
        if pte % 2 == 0 then None else Some(pte - pte % PAGE + v % PAGE)
  }

  /** From v on, len addresses are mapped to those from paddr on. */
  ghost predicate Chunk(m: Mem, c: Client, v: nat, paddr: nat, len: nat) {
    forall i: nat {:trigger ChunkAt(m, c, v, paddr, i)} :: i < len ==> ChunkAt(m, c, v, paddr, i)
  }

  ghost predicate ChunkAt(m: Mem, c: Client, v: nat, paddr: nat, i: nat) {
    Translate(m, c, (v + i) % WORD) == Some((paddr + i) % WORD)
  }

  /** The addresses after v up to the end of its page are translated by the same entries. */
  lemma SamePage(v: nat, i: nat)
    requires v < WORD && v % PAGE + i < PAGE
    ensures (v + i) % WORD == v + i && (v + i) / PAGE == v / PAGE && (v + i) % PAGE == v % PAGE + i
    ensures (v + i) / SUPERPAGE == v / SUPERPAGE
  {
    var n, r := Split(v, PAGE);
    var d, t := Split(n, 1024);
    ModUnique(v + i, PAGE, n, r + i);
    ModUnique(v, SUPERPAGE, d, t * PAGE + r);
    ModUnique(v + i, SUPERPAGE, d, t * PAGE + r + i);
    ModUnique(v + i, WORD, 0, v + i);
  }

  lemma SameSuperpage(v: nat, i: nat)
    requires v < WORD && v % SUPERPAGE + i < SUPERPAGE
    ensures (v + i) % WORD == v + i && (v + i) / SUPERPAGE == v / SUPERPAGE && (v + i) % SUPERPAGE == v % SUPERPAGE + i
  {
    var d, r := Split(v, SUPERPAGE);
    ModUnique(v + i, SUPERPAGE, d, r + i);
    ModUnique(v + i, WORD, 0, v + i);
  }

  lemma InFrame(e: nat, size: nat, i: nat)
    requires e < WORD && (size == PAGE || size == SUPERPAGE) && i < size
    ensures e - e % size + i < WORD && (e - e % size + i) % WORD == e - e % size + i
  {
    var q, r := Split(e, size);
    assert q * size <= WORD - size;
    ModUnique(e - r + i, WORD, 0, e - r + i);
  }

  lemma SmallChunk(m: Mem, c: Client, v: nat, pde: nat, pte: nat)
    requires PagingOn(c) && v < WORD && pde == Rd(m, c.cr3 - c.cr3 % PAGE + 4 * (v / SUPERPAGE)) && pde % 2 == 1 && !Bit(pde, 7)
    requires pte == Rd(m, pde - pde % PAGE + 4 * (v / PAGE % 1024)) && pte % 2 == 1 && pte < WORD
    ensures Chunk(m, c, v, pte - pte % PAGE + v % PAGE, PAGE - v % PAGE)
  {
    var paddr := pte - pte % PAGE + v % PAGE;
    forall i: nat | i < PAGE - v % PAGE ensures ChunkAt(m, c, v, paddr, i) {
      SamePage(v, i);
      InFrame(pte, PAGE, v % PAGE + i);
    }
  }

  lemma LargeChunk(m: Mem, c: Client, v: nat, pde: nat)
    requires PagingOn(c) && v < WORD && pde == Rd(m, c.cr3 - c.cr3 % PAGE + 4 * (v / SUPERPAGE)) && pde % 2 == 1 && Bit(pde, 7) && pde < WORD
    ensures Chunk(m, c, v, pde - pde % SUPERPAGE + v % SUPERPAGE, SUPERPAGE - v % SUPERPAGE)
  {
    var paddr := pde - pde % SUPERPAGE + v % SUPERPAGE;
    forall i: nat | i < SUPERPAGE - v % SUPERPAGE ensures ChunkAt(m, c, v, paddr, i) {
      SameSuperpage(v, i);
      InFrame(pde, SUPERPAGE, v % SUPERPAGE + i);
    }
  }

  /** The flag bits of an entry, and the offsets in an address. */
  method Flags(e: nat) returns (valid: bool, super: bool)
    requires e < WORD
    ensures valid == (e % 2 == 1) && super == Bit(e, 7)
  {
    Masks(e);
    valid := And(e, 1) != 0;
    super := And(e, 0x80) != 0;
  }

  method Offsets(v: nat) returns (small: nat, large: nat)
    requires v < WORD
    ensures small == v % PAGE && large == v % SUPERPAGE
  {
    Masks(v);
    small := And(v, 0xFFF);
    large := And(v, 0x3F_FFFF);
  }

  /** trunc_superpage */
  method TruncSuperpage(e: nat) returns (r: nat)
    requires e < WORD
    ensures r == e - e % SUPERPAGE
  {
    Masks(e);
    r := AndNot(e, 0x3F_FFFF);
  }

  method IsPagingOn(c: Client) returns (on: bool)
    requires c.cr0 < WORD
    ensures on == PagingOn(c)
  {
    CrBit(c.cr0);
    on := And(c.cr0, 0x8000_0000) != 0;
  }

  /** phys_addr_lookup: a whole chunk of addresses up to the end of the page, or none. */
  method Lookup(m: Mem, c: Client, v: nat) returns (paddr: nat, len: nat)
    requires WordsOk(m) && c.cr0 < WORD && c.cr3 < WORD && v < WORD
    ensures len == 0 <==> Translate(m, c, v) == None
    ensures Chunk(m, c, v, paddr, len) && paddr < WORD
  {
    var pd := Frame(c.cr3);
    var d, t := Indexes(v);
    var pde := Rd(m, pd + 4 * d);
    var on := IsPagingOn(c);
    if !on {
      forall i: nat | i < 0xFFFF_FFFF ensures ChunkAt(m, c, v, v, i) {}
      return v, 0xFFFF_FFFF;
    }
    paddr, len := Walk(m, c, v, d, t, pde);
  }

  /** The part of the lookup that reads the tables. */
  method Walk(m: Mem, c: Client, v: nat, d: nat, t: nat, pde: nat) returns (paddr: nat, len: nat)
    requires WordsOk(m) && PagingOn(c) && v < WORD && pde == Rd(m, c.cr3 - c.cr3 % PAGE + 4 * d)
    requires v / PAGE == 1024 * d + t && t < 1024
    ensures len == 0 <==> Translate(m, c, v) == None
    ensures Chunk(m, c, v, paddr, len) && paddr < WORD
  {
    paddr, len := 0, 0;
    TwoLevels(v, d, t);
    var valid, super := Flags(pde);
    if !valid {
      return;
    }
    var small, large := Offsets(v);
    if !super {
      var pt := Frame(pde);
      var pte := Rd(m, pt + 4 * t);
      var present, _ := Flags(pte);
      if !present {
        return;
      }
      var frame := Frame(pte);
      SmallChunk(m, c, v, pde, pte);
      InFrame(pte, PAGE, small);
      paddr, len := frame + small, PAGE - small;
    } else {
      var frame := TruncSuperpage(pde);
      LargeChunk(m, c, v, pde);
      InFrame(pde, SUPERPAGE, large);
      paddr, len := frame + large, SUPERPAGE - large;
    }
  }

  lemma TwoLevels(v: nat, d: nat, t: nat)
    requires v / PAGE == 1024 * d + t && t < 1024
    ensures v / SUPERPAGE == d && v / PAGE % 1024 == t
  {
    var n, r := Split(v, PAGE);
    ModUnique(v, SUPERPAGE, d, t * PAGE + r);
    ModUnique(n, 1024, d, t);
  }

  lemma CrBit(cr0: nat)
    requires cr0 < WORD
    ensures And(cr0, 0x8000_0000) == 0 <==> !Bit(cr0, 31)
  {
    Powers();
    AndPow(cr0, 31);
  }

  /** An address d * 4 MB + t * 4 KB + o in a small page: the entry t of the table found in entry d
      of the directory leads to the frame, and o stays. */
  lemma SmallPage(m: Mem, c: Client, dir: nat, d: nat, t: nat, o: nat, pde: nat, table: nat, pte: nat, frame: nat)
    requires PagingOn(c) && c.cr3 / PAGE == dir && t < 1024 && o < PAGE
    requires Rd(m, PAGE * dir + 4 * d) == pde && pde / PAGE == table && pde % 2 == 1 && !Bit(pde, 7)
    requires Rd(m, PAGE * table + 4 * t) == pte && pte / PAGE == frame
    ensures Translate(m, c, SUPERPAGE * d + PAGE * t + o) == if pte % 2 == 1 then Some(PAGE * frame + o) else None
  {
    SmallParts(d, t, o);
    PageStart(c.cr3, dir);
    PageStart(pde, table);
    PageStart(pte, frame);
    SmallWalk(m, c, SUPERPAGE * d + PAGE * t + o, PAGE * dir, d, pde, PAGE * table, t, pte, PAGE * frame + o);
  }

  lemma SmallParts(d: nat, t: nat, o: nat)
    requires t < 1024 && o < PAGE
    ensures var v := SUPERPAGE * d + PAGE * t + o; v / SUPERPAGE == d && v / PAGE % 1024 == t && v % PAGE == o
  {
    var v := SUPERPAGE * d + PAGE * t + o;
    ModUnique(v, PAGE, 1024 * d + t, o);
    TwoLevels(v, d, t);
  }

  lemma PageStart(x: nat, n: nat)
    requires x / PAGE == n
    ensures x - x % PAGE == PAGE * n
  {
  }

  lemma SmallWalk(m: Mem, c: Client, v: nat, pd: nat, d: nat, pde: nat, pt: nat, t: nat, pte: nat, pa: nat)
    requires PagingOn(c) && c.cr3 - c.cr3 % PAGE == pd && v / SUPERPAGE == d && v / PAGE % 1024 == t
    requires Rd(m, pd + 4 * d) == pde && pde % 2 == 1 && !Bit(pde, 7) && pde - pde % PAGE == pt
    requires Rd(m, pt + 4 * t) == pte && pte - pte % PAGE + v % PAGE == pa
    ensures Translate(m, c, v) == if pte % 2 == 0 then None else Some(pa)
  {
  }

  /** An address in a page of 4 MB: entry d of the directory leads to it; without bit 0 there is none. */
  lemma LargePage(m: Mem, c: Client, dir: nat, d: nat, o: nat, pde: nat, base: nat)
    requires PagingOn(c) && c.cr3 / PAGE == dir && o < SUPERPAGE
    requires Rd(m, PAGE * dir + 4 * d) == pde && pde / SUPERPAGE == base && (pde % 2 == 0 || Bit(pde, 7))
    ensures Translate(m, c, SUPERPAGE * d + o) == if pde % 2 == 1 then Some(SUPERPAGE * base + o) else None
  {
    LargeParts(d, o);
    PageStart(c.cr3, dir);
    LargeWalk(m, c, SUPERPAGE * d + o, PAGE * dir, d, pde, SUPERPAGE * base + o);
  }

  lemma LargeParts(d: nat, o: nat)
    requires o < SUPERPAGE
    ensures var v := SUPERPAGE * d + o; v / SUPERPAGE == d && v % SUPERPAGE == o && v - v % SUPERPAGE == SUPERPAGE * d
  {
    ModUnique(SUPERPAGE * d + o, SUPERPAGE, d, o);
  }

  lemma LargeWalk(m: Mem, c: Client, v: nat, pd: nat, d: nat, pde: nat, pa: nat)
    requires PagingOn(c) && c.cr3 - c.cr3 % PAGE == pd && v / SUPERPAGE == d
    requires Rd(m, pd + 4 * d) == pde && (pde % 2 == 0 || Bit(pde, 7)) && pde - pde % SUPERPAGE + v % SUPERPAGE == pa
    ensures Translate(m, c, v) == if pde % 2 == 0 then None else Some(pa)
  {
  }

  /** With the tables of the kernel, the walk is the identity on the pages of the regions, and
      finds nothing anywhere else; page 0 and everything from 256 MB up are among the rest. */
  lemma Identity(m: Mem, c: Client, pgtab: nat, regions: seq<Region>, v: nat)
    requires PagingOn(c) && c.cr3 % PAGE == 0 && pgtab % PAGE == 0 && pgtab + TABLES * PAGE <= WORD
    requires DirOk(m, c.cr3, pgtab, 1024) && TabOk(m, pgtab, regions, 0x1_0000) && forall r :: r in regions ==> GoodRegion(r)
    requires v < WORD
    ensures Translate(m, c, v) == if v < LIMIT && Mapped(regions, v / PAGE) then Some(v) else None
    ensures v / PAGE == 0 || v >= LIMIT ==> Translate(m, c, v) == None
  {
    var n, d, t := PageIndex(v);
    TwoLevels(v, d, t);
    assert DirAt(m, c.cr3, pgtab, d);
    if d < TABLES {
      DirEntry(pgtab, d);
      assert TabAt(m, pgtab, regions, n);
      ThroughTable(m, c, pgtab, regions, v, n, d, t);
    }
    forall i | 0 <= i < |regions| ensures !Covers(regions[i], 0) {
      assert GoodRegion(regions[i]);
    }
  }

  lemma DirEntry(pgtab: nat, d: nat)
    requires pgtab % PAGE == 0 && pgtab + TABLES * PAGE <= WORD && d < TABLES
    ensures var e := pgtab + d * PAGE + 3; e % 2 == 1 && !Bit(e, 7) && e - e % PAGE == pgtab + d * PAGE
  {
    EntryParts(pgtab + d * PAGE, 3);
  }

  lemma ThroughTable(m: Mem, c: Client, pgtab: nat, regions: seq<Region>, v: nat, n: nat, d: nat, t: nat)
    requires PagingOn(c) && v / SUPERPAGE == d < TABLES && n == v / PAGE == 1024 * d + t && v / PAGE % 1024 == t
    requires var pde := Rd(m, c.cr3 - c.cr3 % PAGE + 4 * d); pde % 2 == 1 && !Bit(pde, 7) && pde - pde % PAGE == pgtab + d * PAGE
    requires Rd(m, pgtab + 4 * n) == EntryFor(regions, n) && n < 0x1_0000 && forall r :: r in regions ==> GoodRegion(r)
    ensures Translate(m, c, v) == if Mapped(regions, n) then Some(v) else None
  {
    EntryPresent(regions, n);
    if Mapped(regions, n) { EntryBack(v, n, EntryFor(regions, n)); }
  }

  /** The entry for page n leads back to the page. */
  lemma EntryBack(v: nat, n: nat, e: nat)
    requires n == v / PAGE && (e == n * PAGE + 1 || e == n * PAGE + 3)
    ensures e % 2 == 1 && e - e % PAGE + v % PAGE == v
  {
    ModUnique(e, PAGE, n, e - n * PAGE);
    ModUnique(e, 2, n * 2048 + (e - n * PAGE) / 2, 1);
  }

  // ----------------------------------------------- the debugger's copies

  type Byte = b: int | 0 <= b < 256
  type Bytes = map<nat, Byte>

  function Peek(b: Bytes, a: nat): Byte {
    if a in b then b[a] else 0
  }

  /** The i-th virtual address from va on. */
  function VA(va: nat, i: nat): nat {
    (va + i) % WORD
  }

  /** The first n bytes from va on are mapped. */
  ghost predicate AllMapped(m: Mem, c: Client, va: nat, n: nat) {
    forall i: nat {:trigger VA(va, i)} :: i < n ==> Translate(m, c, VA(va, i)).Some?
  }

  /** buf holds the first n bytes from va on, each translated for itself. */
  ghost predicate Fetched(m: Mem, c: Client, b: Bytes, va: nat, buf: seq<Byte>, n: nat)
    requires n <= |buf|
  {
    forall i: nat {:trigger VA(va, i)} :: i < n ==> Translate(m, c, VA(va, i)).Some? && buf[i] == Peek(b, Translate(m, c, VA(va, i)).value)
  }

  lemma Advance(va: nat, k: nat, i: nat)
    ensures VA(VA(va, k), i) == VA(va, k + i)
  {
    var q, r := Split(va + k, WORD);
    var p, s := Split(r + i, WORD);
    ModUnique(va + k + i, WORD, q + p, s);
  }

  lemma Onward(va: nat, k: nat, i: nat, v: nat)
    requires v == VA(va, k)
    ensures (v + i) % WORD == VA(va, k + i) < WORD
  {
    Advance(va, k, i);
  }

  /** A chunk that was copied joins what came before. */
  lemma FetchedMore(m: Mem, c: Client, b: Bytes, va: nat, buf: seq<Byte>, k: nat, paddr: nat, sz: nat, buf': seq<Byte>)
    requires k + sz <= |buf| == |buf'| && Fetched(m, c, b, va, buf, k) && Chunk(m, c, VA(va, k), paddr, sz)
    requires buf'[..k] == buf[..k] && forall j {:trigger buf'[j]} :: k <= j < k + sz ==> buf'[j] == Peek(b, (paddr + (j - k)) % WORD)
    ensures Fetched(m, c, b, va, buf', k + sz)
  {
    forall i: nat | i < k + sz ensures Translate(m, c, VA(va, i)).Some? && buf'[i] == Peek(b, Translate(m, c, VA(va, i)).value) {
      if i < k {
        assert buf'[i] == buf'[..k][i] == buf[i];
      } else {
        assert ChunkAt(m, c, VA(va, k), paddr, i - k);
        ThereIs(m, c, va, k, paddr, i - k);
      }
    }
  }

  lemma ThereIs(m: Mem, c: Client, va: nat, k: nat, pa: nat, i: nat)
    requires ChunkAt(m, c, VA(va, k), pa, i)
    ensures Translate(m, c, VA(va, k + i)) == Some((pa + i) % WORD)
  {
    Advance(va, k, i);
  }

  /** memcpy from physical memory */
  method CopyFrom(b: Bytes, pa: nat, dest: array<Byte>, k: nat, sz: nat)
    requires k + sz <= dest.Length
    modifies dest
    ensures dest[..][..k] == old(dest[..])[..k] && dest[..][k + sz..] == old(dest[..])[k + sz..]
    ensures forall j :: k <= j < k + sz ==> dest[j] == Peek(b, (pa + (j - k)) % WORD)
  {
    var i := 0;
    while i < sz
      invariant 0 <= i <= sz
      invariant dest[..][..k] == old(dest[..])[..k] && dest[..][k + sz..] == old(dest[..])[k + sz..]
      invariant forall j :: k <= j < k + i ==> dest[j] == Peek(b, (pa + (j - k)) % WORD)
    {
      dest[k + i] := Peek(b, (pa + i) % WORD);
      i := i + 1;
    }
  }

  /** What was not touched up to k, and not by the store of sz bytes from k on, is as at first. */
  lemma TailOfTail(was: seq<Byte>, first: seq<Byte>, now: seq<Byte>, k: nat, sz: nat)
    requires |was| == |first| == |now| && k + sz <= |was|
    requires was[k..] == first[k..] && now[k + sz..] == was[k + sz..]
    ensures now[k + sz..] == first[k + sz..]
  {
    assert was[k..][sz..] == was[k + sz..] && first[k..][sz..] == first[k + sz..];
  }

  /** gdb_copyin: succeeds exactly if every byte is mapped, and then has fetched each of them;
      otherwise it has fetched those before the first that is not. */
  method CopyIn(m: Mem, c: Client, b: Bytes, src: nat, dest: array<Byte>, size0: nat) returns (r: int, ghost done: nat)
    requires WordsOk(m) && c.cr0 < WORD && c.cr3 < WORD && src < WORD && size0 <= dest.Length
    modifies dest
    ensures r == 0 || r == -1
    ensures r == 0 <==> AllMapped(m, c, src, size0)
    ensures done <= size0 && Fetched(m, c, b, src, dest[..], done) && dest[..][done..] == old(dest[..])[done..]
    ensures r == 0 ==> done == size0
    ensures r == -1 ==> done < size0 && Translate(m, c, VA(src, done)) == None
  {
    var size: nat, va: nat, k: nat := size0, src, 0;
    while size > 0
      invariant size + k == size0 && va == VA(src, k) && va < WORD
      invariant Fetched(m, c, b, src, dest[..], k) && dest[..][k..] == old(dest[..])[k..]
      decreases size
    {
      var pa, sz := Lookup(m, c, va);
      if sz == 0 {
        assert !AllMapped(m, c, src, size0) by { assert Translate(m, c, VA(src, k)) == None; }
        return -1, k;
      }
      if sz > size {
        sz := size;
      }
      ghost var was := dest[..];
      CopyFrom(b, pa, dest, k, sz);
      assert was[..k] == dest[..][..k];
      TailOfTail(was, old(dest[..]), dest[..], k, sz);
      FetchedMore(m, c, b, src, was, k, pa, sz, dest[..]);
      Advance(src, k, sz);
      size := size - sz;
      va := (va + sz) % WORD;
      k := k + sz;
    }
    return 0, k;
  }

  /** Memory after the first n bytes of buf have been stored from va on, one by one, each translated for itself. */
  function Poked(m: Mem, c: Client, b: Bytes, va: nat, buf: seq<Byte>, n: nat): Bytes
    requires n <= |buf|
  {
    if n == 0 then b
    else
      var b' := Poked(m, c, b, va, buf, n - 1);
      match Translate(m, c, VA(va, n - 1))
      case Some(a) => b'[a := buf[n - 1]]
      case None => b'
  }

  // -------------------------------------- stores beside the page tables

  /** The little-endian word at a. */
  function WordAt(b: Bytes, a: nat): (w: nat)
    ensures w < WORD
  {
    Peek(b, a) + 0x100 * Peek(b, a + 1) + 0x1_0000 * Peek(b, a + 2) + 0x100_0000 * Peek(b, a + 3)
  }

  /** Memory as words, in which the page tables are found. */
  function WordsOf(b: Bytes): (m: Mem)
    ensures WordsOk(m)
  {
    map a: int | 0 <= a < WORD && a % 4 == 0 :: WordAt(b, a)
  }

  function DirAddr(c: Client, v: nat): nat {
    c.cr3 - c.cr3 % PAGE + 4 * (v / SUPERPAGE)
  }

  function TabAddr(pde: nat, v: nat): nat {
    pde - pde % PAGE + 4 * (v / PAGE % 1024)
  }

  /** The byte at a is part of an entry that the translation of v reads. */
  ghost predicate Consults(b: Bytes, c: Client, v: nat, a: nat) {
    var pde := WordAt(b, DirAddr(c, v));
    PagingOn(c) && (DirAddr(c, v) <= a < DirAddr(c, v) + 4
                    || (pde % 2 == 1 && !Bit(pde, 7) && TabAddr(pde, v) <= a < TabAddr(pde, v) + 4))
  }

  lemma WordAddress(base: nat, i: nat)
    requires base < WORD && i < 1024
    ensures var a := base - base % PAGE + 4 * i; a < WORD && a % 4 == 0
  {
    var q, r := Split(base, PAGE);
    assert q < 0x10_0000;
    ModUnique(q * PAGE + 4 * i, 4, q * 1024 + i, 0);
  }

  lemma EntryWords(b: Bytes, c: Client, v: nat)
    requires c.cr3 < WORD && v < WORD
    ensures Rd(WordsOf(b), DirAddr(c, v)) == WordAt(b, DirAddr(c, v))
    ensures var pde := WordAt(b, DirAddr(c, v)); Rd(WordsOf(b), TabAddr(pde, v)) == WordAt(b, TabAddr(pde, v))
  {
    assert v / SUPERPAGE < 1024;
    WordAddress(c.cr3, v / SUPERPAGE);
    WordAddress(WordAt(b, DirAddr(c, v)), v / PAGE % 1024);
  }

  lemma SameWord(b: Bytes, b': Bytes, a: nat)
    requires forall x: nat {:trigger Peek(b', x)} :: a <= x < a + 4 ==> Peek(b', x) == Peek(b, x)
    ensures WordAt(b', a) == WordAt(b, a)
  {
  }

  lemma SameWalk(m: Mem, m': Mem, c: Client, v: nat)
    requires Rd(m', DirAddr(c, v)) == Rd(m, DirAddr(c, v))
    requires var pde := Rd(m, DirAddr(c, v)); pde % 2 == 1 && !Bit(pde, 7) ==> Rd(m', TabAddr(pde, v)) == Rd(m, TabAddr(pde, v))
    ensures Translate(m', c, v) == Translate(m, c, v)
  {
  }

  /** A translation depends on the entries it reads only. */
  lemma SameEntries(b: Bytes, b': Bytes, c: Client, v: nat)
    requires c.cr3 < WORD && v < WORD && forall a: nat {:trigger Consults(b, c, v, a)} :: Consults(b, c, v, a) ==> Peek(b', a) == Peek(b, a)
    ensures Translate(WordsOf(b'), c, v) == Translate(WordsOf(b), c, v)
  {
    if PagingOn(c) {
      EntryWords(b, c, v);
      EntryWords(b', c, v);
      var d := DirAddr(c, v);
      var pde := WordAt(b, d);
      forall a: nat | d <= a < d + 4 ensures Peek(b', a) == Peek(b, a) {
        assert Consults(b, c, v, a);
      }
      SameWord(b, b', d);
      if pde % 2 == 1 && !Bit(pde, 7) {
        var e := TabAddr(pde, v);
        forall a: nat | e <= a < e + 4 ensures Peek(b', a) == Peek(b, a) {
          assert Consults(b, c, v, a);
        }
        SameWord(b, b', e);
      }
      SameWalk(WordsOf(b), WordsOf(b'), c, v);
    }
  }

  /** The n bytes from va on do not lie in the entries that translate them. */
  ghost predicate OffTables(b: Bytes, c: Client, va: nat, n: nat) {
    forall i: nat, j: nat {:trigger Off(b, c, VA(va, i), VA(va, j))} :: i < n && j < n ==> Off(b, c, VA(va, i), VA(va, j))
  }

  ghost predicate Off(b: Bytes, c: Client, v: nat, w: nat) {
    var r := Translate(WordsOf(b), c, v);
    r.Some? ==> !Consults(b, c, w, r.value)
  }

  lemma {:induction false} PokedElsewhere(m: Mem, c: Client, b: Bytes, va: nat, buf: seq<Byte>, n: nat, a: nat)
    requires n <= |buf| && forall i: nat {:trigger VA(va, i)} :: i < n ==> Translate(m, c, VA(va, i)) != Some(a)
    ensures Peek(Poked(m, c, b, va, buf, n), a) == Peek(b, a)
  {
    if n > 0 {
      PokedElsewhere(m, c, b, va, buf, n - 1, a);
      assert Translate(m, c, VA(va, n - 1)) != Some(a);
    }
  }

  /** Storing the first k bytes leaves all translations of the n addresses as they are. */
  lemma StillTranslated(c: Client, b: Bytes, b': Bytes, va: nat, buf: seq<Byte>, k: nat, n: nat, j: nat, v: nat)
    requires c.cr3 < WORD && k <= n && k <= |buf| && j < n && OffTables(b, c, va, n)
    requires b' == Poked(WordsOf(b), c, b, va, buf, k) && v == VA(va, j)
    ensures Translate(WordsOf(b'), c, v) == Translate(WordsOf(b), c, v)
  {
    var m := WordsOf(b);
    forall a: nat | Consults(b, c, VA(va, j), a) ensures Peek(b', a) == Peek(b, a) {
      forall i: nat | i < k ensures Translate(m, c, VA(va, i)) != Some(a) {
        assert Off(b, c, VA(va, i), VA(va, j));
      }
      PokedElsewhere(m, c, b, va, buf, k, a);
    }
    SameEntries(b, b', c, VA(va, j));
  }

  lemma StillChunk(c: Client, b: Bytes, b1: Bytes, va: nat, buf: seq<Byte>, k: nat, n: nat, pa: nat, sz: nat)
    requires c.cr3 < WORD && k + sz <= n && k <= |buf| && OffTables(b, c, va, n) && b1 == Poked(WordsOf(b), c, b, va, buf, k)
    requires Chunk(WordsOf(b1), c, VA(va, k), pa, sz)
    ensures Chunk(WordsOf(b), c, VA(va, k), pa, sz)
  {
    forall i: nat | i < sz ensures ChunkAt(WordsOf(b), c, VA(va, k), pa, i) {
      assert ChunkAt(WordsOf(b1), c, VA(va, k), pa, i);
      assert k <= n && k + i < n;
      StillTranslated(c, b, b1, va, buf, k, n, k + i, VA(va, k + i));
      SameChunkAt(WordsOf(b), WordsOf(b1), c, va, k, pa, i);
    }
  }

  lemma SameChunkAt(m: Mem, m1: Mem, c: Client, va: nat, k: nat, pa: nat, i: nat)
    requires Translate(m1, c, VA(va, k + i)) == Translate(m, c, VA(va, k + i)) && ChunkAt(m1, c, VA(va, k), pa, i)
    ensures ChunkAt(m, c, VA(va, k), pa, i)
  {
    Advance(va, k, i);
  }

  /** What gdb_copyout promises for stores that stay off the entries that translate them. */
  ghost predicate CopiedOut(c: Client, b: Bytes, b': Bytes, va: nat, buf: seq<Byte>, r: int, done: nat) {
    var m := WordsOf(b);
    && (r == 0 <==> AllMapped(m, c, va, |buf|))
    && done <= |buf| && b' == Poked(m, c, b, va, buf, done)
    && (r == 0 ==> done == |buf|)
    && (r == -1 ==> done < |buf| && Translate(m, c, VA(va, done)) == None)
  }

  /** Physical memory, page tables included. */
  class Physical {
    var bytes: Bytes

    /** memcpy to physical memory */
    method CopyTo(buf: seq<Byte>, k: nat, pa: nat, sz: nat)
      requires k + sz <= |buf|
      modifies this
      ensures bytes == Stored(old(bytes), buf[k..k + sz], pa)
    {
      var i := 0;
      assert buf[k..k] == [];
      while i < sz
        invariant 0 <= i <= sz && bytes == Stored(old(bytes), buf[k..k + i], pa)
      {
        assert buf[k..k + i + 1] == buf[k..k + i] + [buf[k + i]];
        bytes := bytes[(pa + i) % WORD := buf[k + i]];
        i := i + 1;
      }
    }

    /** gdb_copyout, with the tables in the memory that is written.  Stores that stay off the entries
        translating them are as if each byte had been translated for itself at the start. */
    method CopyOut(c: Client, buf: seq<Byte>, dest: nat) returns (r: int, ghost done: nat)
      requires c.cr0 < WORD && c.cr3 < WORD && dest < WORD
      modifies this
      ensures r == 0 || r == -1
      ensures OffTables(old(bytes), c, dest, |buf|) ==> CopiedOut(c, old(bytes), bytes, dest, buf, r, done)
    {
      ghost var b0 := bytes;
      ghost var off := OffTables(b0, c, dest, |buf|);
      var size: nat, va: nat, k: nat := |buf|, dest, 0;
      ModUnique(dest, WORD, 0, dest);
      while size > 0
        invariant size + k == |buf| && va == VA(dest, k) && va < WORD
        invariant off ==> SoFar(c, b0, bytes, dest, buf, k)
        decreases size
      {
        var sz := CopyChunk(c, buf, k, va, b0, dest);
        if sz == 0 {
          if off { Stopped(c, b0, bytes, dest, buf, k); }
          return -1, k;
        }
        Onward(dest, k, sz, va);
        size := size - sz;
        va := (va + sz) % WORD;
        k := k + sz;
      }
      if off { Finished(c, b0, bytes, dest, buf); }
      return 0, k;
    }

    /** The bytes from the k-th on, as far as the translation of va reaches; none if there is none. */
    method CopyChunk(c: Client, buf: seq<Byte>, k: nat, va: nat, ghost b0: Bytes, ghost dest: nat) returns (sz: nat)
      requires k < |buf| && va == VA(dest, k) && c.cr0 < WORD && c.cr3 < WORD
      requires OffTables(b0, c, dest, |buf|) ==> SoFar(c, b0, bytes, dest, buf, k)
      modifies this
      ensures k + sz <= |buf| && (sz == 0 ==> bytes == old(bytes))
      ensures OffTables(b0, c, dest, |buf|) ==> SoFar(c, b0, bytes, dest, buf, k + sz) && (sz == 0 <==> Translate(WordsOf(b0), c, va) == None)
    {
      var pa;
      ghost var m := WordsOf(bytes);
      pa, sz := Lookup(WordsOf(bytes), c, va);
      if OffTables(b0, c, dest, |buf|) { StillTranslated(c, b0, bytes, dest, buf, k, |buf|, k, va); }
      if sz > |buf| - k {
        sz := |buf| - k;
      }
      if OffTables(b0, c, dest, |buf|) { Further(c, b0, bytes, dest, buf, k, pa, sz); }
      CopyTo(buf, k, pa, sz);
    }
  }

  /** The first k bytes are mapped and stored. */
  ghost predicate SoFar(c: Client, b: Bytes, b': Bytes, va: nat, buf: seq<Byte>, k: nat)
    requires k <= |buf|
  {
    b' == Poked(WordsOf(b), c, b, va, buf, k) && AllMapped(WordsOf(b), c, va, k)
  }

  lemma Stopped(c: Client, b: Bytes, b1: Bytes, va: nat, buf: seq<Byte>, k: nat)
    requires k < |buf| && SoFar(c, b, b1, va, buf, k) && Translate(WordsOf(b), c, VA(va, k)) == None
    ensures CopiedOut(c, b, b1, va, buf, -1, k)
  {
  }

  lemma Finished(c: Client, b: Bytes, b1: Bytes, va: nat, buf: seq<Byte>)
    requires SoFar(c, b, b1, va, buf, |buf|)
    ensures CopiedOut(c, b, b1, va, buf, 0, |buf|)
  {
  }

  lemma Further(c: Client, b: Bytes, b1: Bytes, va: nat, buf: seq<Byte>, k: nat, pa: nat, sz: nat)
    requires c.cr3 < WORD && k + sz <= |buf| && OffTables(b, c, va, |buf|) && SoFar(c, b, b1, va, buf, k)
    requires Chunk(WordsOf(b1), c, VA(va, k), pa, sz)
    ensures SoFar(c, b, Stored(b1, buf[k..k + sz], pa), va, buf, k + sz)
  {
    StillChunk(c, b, b1, va, buf, k, |buf|, pa, sz);
    PokedMore(WordsOf(b), c, b, va, buf, k, pa, sz);
    MappedMore(WordsOf(b), c, va, k, pa, sz);
  }

  /** Memory after the bytes have been stored from pa on. */
  function Stored(b: Bytes, s: seq<Byte>, pa: nat): Bytes {
    if s == [] then b else Stored(b, s[..|s| - 1], pa)[(pa + |s| - 1) % WORD := s[|s| - 1]]
  }

  /** Storing a chunk is storing its bytes one by one, each translated for itself. */
  lemma {:induction false} PokedMore(m: Mem, c: Client, b: Bytes, va: nat, buf: seq<Byte>, k: nat, pa: nat, sz: nat)
    requires k + sz <= |buf| && Chunk(m, c, VA(va, k), pa, sz)
    ensures Poked(m, c, b, va, buf, k + sz) == Stored(Poked(m, c, b, va, buf, k), buf[k..k + sz], pa)
  {
    if sz > 0 {
      forall i: nat | i < sz - 1 ensures ChunkAt(m, c, VA(va, k), pa, i) {}
      PokedMore(m, c, b, va, buf, k, pa, sz - 1);
      StoredOne(Poked(m, c, b, va, buf, k), buf, k, sz - 1, pa);
      assert ChunkAt(m, c, VA(va, k), pa, sz - 1);
      Advance(va, k, sz - 1);
      PokedOne(m, c, b, va, buf, k + sz - 1, (pa + (sz - 1)) % WORD);
    } else {
      assert buf[k..k] == [];
    }
  }

  lemma PokedOne(m: Mem, c: Client, b: Bytes, va: nat, buf: seq<Byte>, n: nat, a: nat)
    requires n < |buf| && Translate(m, c, VA(va, n)) == Some(a)
    ensures Poked(m, c, b, va, buf, n + 1) == Poked(m, c, b, va, buf, n)[a := buf[n]]
  {
  }

  lemma StoredOne(b: Bytes, buf: seq<Byte>, k: nat, n: nat, pa: nat)
    requires k + n < |buf|
    ensures Stored(b, buf[k..k + n + 1], pa) == Stored(b, buf[k..k + n], pa)[(pa + n) % WORD := buf[k + n]]
  {
    assert buf[k..k + n + 1] == buf[k..k + n] + [buf[k + n]];
  }

  lemma MappedMore(m: Mem, c: Client, va: nat, k: nat, pa: nat, sz: nat)
    requires AllMapped(m, c, va, k) && Chunk(m, c, VA(va, k), pa, sz)
    ensures AllMapped(m, c, va, k + sz)
  {
    forall i: nat | i < k + sz ensures Translate(m, c, VA(va, i)).Some? {
      if i >= k {
        assert ChunkAt(m, c, VA(va, k), pa, i - k);
        ThereIs(m, c, va, k, pa, i - k);
      }
    }
  }
}
