# XUNIL kernel and library algorithms, modelled and proved in Dafny

This project models the algorithms of the XUNIL teaching kernel that keep state or do real
arithmetic, and proves what they are for. `dafny verify dfyconfig.toml` checks everything.

**The allocator** (`Malloc*.dfy`, for `shared/malloc.c` over the `sbrk` of `kernel/mem.c`). Memory is two
maps from 8-aligned addresses to words (the word at `a`, and the one at `a + 4`), which is enough because
every size and address the allocator uses is a multiple of 8: the chunk `p` has `prev_size` in `lo[p]`,
`size` in `hi[p]`, `fd` in `lo[p+8]` and `bk` in `hi[p+8]`. The class `Malloc.Mstate` has the fields of `malloc_state`
and its methods store the same words as the code, in the same branches. A ghost value `heap` records the tiling by chunks, with
the use of each (live, on a fastbin, loose while an operation works on it, or in a bin), and the contents of
every list; `MallocHeap.Valid` ties it to memory. The proofs are about that value: each elementary step (unlink,
link, cut, join, absorb, ...) keeps `Valid`, writes only where the code writes, and leaves all payload alone.
On top of this stand: the outcome of each of `malloc`, `free`, `realloc` and `memalign`, with best fit and an
account of when `malloc` returns null; the tiling and boundary tags; the `do_check_*` assertions; `mallinfo`; and
whole runs of a program, in which each action has the outcome its history calls for: every word reads as it was last
written, and a request fails only if what the program holds really leaves no room for it (`MallocRoom`).
The configuration is the kernel's: 32-bit words, alignment 8, no mmap, contiguous `sbrk`, default tuning, the branch-free bin index.

**The hash table** (`Hash*.dfy`, for `kernel/hash.c`). The probe sequence `5i + perturb + 1` is shown to visit every
slot, by number theory on powers of two; the table in place answers like a plain map from classes
of equal keys, through tombstones, growing and shrinking. The result of `mem_alloc` is a parameter.

**Two semaphore protocols** (`Dining*.dfy` for `user/tests/test20`, `Buffer.dfy` for `user/tests/test17`). Semaphores are atomic
P and V on counters. Processes are program counters; the statements between P and V of the mutex are one step, which
mutual exclusion justifies. The invariants hold over every interleaving, for any number of seats from three up and any number of producers and consumers.
The critical sections are also methods on the arrays in shared memory, proved equal to the functions of the state machines.

**64-bit division** (`Div64.dfy`) from `divl` by estimate and correction, against shift-and-subtract. **Smaller algorithms**:
the packets of the debugger (`Gdb.dfy`), the intrusive priority queue, alone and over any sequence of operations, and the scheduler's choice (`Queue.dfy`, `QueueRun.dfy`, `Scheduler.dfy`),
page tables and the walk over them (`Paging.dfy`), printing and reading numbers (`Numbers.dfy`), substring search (`Search.dfy`).
`Words.dfy`, `Arith.dfy`, `Sets.dfy` and `Options.dfy` hold the arithmetic of 32-bit words, and elementary facts.

Results about behaviour that differs from what one would expect:

- `Buffer.WrapBreaks`: after 2^32 writes the positions wrap, 2^32 is not a multiple of 100, and there is a run in which a receiver reads a wrong value. Up to 2^32 writes the order is right in every run (`Buffer.Safety`).
- `Div64.DoDiv64`: `do_div64` divides by zero exactly for divisors whose leading 32 bits, from the top bit down, are all ones (`Div64.Overshoots`).
- `Numbers.SignedRoundTrip`: `strtol` does not pass over a plus sign, so what `%+d` prints is read back exactly if the number is not positive; a positive one is read as 0.
- `Gdb.DollarSent`: a packet in hex contains a dollar sign, which the protocol forbids as a repeat character, exactly if some maximal run of a byte with two equal digits has length 4 modulo 49.
- `Gdb.TextEndToEnd`: text without a star, sent as it is, arrives exactly if it has no hash sign and no maximal run of length 7 modulo 98; in such a run the repeat character is the hash that ends the packet (`Gdb.SevenExample`).
- `MallocPolicy.PaddingWraps`, `MallocAlign.DoublingEnds`: `memalign` adds alignment and padding to the request without a check. What it asks `malloc` for is enough exactly if the sum stays below 2^32 (`MallocPolicy.PaddingWrapsExample` is a request of nearly 2 GB for which it asks for 8 bytes), and the search for a power of two ends exactly for alignments up to 2^31.
- `Scheduler.Kernel.BlockOnSemaphore`, `Scheduler.Kernel.MakeReady`: a process that blocks on a semaphore while another is ready is on no list afterwards, and `passe_activable`, which looks for it on `process_list`, does nothing.
- `Search.StrStr`: an empty needle is not found, unlike in the C standard.
- `Hash.HashMap.Set`: when the table cannot be resized the result is -1, although the pair has been stored.

## Model

| member | source | states |
|---|---|---|
| Malloc.Mstate.Malloc | shared/malloc.c:3378-3724 | Null and nothing changed, or a new 8-aligned block, disjoint from all others, of at least the padded request and less than MINSIZE more; no byte of another block changes; the last chunk freed of exactly that size if a fastbin holds one, else the start of a smallest binned chunk that fits, or of the last remainder when it is the only unsorted chunk and a small request has no exact fit, or of top if no binned chunk fits; null if the request is out of range, and if nothing could serve it before the call; and null only if it is out of range or nothing can serve it after the call; a small request is served from the end of its small bin, and what becomes of the last remainder and of the fastbins is stated for every path |
| Malloc.Mstate.Free | shared/malloc.c:3731-3867 | Exactly the given block disappears and all others keep every byte. A chunk of at most MAX_FAST bytes goes to the front of its fastbin, and nothing else changes. Any other lies afterwards, with its free neighbours, in one unsorted chunk or in top; from FASTBIN_CONSOLIDATION_THRESHOLD bytes together on, the fastbins are emptied as well. Null changes nothing |
| Malloc.Mstate.Realloc | shared/malloc.c:4002-4157 | Null and nothing changed, or one block of the padded size, in place or moved, whose leading words up to the smaller of both sizes are the old ones, all other blocks untouched. In place, on the heap before the call: if the block is large enough already, if the chunk behind it is free and both together are, or if top is behind it with room, of which then just the request is cut. What is left over at the end, or the old place of a block that moves, is first on its fastbin, or in an unsorted chunk or top. A block does not move right behind itself; null only if out of range or nothing can serve it |
| Malloc.Mstate.Memalign | shared/malloc.c:4228-4326 | As malloc, at a multiple of the alignment rounded up to a power of two; lead and tail are given back as chunks, leaving at most MINSIZE bytes too many |
| Malloc.Mstate.AlignLead | shared/malloc.c:4275-4310 | The block starts at a multiple of the alignment; what lies before it is first on its fastbin, or in an unsorted chunk or top |
| Malloc.Mstate.TrimTail | shared/malloc.c:4312-4322 | So is what lies behind it, if that is more than MINSIZE bytes; otherwise the block keeps it |
| MallocPolicy.PaddingWraps | shared/malloc.c:4269 | What memalign asks malloc for is at least the padded request exactly if the sum of request, alignment and MINSIZE does not wrap |
| MallocPolicy.PaddingWrapsExample | shared/malloc.c:4269 | A request in range and an alignment of 2^31 for which malloc is asked for 8 bytes |
| MallocAlign.DoublingEnds | shared/malloc.c:4253-4257 | The doubling reaches the alignment exactly if that is at most 2^31; all larger ones are no powers of two and get there |
| Malloc.Mstate.Consolidate | shared/malloc.c:3899-3994 | All fastbins become empty, every byte of an unsorted chunk or of top still lies in one, the blocks stay as they are, and the bin map and flags stay right |
| Malloc.Mstate.Coalesce | shared/malloc.c:3781-3835 | The chunk given up and its free neighbours, from FreeStart to FreeEnd of the heap before, become one unsorted chunk or part of top; the other chunks and bins stay, and no free chunk borders it |
| Malloc.Mstate.SysMalloc | shared/malloc.c:2881-3300 | Memory from sbrk extends top in place; the non-contiguous and fencepost branch is never taken after the first growth; null only if sbrk cannot supply what is missing, and, when there are no fastbin chunks to consolidate first, exactly then |
| Malloc.Mstate.SysTrim | shared/malloc.c:3316-3370 | Nothing is ever released, because sbrk refuses to shrink |
| Malloc.Mstate.Sbrk | kernel/mem.c:16-23 | Succeeds exactly for increments that stay in the heap area, and then returns the old break; otherwise changes nothing |
| Malloc.Mstate.InitState | shared/malloc.c:2487-2516 | All bins are linked to themselves and top is the unsorted bin's header |
| Malloc.Mstate.ProcessUnsorted | shared/malloc.c:3485-3564 | Either the oldest exact fit is handed out whole, or the last remainder is split for a small request without an exact fit, or every unsorted chunk ends in the bin of its size, sorted, with its map bit set |
| Malloc.Mstate.FindSlot | shared/malloc.c:3531-3557 | The neighbours between which the bin stays sorted by size, largest first: first in a small bin, last in a large one that holds no smaller chunk, otherwise before the first chunk that is not larger |
| Malloc.Mstate.ScanLargeBin | shared/malloc.c:3575-3604 | Takes a smallest of all binned chunks that fit, whole or cut, from the bin of the request, or shows that none of that bin fits; the one taken is the last of the bin that fits |
| Malloc.Mstate.SearchBins | shared/malloc.c:3606-3688 | Takes a smallest of all binned chunks that fit, whole or cut, or shows that no binned chunk fits at all; the one taken is the last of the next bin that holds any |
| Malloc.Mstate.CarveTop | shared/malloc.c:3706-3717 | The block is the first nb bytes of the old top, and the new top is the rest |
| Malloc.Mstate.CopyUnrolled | shared/malloc.c:4111-4127 | The unrolled copy covers every word of the old block, because their number is odd and at least three |
| Malloc.Mstate.Store | shared/malloc.c:2698-2741 | A program may write any word of its own block: the invariant and all other blocks are unaffected |
| MallocHeap.FootIsClear | shared/malloc.c:2616-2651 | The footer of a chunk is not part of any other block in use |
| MallocSteps.UnlinkValid | shared/malloc.c:2148-2156 | unlink keeps the invariant and every payload |
| MallocSteps.LinkValid | shared/malloc.c:3559-3563 | Linking a chunk into its bin at a sorted place keeps the invariant and every payload |
| MallocSteps.JoinValid | shared/malloc.c:3787-3804 | Two neighbouring chunks with the same use become one without breaking tiling, tags or lists |
| MallocSteps.CutValid | shared/malloc.c:3500-3513 | A chunk cut in two legal sizes leaves a tiling with right tags |
| MallocSteps.AbsorbValid | shared/malloc.c:3830-3834 | A free chunk that borders top becomes its start |
| MallocBins.IndexMono | shared/malloc.c:2187-2224 | Larger chunks never go to lower bins, over all sizes |
| MallocBins.IndexRange | shared/malloc.c:2187-2224 | Every legal size has a bin from 2 to 95, a small one exactly below 256 |
| MallocBins.LargeBinIndex | shared/malloc.c:2187-2216 | The branch-free shifts and masks compute the bin defined by the base-2 logarithm |
| MallocBins.IndexBounds | shared/malloc.c:2187-2216 | Four bins of equal width for each power of two from 256 up to 2^24: exactly which sizes each of them holds |
| MallocPolicy.SmallestAbove | shared/malloc.c:3606-3688 | The last chunk of the first nonempty bin above the request's bin is a smallest one that fits |
| MallocPolicy.LargeFits | shared/malloc.c:3575-3604 | The first fitting chunk from the end of the request's bin is a smallest one that fits in all bins |
| MallocPolicy.AllUnfit | shared/malloc.c:3618-3628 | With all higher bins empty, no binned chunk fits, so that top may be cut |
| MallocPolicy.SkipRest | shared/malloc.c:3623-3632 | Skipping the rest of a map block passes over no chunk |
| MallocPolicy.RetryRequest | shared/malloc.c:2917-2920 | The request repeated after consolidation is padded to the same size |
| MallocPolicy.FastbinFits | shared/malloc.c:3428-3435 | The fastbin of a small request is null exactly if no fast chunk has its size |
| MallocPolicy.NoExactLeft | shared/malloc.c:3497-3513 | When the last remainder is split, no sorted chunk is an exact fit |
| MallocMoves.FreedKeeps | shared/malloc.c:3781-3835 | After a coalescing step every byte of an unsorted chunk or of top still lies in one |
| MallocPolicy.CorrectionEnds | shared/malloc.c:3174-3202 | The correction brings the break to the end of its page, or there is no room for it |
| MallocAlign.Alignment | shared/malloc.c:4248-4257 | The alignment used is the least power of two from MINSIZE up that is large enough |
| MallocAlign.Spot | shared/malloc.c:4275-4291 | The spot found is aligned, and far enough from the chunk's start for a chunk, within the padding |
| MallocAlign.PowerTest | shared/malloc.c:4253 | a & (a - 1) is zero exactly for powers of two |
| MallocTiling.Tiling | shared/malloc.c:2566-2609 | Every byte from the heap's start to the break lies in exactly one chunk, or in top, which ends at the break |
| MallocTiling.WalkMeetsAll | shared/malloc.c:2841-2846 | Stepping by the sizes in memory from a chunk meets all later chunks and nothing else |
| MallocTiling.WalkSteps | shared/malloc.c:2841-2846 | Each chunk ends where the next starts, and the last one at top |
| MallocTiling.TagsTell | shared/malloc.c:2616-2691 | PREV_INUSE is clear exactly if the chunk before is in a bin, and then prev_size is its size |
| MallocTiling.FullyConsolidated | shared/malloc.c:2638-2642 | No two binned chunks are adjacent, and none borders top |
| MallocTiling.HeapTotal | shared/malloc.c:4654-4708 | Live and free chunks together make up the heap below top |
| MallocInfo.MallInfo | shared/malloc.c:4654-4708 | In every state: uordblks is exactly the total size of the live chunks, fordblks the rest of arena, and the counts are those of fast and binned chunks; an untouched state is initialised, and nothing else changes |
| MallocInfo.SumBin | shared/malloc.c:4688-4695 | Walking a bin backwards from its header counts each of its chunks once |
| MallocInfo.SumFastbin | shared/malloc.c:4676-4684 | Following a fastbin to its null link counts each of its chunks once |
| MallocCheck.CheckMallocState | shared/malloc.c:2755-2868 | All assertions about fastbins, bins, bin map, order, totals and top hold in every state between calls |
| MallocCheck.FreeChunkPasses | shared/malloc.c:2617-2651 | All assertions of do_check_free_chunk hold for every binned chunk |
| MallocCheck.InuseChunkPasses | shared/malloc.c:2657-2691 | All assertions of do_check_inuse_chunk hold for every live or fastbin chunk |
| MallocCheck.MallocedPasses | shared/malloc.c:2698-2717 | What malloc hands out passes the assertions on size, alignment and waste |
| MallocCheck.NonrecycledPasses | shared/malloc.c:2722-2742 | A chunk that is not from a fastbin has a chunk in use before it |
| MallocRun.Run | shared/malloc.c:2698-2741 | In any sequence of malloc, free, realloc, memalign, stores and loads, each action has the outcome that the history before it calls for: a block that is new and apart from all others, or null only if the program holds too much; exactly the held block freed; shrinking in place; every word read as it was last written |
| MallocRun.ReadBack | shared/malloc.c:2698-2741 | In such a run each word of a held block reads as it was last written |
| MallocRun.Disjoint | shared/malloc.c:2698-2741 | The bytes asked for of different blocks never overlap |
| MallocRun.Recycle | shared/malloc.c:3755-3775 | A small block freed is what the next request for its size gets |
| MallocRoom.CrowdedFrom | shared/malloc.c:2638-2642 | When no binned chunk fits nb bytes, the heap from any chunk up to top is no longer than the blocks held there, with a gap of less than nb before each |
| MallocRoom.StarvedShort | shared/malloc.c:2881-3300 | malloc finds nothing only if the heap area is shorter than those blocks and gaps, the request and a page together, or the request alone exceeds the 2 GB sbrk can be asked for |
| MallocRoom.NothingLost | shared/malloc.c:2881-3300 | With no block allocated, malloc finds nothing only if the request does not fit the heap area, or 2 GB, with a page to spare, whatever was done before |
| HashProbe.FullCycle | kernel/hash.c:75-79 | From any start, 5x + 1 reaches every slot of a table of 2^k within 2^k steps |
| HashProbe.ProbesAll | kernel/hash.c:54-81 | Whatever the hash code, every slot is probed within 7 + 2^k steps, with the index wrapping at 32 bits |
| HashProbe.PerturbEnds | kernel/hash.c:58-79 | perturb is zero after seven steps |
| HashProbe.PerturbIs | kernel/hash.c:58-79 | After n steps perturb is the hash code divided by 2^(5n) |
| HashSlots.SearchEnds | kernel/hash.c:63-66 | At the first empty slot on its path, a key that was not met is nowhere in the table |
| HashSlots.EmptyAhead | kernel/hash.c:62-80 | With fill below the size a search comes to an empty slot, which bounds its length |
| HashSlots.SetLaw | kernel/hash.c:188-214 | After a store the answer for equal keys is the new value, and every other answer is the old one |
| HashSlots.DelLaw | kernel/hash.c:217-236 | After a removal equal keys have no value, and every other answer is the old one |
| HashSlots.SetKeeps | kernel/hash.c:188-214 | All pairs stay findable and their keys different, also when a tombstone is reused |
| Hash.HashMap.Lookup | kernel/hash.c:54-81 | Terminates, and returns the slot of the key, or a free slot on its path if the key is absent; that is the first one, empty or a tombstone |
| Hash.HashMap.Copy | kernel/hash.c:88-104 | The new table answers exactly as the old one and has no tombstones |
| Hash.HashMap.Update | kernel/hash.c:110-135 | No answer changes; on success fill is below two thirds; it fails exactly if a resize is due and there is no memory; the table doubles, shrinks or stays exactly as fill and count call for |
| Hash.HashMap.Set | kernel/hash.c:188-214 | The new value for equal keys, no other answer changed, also when the result is -1; count, fill, the size of the table and the result are exact |
| Hash.HashMap.Del | kernel/hash.c:217-236 | No value for equal keys, no other answer changed; count, fill, the size of the table and the result are exact |
| Hash.HashMap.Get | kernel/hash.c:174-185 | The value the abstract map has for the key, or the default |
| Hash.HashMap.IsSet | kernel/hash.c:163-171 | True exactly if the abstract map has a value for the key |
| Hash.Run | kernel/hash.c:138-236 | Over any sequence of operations the answer for each key is that of the latest operation on an equal key |
| Dining.Safety | user/tests/test20/philosophe.c:44-100 | In every reachable state neighbours never both eat, a fork is taken exactly if a neighbour owns both of its forks, semaphores stay at most 1, and whoever is blocked has a neighbour that owns its forks |
| Dining.StepKeeps | user/tests/test20/philosophe.c:31-126 | The invariant on forks, flags, semaphores, display and mutex is kept by every step of every process |
| Dining.PassKeeps | user/tests/test20/philosophe.c:85-98 | Handing a fork to a blocked neighbour, or putting it down, keeps the invariant of all seats |
| Dining.Given | user/tests/test20/philosophe.c:85-98 | Which neighbours are woken, and what becomes of each fork, flag and semaphore, place by place; only at a table of three do both compete for a fork, and the left one gets it |
| Dining.MutualExclusion | user/tests/test20/philosophe.c:63-100 | No two processes are in their critical sections |
| Dining.NoDeadlock | user/tests/test20/philosophe.c:103-124 | Unless all have finished, some process can take a step |
| Dining.Termination | user/tests/test20/philosophe.c:103-124 | A run has at most 117 steps per process, and one that cannot go on has exactly that many with all processes finished |
| Dining.Finished | user/tests/test20/philosophe.c:113-124 | At the end all forks are free, nobody is blocked, and the semaphores are as at the start |
| DiningTable.Philo.Prendre | user/tests/test20/philosophe.c:63-78 | The section on the arrays is the step of the state machine |
| DiningTable.Philo.Poser | user/tests/test20/philosophe.c:80-100 | The section on the arrays, with its index arithmetic modulo the seats, is the step of the state machine |
| Buffer.Safety | user/tests/test17/proc17_1-sem.c:4-11 | Up to 2^32 writes: at most 100 values wait, the k-th read is the k-th written, and what receivers counted or carry is what was read |
| Buffer.SentAsGiven | user/tests/test17/proc17_1-sem.c:4-11 | In every run, of any number of writes: what is written is what the calls of buf_send were given, each value as often as it was given but for the calls still on their way, and each process writes its values in the order in which it gave them |
| Buffer.BalanceKept | user/tests/test17/proc17_2-sem.c:4-13 | wsem, rsem and the tokens of operations in progress always make 100, and the mutex excludes |
| Buffer.NoDeadlock | user/tests/test17/proc17_2-sem.c:4-30 | With a sender and a receiver some process can always take a step |
| Buffer.Quiescent | user/tests/test17/test17-sem.c:53-65 | With all processes idle and all values read, mutex, wsem and rsem are 1, 100 and 0 as asserted there, and every value was counted as often as it was written |
| Buffer.WrapBreaks | user/tests/test17/proc17_1-sem.c:8 | With one more than 2^32 writes there is a run in which a value read is not the one written |
| Buffer.SharedBuffer.Write | user/tests/test17/proc17_1-sem.c:8 | The store in place is the step of the state machine |
| Div64.DoDiv64 | shared/div64.c:28-64 | Quotient and remainder for all x and y, 0 and x for y = 0; a divide error exactly for the divisors whose shifted value is all ones |
| Div64.Estimate | shared/div64.c:35-50 | Dividing by the shifted divisor plus one underestimates the quotient by at most two |
| Div64.Correct | shared/div64.c:42-49 | The correction loop runs at most twice and leaves quotient and remainder |
| Div64.ShiftsRight | shared/div64.c:19-23 | shrdl, shrl and the test of bit 5 of the count shift a double word right by 1 to 32 |
| Div64.OvershootExample | shared/div64.c:39 | Concrete divisors that fault, and close ones that do not |
| Div64.ShiftSubtract | kernel/tests/lib/math.c:109-139 | The same quotient and remainder, for all x and divisors |
| Div64.Agree | shared/div64.c:28-64 | The two divisions agree wherever the fast one does not fault |
| Div64.Mul64 | kernel/tests/lib/math.c:145-177 | The product modulo 2^64 |
| Gdb.RoundTrip | kernel/gdb_serial.c:133-222 | Expanding the run lengths of a packet in hex and decoding its digits gives the data back |
| Gdb.ExpandPlain | kernel/gdb_serial.c:133-222 | The same for text without a star |
| Gdb.PayloadConveys | kernel/gdb_serial.c:133-222 | The payload of fragments without stars expands to their contents in order: two digits for each byte of one sent in hex, the characters themselves for the others |
| Gdb.PayloadHash | kernel/gdb_serial.c:133-222 | The payload contains a hash exactly if one of the fragments sent as text has a hash or a run of length 7 modulo 98 |
| Gdb.PacketBrings | kernel/gdb_serial.c:133-222 | A receiver that checks the sum gets all contents from the packet of fragments without stars if none of them hashes, and otherwise not the payload |
| Gdb.PlainExample | kernel/gdb_serial.c:164-206 | The reply OK is sent as it is, a byte in hex as two digits |
| Gdb.PacketExample | kernel/gdb_serial.c:133-222 | The packet of that reply is $OK#9a |
| Gdb.EndToEnd | kernel/gdb_serial.c:133-222 | A receiver that checks the sum gets the data from the packet |
| Gdb.TextEndToEnd | kernel/gdb_serial.c:133-222 | Text without a star arrives exactly if it has no hash and no maximal run of length 7 modulo 98 |
| Gdb.HashSent | kernel/gdb_serial.c:150-203 | Exactly which text makes the packet contain a hash sign |
| Gdb.SevenExample | kernel/gdb_serial.c:191 | Seven equal characters, whose repeat character is the hash |
| Gdb.EncodeChars | kernel/gdb_serial.c:164-193 | All characters lie in 32..126, repeat characters are even, and none is a hash |
| Gdb.DollarSent | kernel/gdb_serial.c:164-193 | Exactly which data makes the packet contain a dollar sign |
| Gdb.HexTable | kernel/gdb_serial.c:47-53 | Exactly which characters are good digits, in both cases, and their values |
| Gdb.Hex2Bin | kernel/gdb_serial.c:55-66 | Succeeds exactly if all digits are good, and then has decoded every byte |
| Gdb.Serial.PutFrags | kernel/gdb_serial.c:133-222 | Fragments of a length, or up to a terminator: sends a packet that brings their contents (PacketBrings) with its checksum, again and again, up to the first reply that accepts it, or one more time than there are replies |
| Queue.Add | shared/queue.h:73-88 | The ring stays well formed with the element before the first of not smaller priority |
| Queue.Out | shared/queue.h:129-147 | The last element leaves a well-formed ring, and null is returned exactly for an empty one |
| Queue.Del | shared/queue.h:155-163 | The ring without the element, wherever it stood, is well formed |
| Queue.InsertedSorted | shared/queue.h:73-88 | Adding keeps the list sorted by priority, with the same elements and the new one |
| Queue.InsertedAged | shared/queue.h:73-88 | Adding keeps elements of equal priority in order of arrival |
| Queue.LastIsOldest | shared/queue.h:129-147 | What leaves next is the oldest of the highest priority |
| QueueRun.RunFair | shared/queue.h:73-163 | Over any sequence of add, out and del the list is in order, add and del change exactly their element, and out takes the one with the highest priority that came first |
| QueueRun.Run | shared/queue.h:73-163 | The links after any sequence of operations, and what queue_out returned each time, are those of that queue |
| Scheduler.Kernel.Ordonnance | kernel/process.c:34-60 | The last ready process that is no zombie is chosen, zombies behind it go to toKill_list, the former one goes where its state says, and process_list stays sorted; no process is lost or duplicated exactly if none was switched from or the former one is not blocked, and otherwise just that one is lost; nothing else changes on the two lists |
| Scheduler.Kernel.BlockOnSemaphore | kernel/process.c:421-424 | If another process takes over, the blocked one is on no list |
| Scheduler.Kernel.MakeReady | kernel/process.c:426-434 | Only a process on process_list becomes ready; nothing happens to any other |
| Scheduler.ChosenFirst | kernel/process.c:34-60 | The process chosen is the oldest of highest priority among those that are no zombies |
| Paging.Tables.MapKernel | kernel/boot/early_mm.c:193-223 | The directory refers to the 64 tables only, and each entry is that of the last zone covering the page, or zero; text, multiboot and rodata pages are present and read-only, and all other zones writable (Rights) |
| Paging.KernelRights | kernel/boot/early_mm.c:193-223 | Which pages get an entry, and with which rights |
| Paging.Identity | kernel/gdb_serial_support.c:90-121 | With those tables the walk is the identity on the mapped pages and finds nothing elsewhere, page 0 and everything from 256 MB up included |
| Paging.SmallPage | kernel/gdb_serial_support.c:90-121 | An address of directory index d, table index t and offset o is o bytes into the frame of that table entry, or unmapped |
| Paging.LargePage | kernel/gdb_serial_support.c:90-121 | The same for pages of 4 MB, and for directory entries that are not present |
| Paging.Lookup | kernel/gdb_serial_support.c:90-121 | A whole chunk of addresses up to the end of a 4 KB or 4 MB page translated as each of them would be, or length 0 exactly if the address is unmapped |
| Paging.CopyIn | kernel/gdb_serial_support.c:142-162 | Succeeds exactly if every byte is mapped; the bytes fetched are those of translating each address for itself, up to the first unmapped one |
| Paging.Physical.CopyOut | kernel/gdb_serial_support.c:164-184 | The same for storing, page tables included: if no byte is stored into an entry that translates one of the addresses, memory is as after storing byte by byte, up to the first unmapped address |
| Numbers.UnsignedRoundTrip | shared/doprnt.c:520-589 | strtoul reads back every 32-bit number printed in base 8, 10 or 16, whatever flags, width and precision |
| Numbers.SignedRoundTrip | shared/strtol.c:21-62 | strtol reads back every number but LONG_MIN exactly if it is not positive or was printed without the plus flag; with it a positive one is read as 0 |
| Numbers.PrintedLength | shared/doprnt.c:541-583 | The output has the larger of the width and of digits, precision zeros, sign and prefix |
| Numbers.Filled | shared/doprnt.c:541-583 | What fills the width, and where: with zeropad the output is sign, prefix, zeros and digits; with ladjust alone these come first and then only blanks; with neither all blanks come first. The prefix is 0 or 0x exactly for altfmt, a number other than zero and base 8 or 16 |
| Numbers.FilledLong | shared/doprnt.c:541-583 | The same for signed numbers, with the minus sign or the given one |
| Numbers.FillExamples | shared/time.c:43 | %02d of 5 is 05; -5 with width 3 is -05, blank and -5, or -5 and blank |
| Numbers.DigitAt | shared/doprnt.c:536-544 | The digit at each position is that of the number divided by the power of the base |
| Numbers.DigitsFew | shared/doprnt.c:536-544 | There is no leading zero but for zero itself, which is one digit |
| Numbers.Sink.PrintNum | shared/doprnt.c:524-589 | The loops over buffer, width and precision output blanks, sign, prefix, zeros, digits and blanks |
| Numbers.Strtoul | shared/strtoul.c:21-56 | The loops compute the value, modulo 2^32, and the end position of the number |
| Numbers.Strtol | shared/strtol.c:21-62 | The same with a minus sign |
| Numbers.UnsignedIs | shared/strtoul.c:21-56 | Blanks are skipped, base 0 or 16 drops 0x or 0X, base 0 means octal after a zero and decimal otherwise; the value is that of all digits of the base that follow, modulo 2^32, and the end is the first character that is none |
| Numbers.SignedIsRead | shared/strtol.c:21-62 | The same after an optional minus sign, which negates; the result is the long congruent to it |
| Numbers.DigitTable | shared/strtoul.c:38-52 | Exactly which characters are digits of a base, in both cases |
| Search.MemMem | shared/string.c:228-266 | The first occurrence of a needle that is not empty, and none exactly if there is none |
| Search.SkipMismatch | shared/string.c:237-249 | The skip after a mismatch of the second byte passes over no occurrence |
| Search.SkipMatch | shared/string.c:250-257 | Nor does the other skip |
| Search.MemCmp | shared/string.c:83-95 | Zero exactly for equal bytes, else the difference of the first two that differ |
| Search.StrStr | shared/string.c:559-563 | The first occurrence between terminators; an empty needle is not found |

## Left out

- Malloc.Mstate.Memalign: requires that padded request + alignment + MINSIZE stays below 2^32, outside of which it asks malloc for too little (MallocPolicy.PaddingWraps says exactly when), and an alignment of at most 2^31, beyond which it never comes to an end (MallocAlign.DoublingEnds).
- MallocInfo.MallInfo: usmblks and the mmap fields are not modelled.
- MallocCheck.CheckMallocState: the statistics of mmap and max_total_mem are not modelled; max_sbrked_mem stands for the latter.
- Malloc.Mstate.ProcessUnsorted: the last remainder is taken off the unsorted list before it is split, where the code splits it in the list; the words in memory are the same afterwards.
- Malloc.Mstate.Malloc: a request that consolidation would be needed for is covered one way only (null means that nothing can serve it afterwards).
- Buffer.Safety: at most 2^32 writes, see Buffer.WrapBreaks.
- Scheduler.Kernel.Ordonnance: the context switch is left out.
- Paging.Physical.CopyOut: nothing is said about stores into the entries that translate the addresses stored to.
- Numbers.SignedRoundTrip: LONG_MIN, whose negation overflows a long.
- Of shared/malloc.c: mmap, mallopt and mallstats, calloc and the independent allocators, locking, WIN32, malloc_trim as a public function, the trap for non-contiguous memory beyond its being unreachable.
- Of kernel/hash.c: hash_destroy, and the predefined hash and comparison functions, which are short.
- mem_alloc is a parameter of the hash table, and it is taken to fail for tables that do not fit the address space.
- Buffer.Quiescent: the count of waiting receivers in rsem, asserted at line 47 of test17-sem.c before they are killed, is not modelled, since a semaphore here counts no waiting processes.
- Gdb.TextEndToEnd: text with a star, which putfrags does not escape.
- Semaphores are taken as atomic counters; kernel/sem.c and kernel/message_queue.c are not part of this model.
- The rest of kernel/process.c; the GDB command loop, getpacket and serial line; early_mm_check; floats, %b, %s and format parsing of shared/doprnt.c; other functions of shared/string.c.
- randBits and the DIVISION_FOIREUSE variant of kernel/tests/lib/math.c.
