# Verification of the simulator's core algorithms

A Dafny model of the hardest parts of an ARM system simulator and its tools, with proofs. `dafny verify
dfyconfig.toml` checks all of it. Code that changes state is modelled by classes, methods and loops proved against
specification functions; what the code is for is then proved about those functions, over all inputs and all runs.

| module | models |
|---|---|
| `Arithmetic`, `Words`, `Bits`, `Bus`, `Wrappers` | 32-bit words and their lanes, bits of numbers, the byte memory behind the bus |
| `WriteBuffer`, `Tlb`, `Cache` | the write buffer (a ring over an array), the table walk with its lookaside buffer and the access check, the set-associative cache |
| `Tables` | page tables as the architecture defines them, encoded in memory, and what walk and check make of them |
| `Coherence`, `Arm926`, `Runs` | the ARM926 data side: a write-back cache over a write buffer over the bus refines one flat memory |
| `Arm7tdmi` | the write-through cache of the ARM7TDMI: coherence, and where it fails |
| `RegMap`, `Accessors` | the register-map compiler and the C accessors it emits |
| `AddrDec` | the address decoder with its move-to-front list, and debug transfers across slaves |
| `Config` | the indentation parser of the configuration file |
| `CallGraph` | the walk over the profile call graph |
| `Gdb` | the packet and hex codec of the GDB server |
| `Saturate`, `Cpsr` | saturating arithmetic and the status register of the ARM core |
| `DecodeCache` | the cache of decoded instructions in the instruction loop |
| `Aic` | the interrupt controller |

## Main results

- **ARM926.** The abstraction is: the cached byte, else the newest pending byte, else the byte in memory.
  `Coherence.Coherent` says that every valid line holds the flat bytes, that a cached byte differs from the memory
  below only in a half marked dirty, and that no cached byte is pending in the write buffer. No single branch shows the
  last point: a read miss of a bufferable page drains before it allocates, only misses are buffered, and a bufferable
  page shares no physical address with another. `Runs.Run` and `Runs.ReadLastWrite` are the consequences over runs.
  Where the flat memory is accessed, and with which fault, is fixed independently of the code: `Runs.RelocatedRun` relates
  runs with and without a process identifier, and `Runs.EncodedAccess` computes fault and address of every access from
  the pages, domains and permissions that were encoded into the tables (`Tables.EncodeRoundTrip`).
- **ARM7TDMI.** A hit is served before translation and permission check. Reads never show it (`MmuRead`). A write
  that faults leaves the line it hit ahead of the bus, and later loads return the refused bytes. `MmuWrite` says exactly
  when; `Run` admits every write that cannot do so, and `AheadOfBus` shows that every other one can.
- **Register maps.** Compiler and generator compose (`SetThenGetAll`, `PackThenUnpackAll`). Three promises hold only
  under conditions, each stated exactly and with an input that fails: the register reset (`CompiledReset`,
  `ResetCanShift`), the read-back of a value that passed the emitted assertion (`GuardSuffices`, `GuardLetsThrough`),
  distinct field names (`CompiledNames`, `NamesCanRepeat`).
- **Address decoder.** `find_next_closest_range` never takes a first candidate, so a debug transfer fills with 0xFF from
  the first hole on; in a write, that goes to the initiator's own buffer. Methods with a parameter `seeded` model the
  code (`false`) and the evident intention (`true`) side by side; `SeedingMatters` says exactly when they read the same,
  `SeedingMattersInWrites` when they write the same, and `LostBytes` is a read in which they do not.
- **Saturation.** `0x40000000` doubled is let through by a strict comparison; the result is right exactly otherwise.
- **Decode cache.** Every round of a run is right exactly if the debugger moves the pc to no word that decodes
  differently (`RightRun`); one such move can spoil later rounds (`Poisoned`).

## Where the code and its comments differ

- The cache operations commented as invalidations all write dirty lines back first; the model follows the code.
- `mmu_tlb_ops` reads like a test of OPC_2 and CRm together, but `&&` binds closer than `||`; the model follows the
  code (`TlbOps`).
- The write of `AIC_IPR` through the default case of `reg_wr` changes the pending sources, although other status
  registers are kept read-only; the model follows the code.

## Assumptions

- The control registers and the page tables do not change during a run, and the tables give each large and small page
  the same descriptor in all its slots, as the architecture demands (`Tlb.StaleTranslation` shows what happens
  otherwise). No physical address has two virtual ones. Data is little-endian. Accesses with the ARM926 data cache
  off, and those of the ARM7TDMI, are aligned or checked for alignment.
- `check_perms` never sees user mode, as in the source.
- The AIC model takes source numbers below 32, register indices in range, and the slaves of the address decoder
  containers as long as their range; for a debug write each slave has one range.
- Chars of the configuration file are those of the C locale; names and values contain no NUL.

## Model

| member | source | states |
|---|---|---|
| Runs.ReadLastWrite | src/iss/arch/arm/arm926ejs.cpp:196-464 | In any run, a read that meets no fault returns exactly the bytes of the last write to its address, zero-extended, as long as no later write stores into those bytes; whatever cache, buffer and lookaside-buffer operations come in between |
| Runs.Run | src/iss/arch/arm/arm926ejs.cpp:196-464 | Every run of reads, writes, cache and TLB operations, of any length, answers each operation as one flat memory with no cache, buffer or lookaside buffer does, ends with the same flat memory, and keeps the invariant; at which address and with which fault the flat memory answers is fixed by Runs.RelocatedRun, Runs.TargetBytes and Runs.EncodedAccess |
| Runs.Step | src/iss/arch/arm/arm926ejs.cpp:196-720 | One operation of any kind answers and changes the flat memory as the reference machine does, whose address and fault Runs.Relocation and Runs.EncodedAccess fix |
| Runs.Relocation | src/iss/arch/arm/mmu/mmu.h:53-59 | Between a processor and the same one with process identifier 0: an access below 32 megabytes has the fault, the target and the refusal of the other at its address plus the identifier, any other access those of the other at its own address |
| Runs.RelocatedRun | src/iss/arch/arm/mmu/mmu.h:53-59 | So over whole runs: a program under a process identifier gives the answers and the memory of its relocated copy without one |
| Runs.MvaIsOr | src/iss/arch/arm/mmu/mmu.h:58-59 | The sum of the model is the bitwise or of the source |
| Runs.TargetBytes | src/iss/arch/arm/arm926ejs.cpp:241-270 | An aligned access that meets no fault acts, byte for byte, on the addresses that its own modified addresses are translated to, and with the cache off on these themselves |
| Runs.EncodedAccess | src/iss/arch/arm/arm926ejs.cpp:203-257 | From tables in memory to the access, for all tables that encode sections and large, small and tiny pages: the fault is that of alignment, of an unmapped page, or of the rights that domain, permission bits of the quarter and control bits give, in that order; the target is the frame plus the offset of the access in its page |
| Coherence.WindowBlock | src/iss/arch/arm/arm926ejs.cpp:271 | The window whose read misses are refused is the 29th block of 128 megabytes |
| Runs.LocationKept | src/iss/arch/arm/arm926ejs.cpp:354-464 | In the reference machine a location keeps its value over any operations that store elsewhere; faulting writes, cleans, drains and invalidations count as storing nowhere |
| Runs.WriteStored | src/iss/arch/arm/arm926ejs.cpp:354-464 | Right after a write that meets no fault its location holds the written lanes, zero-extended |
| Runs.LoadStore | src/iss/arch/arm/arm926ejs.cpp:431-448 | Memory law at each pair of widths: the stored bytes are read back, and a disjoint location reads as before |
| Runs.TargetFits | src/iss/arch/arm/arm926ejs.cpp:245-270 | An access that meets no fault acts on bytes inside the 32-bit address space, so a run never leaves it |
| Arm926.Arm926.MmuRead | src/iss/arch/arm/arm926ejs.cpp:196-330 | Fault outcome (alignment, translation, permission, in that order); without a fault the flat memory's bytes at the translated address at each width, except in the refused window, where the result variable is untouched; after a fault cache lines, buffer and bus memory are as before. Runs.Relocation, Runs.TargetBytes and Runs.EncodedAccess say what fault and address these are |
| Arm926.Arm926.ReadData | src/iss/arch/arm/arm926ejs.cpp:258-330 | After the permission check: hit or miss alike give the flat bytes; a miss in the window gives nothing |
| Arm926.Arm926.ReadMiss | src/iss/arch/arm/arm926ejs.cpp:265-314 | A miss gives the flat bytes although part of them may wait in the write buffer when it begins |
| Arm926.Arm926.ReadLine | src/iss/arch/arm/arm926ejs.cpp:262-263 | The selected lanes of a line that was found are the flat bytes of the translated address |
| Arm926.Arm926.ReadAllocate | src/iss/arch/arm/arm926ejs.cpp:290-297 | A line filled while nothing of it is pending gives the flat bytes, and the invariant survives the eviction |
| Arm926.Arm926.ReadBus | src/iss/arch/arm/arm926ejs.cpp:299-313 | For a missed address with nothing pending, the bus alone already holds the flat bytes |
| Arm926.Arm926.FillLine | src/iss/arch/arm/mmu/cache.cpp:109-147 | Eviction with write-back and fill keep cache, buffer and memory equal to the flat memory, which does not change |
| Arm926.Arm926.SoftFlush | src/iss/arch/arm/mmu/cache.cpp:255-267 | The designated line goes, every other stays, and the flat memory does not change |
| Arm926.Arm926.MmuWrite | src/iss/arch/arm/arm926ejs.cpp:353-464 | Fault outcome; without a fault exactly the addressed bytes of the flat memory change; after a fault data cache lines, buffer, bus memory and flat memory are untouched. Runs.Relocation, Runs.TargetBytes and Runs.EncodedAccess say what fault and address these are |
| Arm926.Arm926.WriteData | src/iss/arch/arm/arm926ejs.cpp:418-463 | After the permission check the flat memory takes exactly the addressed bytes, on a hit and on a miss |
| Arm926.Arm926.WriteHit | src/iss/arch/arm/arm926ejs.cpp:419-423 | Updating the line that was found changes the flat memory at the translated address and nowhere else |
| Arm926.Arm926.WriteMiss | src/iss/arch/arm/arm926ejs.cpp:425-462 | So does a write below the cache, through the buffer or past it |
| Arm926.Arm926.WriteBelow | src/iss/arch/arm/arm926ejs.cpp:429-461 | What buffer and bus amount to changes exactly at the written bytes, and only a bufferable write leaves something pending |
| Arm926.Arm926.WriteUncached | src/iss/arch/arm/arm926ejs.cpp:384-398 | With the data cache off the flat memory is the bus memory and takes the bytes at the modified virtual address |
| Arm926.Arm926.SnoopInstructions | src/iss/arch/arm/arm926ejs.cpp:377-382 | A write changes the line of the instruction cache that a search finds, in the accessed lanes, and no other line; without a hit nothing |
| Arm926.Arm926.CacheOps | src/iss/arch/arm/arm926ejs.cpp:588-697 | Every data-side operation keeps the flat memory; which lines are gone or clean afterwards, which stay as they were, and when the buffer is empty |
| Arm926.Arm926.MaintainAddress | src/iss/arch/arm/mmu/cache.cpp:186-221 | No line of the address is left (or left dirty), every line of another address is as it was, the flat memory is kept |
| Arm926.Arm926.MaintainIndex | src/iss/arch/arm/mmu/cache.cpp:198-234 | The line that set and way bits designate is gone (or clean), every other line is as it was, the flat memory is kept |
| Arm926.Designates | src/iss/arch/arm/mmu/cache.cpp:90-104 | A set and way number in the format of the architecture designates its set and its way, whatever its low bits, for every number of sets that divides 2^25 |
| Arm926.Arm926.InvalidateAll | src/iss/arch/arm/mmu/cache.cpp:236-253 | No valid line is left, and the flat memory is kept |
| Arm926.Arm926.CleanLine | src/iss/arch/arm/mmu/cache.cpp:149-183 | A line comes out clean, the others unchanged, and the flat memory is kept |
| Arm926.Arm926.CleanInvalidateLine | src/iss/arch/arm/mmu/cache.cpp:210-221 | A line is dropped without loss: the flat memory is kept even if the line was dirty |
| Arm926.Arm926.Drain | src/iss/arch/arm/mmu/wb.cpp:122-152 | The buffer is empty and the flat memory unchanged |
| Arm926.Arm926.TlbOps | src/iss/arch/arm/arm926ejs.cpp:699-720 | Which entries remain, with the operator precedence of the source: a single entry is invalidated for CRm 7 only |
| Arm926.Arm926.Synchronize | src/iss/arch/arm/arm926ejs.cpp:629-634 | Invalidating the data cache and draining the buffer makes the bus memory equal to the flat memory |
| Arm926.Arm926.constructor | src/iss/arch/arm/arm926ejs.cpp:41-76 | The initial state satisfies the invariant for any tables that repeat large-page descriptors and map no physical address twice; the flat memory is the bus memory; sizes of caches, buffers and lookaside buffer are those of the source |
| Arm926.NothingPending | src/iss/arch/arm/arm926ejs.cpp:283-287 | Before a fill no byte of the line is pending: the buffer was drained, or no address of the line is bufferable |
| Arm926.BelowIsFlat | src/iss/arch/arm/arm926ejs.cpp:299-308 | A missed address with nothing pending has its flat bytes on the bus |
| Arm926.MissedStep | src/iss/arch/arm/arm926ejs.cpp:425-462 | A write to a missed word keeps the invariant, whether its bytes stay pending or not |
| Arm926.OnlyLine | src/iss/arch/arm/mmu/cache.cpp:70-88 | The line a search finds is the only one of its address |
| Coherence.OneLine | src/iss/arch/arm/mmu/cache.cpp:70-88 | Under the invariant no physical address is in two valid lines |
| Coherence.CoveringLine | src/iss/arch/arm/mmu/cache.cpp:70-88 | A line that holds a physical address is the one a search for its virtual address would find |
| Coherence.CachedWord | src/iss/arch/arm/arm926ejs.cpp:258-264 | A word of a found line equals the flat memory at the translated address |
| Coherence.MissedWord | src/iss/arch/arm/arm926ejs.cpp:265-270 | If a search fails, no byte of the word is in any line of the cache, under any tag |
| Coherence.NeverBuffered | src/iss/arch/arm/arm926ejs.cpp:283-287 | No byte of a non-bufferable address is ever pending |
| Coherence.CleanStep | src/iss/arch/arm/mmu/cache.cpp:149-183 | Writing back the dirty halves makes memory agree with the whole line, and no older pending write overtakes it |
| Coherence.DropStep | src/iss/arch/arm/mmu/cache.cpp:210-221 | Dropping a clean line keeps the invariant |
| Coherence.InsertStep | src/iss/arch/arm/mmu/cache.cpp:134-146 | A line that agrees with memory may be added under a tag that its set does not hold |
| Coherence.AllocStep | src/iss/arch/arm/mmu/cache.cpp:109-147 | Evict and fill together keep the invariant, for any victim |
| Coherence.HitStep | src/iss/arch/arm/arm926ejs.cpp:419-423 | An update of a line changes the flat memory exactly there; all other lines stay in order |
| Coherence.MissStep | src/iss/arch/arm/arm926ejs.cpp:425-462 | A write below the cache changes the flat memory exactly there; no line covers it |
| Coherence.DrainStep | src/iss/arch/arm/mmu/wb.cpp:122-152 | Emptying the queue into memory keeps the invariant |
| Words.SelectLanes | src/iss/arch/arm/arm926ejs.cpp:315-328 | The result has the accessed lanes of the word, lowest first, and zeros above |
| Words.MergeIntoWord | src/iss/arch/arm/arm926ejs.cpp:478-491 | The accessed lanes come from the data, every other lane of the word is kept |
| Words.ExtractLanes | src/iss/arch/arm/arm926ejs.cpp:315-328 | The shift and mask of a read select exactly the accessed lanes |
| Words.MergeLanes | src/iss/arch/arm/arm926ejs.cpp:478-491 | The mask and shift of a write replace exactly the accessed lanes |
| Words.LittleEndian | src/iss/arch/arm/arm926ejs.cpp:301-313 | A word stored in memory has its lowest eight bits at its address, so that the byte at a modified address is the lane of that number |
| Words.SelectionLoads | src/iss/arch/arm/arm926ejs.cpp:315-328 | Lanes selected from a word that agrees with memory are a load from memory at the unaligned address |
| Cache.Cache.Search | src/iss/arch/arm/mmu/cache.cpp:70-88 | A way that is found is valid and holds the block; none is found only if the set of the address holds no line of it |
| Cache.AddressMasks | src/iss/arch/arm/mmu/mmu.h:80-88 | Set, line and word of an address are those of the masks of the source, for every number of sets that is a power of two |
| Cache.Cache.WriteBack | src/iss/arch/arm/mmu/cache.cpp:149-183 | Exactly the dirty halves of a valid line reach memory, at its physical address; the line comes out clean; an invalid line does nothing |
| Cache.Cache.WriteWords | src/iss/arch/arm/mmu/cache.cpp:177-180 | The copied words, and nothing else, appear in memory |
| Cache.Cache.Alloc | src/iss/arch/arm/mmu/cache.cpp:109-147 | The round-robin way of the set is replaced by a clean line that, in write-back mode, reads as memory does after the victim was written back |
| Cache.Cache.Refill | src/iss/arch/arm/mmu/cache.cpp:126-141 | The victim reaches memory before the new words are read from it |
| Cache.Cache.Update | src/iss/arch/arm/arm926ejs.cpp:466-499 | The line reads as before except in the addressed bytes, and every byte that changed is in a half marked dirty |
| Cache.UpdateLine | src/iss/arch/arm/arm926ejs.cpp:466-499 | The same of one line |
| Cache.UpdatedWord | src/iss/arch/arm/arm926ejs.cpp:466-499 | Replacing a merged word and marking its half is an update of exactly the accessed bytes |
| Cache.LoadedLine | src/iss/arch/arm/mmu/cache.cpp:135-140 | A line filled word by word reads, byte by byte, as memory |
| Cache.Cache.constructor | src/iss/arch/arm/mmu/cache.cpp:10-46 | A new cache holds no valid line |
| WriteBuffer.ApplyAppend | src/iss/arch/arm/mmu/wb.cpp:91-118 | An entry queued last is written last: what the queue amounts to is overwritten with it |
| WriteBuffer.ApplyElsewhere | src/iss/arch/arm/mmu/wb.cpp:122-152 | Draining changes no byte that no entry covers |
| WriteBuffer.ApplyPointwise | src/iss/arch/arm/mmu/wb.cpp:122-152 | A byte after draining depends on the memory before at that address alone, and not even there if it is pending |
| WriteBuffer.WriteBuffer.WriteBlock | src/iss/arch/arm/mmu/wb.cpp:72-77 | The bytes of an entry reach the bus, at its address |
| WriteBuffer.WriteBuffer.Retire | src/iss/arch/arm/mmu/wb.cpp:64-88 | The oldest entry leaves the ring and what the processor sees does not change |
| WriteBuffer.WriteBuffer.PutBlock | src/iss/arch/arm/mmu/wb.cpp:61-118 | A full ring retires its oldest entry first; the new block is seen at once, over all older ones |
| WriteBuffer.WriteBuffer.Push | src/iss/arch/arm/mmu/wb.cpp:91-118 | The entry is the newest of the ring, wrap-around included |
| WriteBuffer.WriteBuffer.WriteBytes | src/iss/arch/arm/mmu/wb.cpp:52-120 | Any number of bytes is seen at the address at once, however many entries were retired, and nothing else becomes pending |
| WriteBuffer.WriteBuffer.DrainAll | src/iss/arch/arm/mmu/wb.cpp:122-152 | The ring is empty and memory is what was seen before |
| Tlb.WalkUniform | src/iss/arch/arm/mmu/tlb.cpp:143-246 | Addresses of one kilobyte are translated by the same entry |
| Tlb.MegabyteDomain | src/iss/arch/arm/mmu/tlb.cpp:143-246 | Two mapped addresses of one megabyte have the same domain: that of the first-level descriptor |
| Tables.WalkEncoded | src/iss/arch/arm/mmu/tlb.cpp:143-246 | For all tables that hold a space of sections, coarse and fine tables with large, small and tiny pages: the walk finds exactly the mapped addresses, and its entry has the frame, flags, domain and permission bits of the quarter that the space gives them; a tiny page in a coarse table is unmapped |
| Tables.EncodeRoundTrip | src/iss/arch/arm/mmu/tlb.cpp:143-246 | Any such space can be written as tables in memory from which the walk reads it back |
| Tables.AccessEncoded | src/iss/arch/arm/mmu/tlb.cpp:29-132 | Walk and check together: the fault of an access is that of its domain (closed, checked, open) and of the rights that permission bits and the S and R bits give a privileged access |
| Tlb.WalkEntry | src/iss/arch/arm/mmu/tlb.cpp:143-246 | An entry that is walked matches its address, has one of 16 domains, an aligned page, and translates into the address space; Tables.WalkEncoded says which |
| Tlb.PageParts | src/iss/arch/arm/mmu/tlb.cpp:10-24 | The masks of the mappings leave the start of the page and the offset in it, by the size of the page |
| Tlb.EntryBlock | src/iss/arch/arm/mmu/mmu.h:69-71 | Within an aligned block of 4, 16 or 32 bytes an entry translates by adding the offset |
| Tlb.WalkerBlocks | src/iss/arch/arm/mmu/tlb.cpp:143-246 | So every word and every cache line is mapped, cached and buffered as one block, for all page tables |
| Tlb.Tlb.Search | src/iss/arch/arm/mmu/tlb.cpp:316-340 | The first matching entry, or none if none matches |
| Tlb.Tlb.Translate | src/iss/arch/arm/mmu/tlb.cpp:134-251 | A remembered entry if one matches, else a walk that is remembered round-robin; if tables repeat their descriptors over each page the result is always that of a walk, which Tables.WalkEncoded pins down |
| Tlb.Tlb.InvalidateAll | src/iss/arch/arm/mmu/tlb.cpp:290-300 | No entry is left |
| Tlb.Tlb.InvalidateEntry | src/iss/arch/arm/mmu/tlb.cpp:302-314 | The first match is gone, all other entries stay |
| Tlb.StaleTranslation | src/iss/arch/arm/mmu/tlb.cpp:137-141 | Why the condition on tables is needed: whenever the entry walked for one address also matches another that walks differently, a lookaside buffer that saw the first translates the second wrongly |
| Arm7tdmi.Run | src/iss/arch/arm/arm7tdmi.cpp:55-349 | Every run of reads and writes, faulting or not, answers as the bus alone would and keeps every valid line equal to the bus words at its translated address, unless it holds a write that may run ahead: one that is refused although its address may be read and cached, with bytes that differ |
| Arm7tdmi.Step | src/iss/arch/arm/arm7tdmi.cpp:55-349 | One access that may not run ahead, faulting or not, answers as the bus alone would |
| Arm7tdmi.EncodedAccess | src/iss/arch/arm/arm7tdmi.cpp:54-175 | From tables in memory to the access: fault and target as the pages, domains and permissions in the tables give them |
| Arm7tdmi.AheadOfBus | src/iss/arch/arm/arm7tdmi.cpp:284-327 | The condition is exact: from any state, every write that may run ahead does so after a read of its address; the bus keeps its bytes and the next load returns those of the refused store |
| Arm7tdmi.Arm7tdmi.MmuRead | src/iss/arch/arm/arm7tdmi.cpp:55-215 | Data and fault are those of translating and checking every access, although a hit does neither; the bus is unchanged; a readable cacheable address is cached afterwards; a hit returns what the lines hold, also after they fell out of step |
| Arm7tdmi.Arm7tdmi.MmuWrite | src/iss/arch/arm/arm7tdmi.cpp:235-349 | Without a fault exactly the addressed bus bytes change and every line stays in step; with one the bus is unchanged, and the lines stay in step exactly if the write did not hit a line in bytes that differ; otherwise they hold what the bus would hold had the write reached it |
| Arm7tdmi.Arm7tdmi.WriteAligned | src/iss/arch/arm/arm7tdmi.cpp:283-349 | The same for a write that passed the alignment check |
| Arm7tdmi.Arm7tdmi.WriteHit | src/iss/arch/arm/arm7tdmi.cpp:284-315 | The line that was found takes the accessed lanes and no other line changes, before any check |
| Arm7tdmi.Arm7tdmi.WriteTranslated | src/iss/arch/arm/arm7tdmi.cpp:316-349 | The bus takes the addressed bytes exactly if translation and permission allow |
| Arm7tdmi.Arm7tdmi.FillLine | src/iss/arch/arm/arm7tdmi.cpp:152-165 | The four words of the new line are those of the bus, and all lines stay in step |
| Arm7tdmi.WrittenThrough | src/iss/arch/arm/arm7tdmi.cpp:284-347 | A hit and its bus write together keep the line equal to the bus |
| Arm7tdmi.WrittenAhead | src/iss/arch/arm/arm7tdmi.cpp:284-327 | Without the bus write the line stays equal exactly if the bus already held the bytes |
| Arm7tdmi.AheadStep | src/iss/arch/arm/arm7tdmi.cpp:284-327 | So all lines stay in step after a faulting hit exactly in that case |
| Arm7tdmi.FaultStep | src/iss/arch/arm/arm7tdmi.cpp:284-327 | After a hit and a fault the lines mirror the memory of the write that was refused, and the bus exactly if it held those bytes |
| Arm7tdmi.HitStep | src/iss/arch/arm/arm7tdmi.cpp:284-347 | A write that hits keeps every line in step, the one it hits and all others |
| Arm7tdmi.MissStep | src/iss/arch/arm/arm7tdmi.cpp:328-347 | A write that misses touches no cached byte |
| Arm7tdmi.FillStep | src/iss/arch/arm/arm7tdmi.cpp:158-165 | A fill under a tag that missed keeps every line in step |
| Arm7tdmi.WalkerReadsAlike | src/iss/arch/arm/mmu/tlb.cpp:62-132 | Reads are permitted for a whole line or for none of it, which is why a hit needs no check |
| Arm7tdmi.AbortedStore | src/iss/arch/arm/arm7tdmi.cpp:284-327 | A run that shows it: a refused store of 1 to address 0, which the bus never sees and the next load returns |
| Arm7tdmi.IdentityTables | src/iss/arch/arm/mmu/tlb.cpp:143-246 | Tables that map each megabyte to itself meet everything both models ask of page tables |
| RegMap.CompileTiled | tools/reg_xls2h/reg_xls2h_xls.py:146-208 | After the columns from bit 31 down to any bit, finished and current fields tile the named columns seen so far, in order, each with the name, width and mask of its columns |
| RegMap.CompiledMasks | tools/reg_xls2h/reg_xls2h_xls.py:146-208 | An accepted row leaves no field open; each named bit is in the mask of exactly one field, of its own name, and each other bit in none |
| RegMap.CompiledRights | tools/reg_xls2h/reg_xls2h_xls.py:53-57 | Every compiled field has the name, the hardware and the software right and the highest index of its top column |
| RegMap.CompiledRows | tools/reg_xls2h/reg_xls2h_xls.py:146-208 | A row is accepted exactly if none of its columns is refused, and the error of any other row is that of its first refused column: a name that cannot be parsed, an index out of order where a field goes on, a used name where one begins after a gap |
| RegMap.CompiledMaskSum | tools/reg_xls2h/reg_xls2h_xls.py:228-231 | The sum stored as the register mask is the bitwise or of the field masks |
| RegMap.CompiledReset | tools/reg_xls2h/reg_xls2h_xls.py:241 | With resets of 0 and 1, the register reset equals the column resets exactly if the name of every column that resets to 1 goes on for as many columns to the right as its index says, so that its field comes down to index 0 |
| RegMap.ResetByFields | tools/reg_xls2h/reg_xls2h_xls.py:241 | The same over the compiled fields: exactly if each is clear or ends at index 0 |
| RegMap.CompileStopped | tools/reg_xls2h/reg_xls2h_xls.py:146-208 | A compiled field ends at index 0, at bit 0, or next to a column that does not carry its name |
| RegMap.ResetCanShift | tools/reg_xls2h/reg_xls2h_xls.py:241 | A row for which the register reset differs: the single column a[1] with reset 1 makes it 2 |
| RegMap.CompiledNames | tools/reg_xls2h/reg_xls2h_xls.py:168-195 | Field names are distinct exactly if no column whose left neighbour has another name and an index above 0, which is the change of field that skips the name check, takes a name that a column to its left has |
| RegMap.NamesDown | tools/reg_xls2h/reg_xls2h_xls.py:193-201 | So they are whenever every field, the last included, came down to index 0 |
| RegMap.NamesSeen | tools/reg_xls2h/reg_xls2h_xls.py:168-201 | At any column the names in use, finished or being entered, are those of the columns seen so far |
| RegMap.NamesCanRepeat | tools/reg_xls2h/reg_xls2h_xls.py:168-177 | A row that is accepted with two fields of one name: the name is not checked when it ends another field |
| RegMap.FieldMask | tools/reg_xls2h/reg_xls2h_xls.py:86 | The mask of a field has exactly the bits of its columns |
| RegMap.FieldReset | tools/reg_xls2h/reg_xls2h_xls.py:59-64 | The shifted reset of a field is the number of its column resets, times the weight of its lowest index |
| RegMap.FailureStays | tools/reg_xls2h/reg_xls2h_xls.py:146-208 | An exception at any column is the outcome of the row |
| RegMap.CompileRow | tools/reg_xls2h/reg_xls2h_xls.py:146-241 | Feeding a row bit by bit and ending the register gives the fields, mask and reset of the specification, or its error. RegMap.CompiledRows says which rows are accepted and which error the others get, RegMap.CompiledRights and RegMap.CompiledMasks what the fields are |
| RegMap.XlsRegister.AddBit | tools/reg_xls2h/reg_xls2h_xls.py:146-208 | One column advances the register as the specification does, or raises its error |
| RegMap.XlsRegister.EnterBit | tools/reg_xls2h/reg_xls2h_xls.py:148-195 | A named column opens, continues or switches the current field, or raises its error |
| RegMap.XlsRegister.FindName | tools/reg_xls2h/reg_xls2h_xls.py:194 | Is there a finished field of the name? |
| RegMap.XlsRegister.End | tools/reg_xls2h/reg_xls2h_xls.py:228-241 | Mask and reset are the sums over the fields |
| RegMap.XlsField.Add | tools/reg_xls2h/reg_xls2h_xls.py:59-64 | The reset and lowest index of the field with one more bit; the rest stays |
| RegMap.XlsField.End | tools/reg_xls2h/reg_xls2h_xls.py:72-86 | Position, width and mask of the finished field; the rest stays |
| Accessors.CompiledSetF | tools/reg_xls2h/reg_xls2h_h.py:467-489 | For every accepted row: a field replaced is read back exactly if the value fits it, no other field and no bit outside it changes, and replacements of different fields commute |
| Accessors.CompiledLayout | tools/reg_xls2h/reg_xls2h_xls.py:146-241 | Compiled fields are disjoint intervals of the word with their masks |
| Accessors.CompiledWritable | tools/reg_xls2h/reg_xls2h_xls.py:251-268 | The writable fields of a compiled register are exactly those whose top column has a right other than reading, in a register that has one itself |
| Accessors.SetFKeepsOthers | tools/reg_xls2h/reg_xls2h_h.py:484-488 | setf keeps another field, whatever the register holds, exactly if the register is no set or clear register and the field is not its only writable one |
| Accessors.TypeHolds | tools/reg_xls2h/reg_xls2h_xls.py:78-83 | The C type of a field is the narrowest of 8, 16 and 32 bits that holds it |
| Accessors.SetThenGetAll | tools/reg_xls2h/reg_xls2h_h.py:454-489 | For every accepted row, written by read-modify-write: after any sequence of setf calls every getf returns what the last call for its field left, and no blank bit has changed |
| Accessors.LeftLast | tools/reg_xls2h/reg_xls2h_h.py:454-489 | What is left of the last value set to a field is that value, exactly if it fits |
| Accessors.PackThenUnpackAll | tools/reg_xls2h/reg_xls2h_h.py:387-441 | For every accepted row: unpack after pack gives each argument, as far as it fits, to its field, and 0 for fields that are not writable |
| Accessors.SetThenGet | tools/reg_xls2h/reg_xls2h_h.py:463-488 | getf after setf returns the part of the value that fits the field, so the value exactly if it fits |
| Accessors.SetKeeps | tools/reg_xls2h/reg_xls2h_h.py:487-488 | setf changes no other field and no unassigned bit |
| Accessors.SetsCommute | tools/reg_xls2h/reg_xls2h_h.py:487-488 | setf calls on different fields commute |
| Accessors.DirectWriteClears | tools/reg_xls2h/reg_xls2h_h.py:484-485 | The direct write of a set/clear register or single writable field keeps another field exactly if that field was 0 |
| Accessors.PackThenUnpack | tools/reg_xls2h/reg_xls2h_h.py:387-441 | unpack after pack returns the part of an argument that fits its field, so the argument exactly if it fits |
| Accessors.PackClearsOthers | tools/reg_xls2h/reg_xls2h_h.py:399-409 | and 0 for every field that is not writable |
| Accessors.GuardMeans | tools/reg_xls2h/reg_xls2h_h.py:481 | The emitted assertion holds exactly if no bit between field width and the end of the shifted word is set, which is fitting the field except for the bits the shift drops |
| Accessors.GuardSuffices | tools/reg_xls2h/reg_xls2h_h.py:481 | The emitted assertion ensures the read-back of every value of the C type exactly if the C type, shifted to the field, stays within the word |
| Accessors.GuardLetsThrough | tools/reg_xls2h/reg_xls2h_h.py:481 | A compiled row and a value for which it does not: a one-bit field at bit 31, and 2 |
| Accessors.Device.SetF | tools/reg_xls2h/reg_xls2h_h.py:477-489 | The register after setf of a value that passes the emitted assertion (Narrow, which GuardMeans equates with it): the field replaced, the rest kept, or cleared for a direct write |
| Accessors.Device.GetF | tools/reg_xls2h/reg_xls2h_h.py:454-464 | The content of the field, with the mask or, in a register of one field, without it |
| Accessors.Device.Pack | tools/reg_xls2h/reg_xls2h_h.py:387-409 | The register holds the arguments in their fields and nothing else |
| Accessors.Device.Unpack | tools/reg_xls2h/reg_xls2h_h.py:424-441 | Each variable gets the content of its field |
| AddrDec.Run | src/tlm_blocks/Generic/AddrDec/AddrDec.h:47-363 | After any sequence of bindings and lookups the chain is acyclic and holds each accepted range once, ranges are disjoint, a range is refused exactly if it meets one accepted before, and every lookup is decided by the set of accepted ranges |
| AddrDec.LookupDeterminate | src/tlm_blocks/Generic/AddrDec/AddrDec.h:335-363 | Two decoders with the same ranges, whatever their histories, decode every address to the same range or both to none |
| AddrDec.AddrDec.DebugTransport | src/tlm_blocks/Generic/AddrDec/AddrDec.h:187-245 | Terminates and, across any number of adjacent ranges up to the first unmapped address, reads the slaves' bytes, or writes them and nothing else of the map; from there on the buffer gets 0xFF, in a write too; with a seeded closest-range search only for unmapped addresses; the rest of the buffer stays, and address, length and pointer are restored |
| AddrDec.SeedingMatters | src/tlm_blocks/Generic/AddrDec/AddrDec.h:380-381 | Both searches deliver the same bytes exactly if every mapped byte of the transfer behind a hole is 0xFF |
| AddrDec.SeedingMattersInWrites | src/tlm_blocks/Generic/AddrDec/AddrDec.h:215-232 | Two writes, one with each search, leave the same map exactly if every mapped byte behind a hole held the byte to be written, and the same buffer exactly if those bytes to be written were 0xFF |
| AddrDec.LostBytes | src/tlm_blocks/Generic/AddrDec/AddrDec.h:380-381 | A read that shows it: two slaves with a hole between them, of which the second is read as 0xFF |
| AddrDec.AddrDec.Round | src/tlm_blocks/Generic/AddrDec/AddrDec.h:197-237 | One round makes progress and moves the right bytes of a non-empty stretch, in either direction |
| AddrDec.AddrDec.DeliverRange | src/tlm_blocks/Generic/AddrDec/AddrDec.h:205-214 | A stretch that begins in a range is mapped throughout and moved between the map and the buffer |
| AddrDec.AddrDec.ReadRange | src/tlm_blocks/Generic/AddrDec/AddrDec.h:205-214 | In a read the buffer takes the bytes of the map, which stays |
| AddrDec.AddrDec.WriteRange | src/tlm_blocks/Generic/AddrDec/AddrDec.h:205-214 | In a write the map takes the bytes of the buffer, which stays |
| AddrDec.AddrDec.DeliverHole | src/tlm_blocks/Generic/AddrDec/AddrDec.h:215-232 | A stretch that begins in a hole: the buffer gets 0xFF, to the end of the transfer unless the search is seeded, and no slave changes |
| AddrDec.AddrDec.FillHole | src/tlm_blocks/Generic/AddrDec/AddrDec.h:215-232 | The filled stretch is not empty and, with a seeded search, reaches no mapped address |
| AddrDec.AddrDec.Forward | src/tlm_blocks/Generic/AddrDec/AddrDec.h:207-213 | The slave serves what is left of its range, with the address made relative, and is changed only by a write |
| AddrDec.Slave.TransportDbg | src/utils/utils.h:256-275 | At most the rest of the container is copied, in the direction of the command |
| AddrDec.AddrDec.CheckRange | src/tlm_blocks/Generic/AddrDec/AddrDec.h:290-329 | An error exactly if the interval meets an existing range |
| AddrDec.OverlapMeans | src/tlm_blocks/Generic/AddrDec/AddrDec.h:290-329 | Two intervals meet exactly if they have an address in common |
| AddrDec.AddrDec.Bind | src/tlm_blocks/Generic/AddrDec/AddrDec.h:47-78 | Refused exactly on overlap; otherwise one new range in front of the unchanged chain |
| AddrDec.AddrDec.BindWhole | src/tlm_blocks/Generic/AddrDec/AddrDec.h:85-89 | The same with the slave's size, so each range is as long as its slave |
| AddrDec.AddrDec.FindRange | src/tlm_blocks/Generic/AddrDec/AddrDec.h:335-363 | The only range that contains the address moves to the front of the chain, the others keep their order; nothing changes if there is none |
| AddrDec.AddrDec.Promote | src/tlm_blocks/Generic/AddrDec/AddrDec.h:348-353 | Relinking two nodes and the head moves one node to the front and loses none |
| AddrDec.AddrDec.FindNextClosest | src/tlm_blocks/Generic/AddrDec/AddrDec.h:370-395 | As written it never finds a range; seeded, it finds the lowest range above the address, or none if there is none |
| AddrDec.ImageAt | src/tlm_blocks/Generic/AddrDec/AddrDec.h:343-346 | The byte at a mapped address does not depend on which range is looked at first |
| AddrDec.ImageWritten | src/utils/utils.h:256-275 | Bytes written to the slave of one range are written to the map, and no other byte of it changes |
| AddrDec.MovedOn | src/tlm_blocks/Generic/AddrDec/AddrDec.h:233-237 | Two adjacent stretches moved one after the other are one, in either direction |
| Config.RoundTrip | src/main/sc_main.cpp:126-247 | Printing any tree of legal lower-case names and values with four spaces per level and running the loop over the lines rebuilds the tree |
| Config.RoundTripAnyCase | src/main/sc_main.cpp:126-247 | The same for names written in any mixture of cases: the tree that is read has the names in lower case |
| Config.NamesLower | src/main/sc_main.cpp:219-226 | In every accepted file no name at any level of the tree has a capital letter |
| Config.Complains | src/main/sc_main.cpp:127-247 | A line is accepted exactly if it is short enough, has no tab, and is skipped or has a value and an indentation of four times a level at most one below the last parameter; each other line gets the stated error |
| Config.LineEnds | src/main/sc_main.cpp:153-160 | The three conventions for the end of a line make no difference |
| Config.InsertAt | src/main/sc_main.cpp:242-246 | A parameter defined again begins with its new value and without the descendants of the old one |
| Config.InsertElsewhere | src/main/sc_main.cpp:242-246 | Defining a parameter keeps every other one that is not below it, and adds no other |
| Config.EveryTree | src/main/sc_main.cpp:126-247 | Every tree with legal names, values and line lengths has a printed form that the loop reads back |
| Config.Listing | src/main/sc_main.cpp:126-247 | Any part of such a tree can be written as a legal list of items |
| Config.ReadPrinted | src/main/sc_main.cpp:126-247 | The same anywhere in a file: the printed items are added to the scope they were printed for and the scope stays open |
| Config.SkippedLine | src/main/sc_main.cpp:162-163 | Inserting a blank or comment line anywhere changes nothing |
| Config.SkipMeans | src/main/sc_main.cpp:134-163 | A line is skipped exactly if it is short enough, has no tab, and begins, after spaces, with its end or a # |
| Config.TrailNearest | src/main/sc_main.cpp:165-217 | In every accepted file, each level of the scope of the last parameter is the nearest earlier line of that level |
| Config.TrailStep | src/main/sc_main.cpp:165-217 | A line keeps the scopes above its level and ends the path with its own name |
| Config.RunConcat | src/main/sc_main.cpp:126-247 | Reading a file is reading its first lines and then the rest |
| Config.ListedItems | src/main/sc_main.cpp:242-246 | Adding the parameters of a scope in any order gives the scope |
| Config.ParseLines | src/main/sc_main.cpp:116-247 | The loop gives the tree, or the first error, of the specification; without an error no name in the tree has a capital letter |
| Config.Parser.ProcessLine | src/main/sc_main.cpp:127-247 | One line advances the parser as the specification does; afterwards the indentation is four times the depth of the stack |
| Config.Parser.Indent | src/main/sc_main.cpp:165-217 | The pop loop ends without popping an empty stack; stack and scope are those of the new level, or the error is the specified one |
| Config.Parser.CutLine | src/main/sc_main.cpp:153-160 | The text up to the first line break, and the number of its leading spaces |
| Config.Parser.SplitName | src/main/sc_main.cpp:219-226 | The first word in lower case, in which Config.NamesLower finds no capital and Config.RoundTripAnyCase each letter |
| Config.Parser.DefineParameter | src/main/sc_main.cpp:228-246 | The parameter is entered in the current scope and nothing else of the tree changes |
| CallGraph.Row.Reachable | tools/RunSnakeRun/runsnakerun/pstatsloader.py:89-97 | For every finite graph, cycles included: terminates and lists each row reached in one or more steps exactly once |
| CallGraph.Row.RecursiveDistinct | tools/RunSnakeRun/runsnakerun/pstatsloader.py:89-97 | With a shared table of rows already done: the new rows, each once, all reachable, and the table is closed under links afterwards |
| CallGraph.Row.Descendants | tools/RunSnakeRun/runsnakerun/pstatsloader.py:99-100 | Exactly the rows reached over children |
| CallGraph.Row.Ancestors | tools/RunSnakeRun/runsnakerun/pstatsloader.py:101-102 | Exactly the rows reached over parents |
| CallGraph.ClosedSetCatches | tools/RunSnakeRun/runsnakerun/pstatsloader.py:89-97 | A set closed under links that holds the direct links of a row holds everything the row reaches |
| CallGraph.Row.Weave | tools/RunSnakeRun/runsnakerun/pstatsloader.py:140-146 | The callers that the loader kept become the parents, in their order; the row becomes the last child of each of them, once, and of no other row |
| CallGraph.KeptRows | tools/RunSnakeRun/runsnakerun/pstatsloader.py:143-144 | The kept callers are exactly the rows with the keys of the dictionary, each once |
| CallGraph.KeptConcat | tools/RunSnakeRun/runsnakerun/pstatsloader.py:143-144 | in the order of those keys |
| CallGraph.WeaveAll | tools/RunSnakeRun/runsnakerun/pstatsloader.py:24-25 | After weaving in any order, every link is present in both directions, once, and no other |
| CallGraph.WovenInverse | tools/RunSnakeRun/runsnakerun/pstatsloader.py:140-146 | Children and parents are inverse relations |
| CallGraph.ReachesBack | tools/RunSnakeRun/runsnakerun/pstatsloader.py:88-102 | A chain of k steps over one relation is a chain of k steps back over its inverse |
| CallGraph.Duality | tools/RunSnakeRun/runsnakerun/pstatsloader.py:99-102 | b is below a exactly if a is above b |
| CallGraph.BelowAndAbove | tools/RunSnakeRun/runsnakerun/pstatsloader.py:99-146 | b is in descendants(a) exactly if a is in ancestors(b), for any two rows of a woven graph |
| Gdb.ReadsScan | src/utils/GdbServerNone/GdbServerTcp.h:488-545 | For every input stream, replies sent and packets handled are those of the frames in it, found by an independent scan: one reply per frame whose second digit arrives, a packet exactly if the digits match, nothing for over-long or cut-off frames |
| Gdb.FrameRoundTrip | src/utils/GdbServerNone/GdbServerTcp.h:488-604 | A payload of at most 4095 bytes without # or NUL, framed and fed to the receiver, gives one +, is handed over unchanged, and leaves the receiver idle |
| Gdb.MemoryRoundTrip | src/utils/GdbServerNone/GdbServerTcp.h:219-604 | Up to 2047 bytes of any values survive memtohex, framing, receiving and hextomem |
| Gdb.HexRoundTrip | src/utils/GdbServerNone/GdbServerTcp.h:189-247 | hextomem undoes memtohex for all bytes, and the digits need no escape |
| Gdb.Numerals | src/utils/GdbServerNone/GdbServerTcp.h:189-212 | The sixteen digits that are sent and the six more that are understood have their values, and every other byte counts as 0 |
| Gdb.HexAt | src/utils/GdbServerNone/GdbServerTcp.h:219-231 | The high digit of a byte is sent first |
| Gdb.MemAt | src/utils/GdbServerNone/GdbServerTcp.h:238-247 | and read first |
| Gdb.KnownFrame | src/utils/GdbServerNone/GdbServerTcp.h:487-604 | The answer OK is sent as $OK#9a, which the receiver answers with +, and $OK#a9 with - |
| Gdb.ReadFrame | src/utils/GdbServerNone/GdbServerTcp.h:488-545 | Any complete frame is answered once, by + and handling exactly if its two digits, as fromhex reads them, equal the sum modulo 256 |
| Gdb.ReadOverlong | src/utils/GdbServerNone/GdbServerTcp.h:507-510 | A packet longer than the buffer leaves no reply and no packet, and the receiver idle |
| Gdb.SignFree | src/utils/GdbServerNone/GdbServerTcp.h:524-529 | The checksum does not depend on whether char is signed |
| Gdb.GdbServerTcp.Receive | src/utils/GdbServerNone/GdbServerTcp.h:487-545 | Each byte advances the receiver as the specification does; the index never leaves the buffer |
| Gdb.GdbServerTcp.ReceiveAll | src/utils/GdbServerNone/GdbServerTcp.h:639-642 | The loop over a chunk answers the frames in it |
| Gdb.GdbServerTcp.Verify | src/utils/GdbServerNone/GdbServerTcp.h:520-541 | + and the packet, or - alone, by the comparison of the sums |
| Gdb.GdbServerTcp.HandlePacket | src/utils/GdbServerNone/GdbServerTcp.h:372-375 | The line is taken as a C string, up to its first NUL |
| Gdb.GdbServerTcp.PutPacket | src/utils/GdbServerNone/GdbServerTcp.h:572-604 | The same frame is sent again until a + or an error, once more than the bytes that were ignored, and the outcome tells which |
| Gdb.GdbServerTcp.Format | src/utils/GdbServerNone/GdbServerTcp.h:581-594 | The bytes sent are the frame of the C string |
| Gdb.WriteHex | src/utils/GdbServerNone/GdbServerTcp.h:219-231 | The digits of every byte, high first, and a NUL |
| Gdb.ReadHex | src/utils/GdbServerNone/GdbServerTcp.h:238-247 | Every byte from its two digits |
| Saturate.Arm32.SaturatingInsn | src/tlm_blocks/Cpu/Arm/Arm32.h:1200-1244 | The destination gets the architecture's result, clamped at each stage, exactly if the operand is not a doubled 0x40000000; Q is set exactly when a stage clamps, for that operand exactly when the sum or difference with the least number does not fit; Q is never cleared and no other register changes |
| Saturate.Arm32.Double | src/tlm_blocks/Cpu/Arm/Arm32.h:1206-1224 | Doubling clamps to 32 bits and sets Q exactly when it does, except that 0x40000000 becomes the least number without Q |
| Saturate.Arm32.Combine | src/tlm_blocks/Cpu/Arm/Arm32.h:1225-1242 | Sum or difference clamped to 32 bits, with Q set exactly when it clamps |
| Saturate.CombineWraps | src/tlm_blocks/Cpu/Arm/Arm32.h:1227-1240 | The sign tests find exactly the overflows, and the bound is on the side of the first operand |
| Saturate.Operations | src/tlm_blocks/Cpu/Arm/Arm32.h:1200-1244 | The four encodings are QADD, QSUB, QDADD and QDSUB, with the result and the flag of each |
| Saturate.Nearest | src/tlm_blocks/Cpu/Arm/Arm32.h:1200-1244 | Clamping gives the nearest number that fits |
| Saturate.StrictComparison | src/tlm_blocks/Cpu/Arm/Arm32.h:1210 | The operand the strict comparison lets through, with its wrong result |
| Cpsr.WrittenWord | src/tlm_blocks/Cpu/Arm/Arm32.h:517-564 | Reading the register after set_cpsr gives the masked update of what was read before, for every mask that takes each group of flags whole |
| Cpsr.GroupWritten | src/tlm_blocks/Cpu/Arm/Arm32.h:531-564 | Every group of flags alone is moved as the masked update moves it |
| Cpsr.IrregularMask | src/tlm_blocks/Cpu/Arm/Arm32.h:531-564 | For every other mask that leaves the mode alone, there is a value for which it does not |
| Cpsr.WrittenValid | src/tlm_blocks/Cpu/Arm/Arm32.h:531-564 | Every write keeps each field within its bits and the raw word clear of bits that have a field |
| Cpsr.UserMask | src/tlm_blocks/Cpu/Arm/Arm32.h:483-511 | In user mode the mask is that of NZCV and Q with byte 3, and of GE with byte 2 on version 6, whatever else is asked |
| Cpsr.MaskBytes | src/tlm_blocks/Cpu/Arm/Arm32.h:483-511 | In every other mode, byte by byte: reserved bits never, E and GE on version 6, the if-then bits with the extension, and the execution state in a saved register only |
| Cpsr.FlagBits | src/tlm_blocks/Cpu/Arm/Arm32.h:516-525 | N, Z, C and V are bits 31 to 28 of the register |
| Cpsr.StateBits | src/tlm_blocks/Cpu/Arm/Arm32.h:516-525 | Q, T, GE and the mode are bits 27, 5, 19 to 16 and 4 to 0 |
| Cpsr.IfThenBits | src/tlm_blocks/Cpu/Arm/Arm32.h:516-525 | The if-then state is in bits 26 and 25 and bits 15 to 10 |
| Cpsr.Psr.SetCpsr | src/tlm_blocks/Cpu/Arm/Arm32.h:531-564 | The fields after a write; a masked update of the register under a regular mask |
| Cpsr.Psr.UserMsr | src/tlm_blocks/Cpu/Arm/Arm32.h:582-594 | In user mode MSR is exactly a masked update of the application bits; mode, state and control bits stay; the saved register is refused and unchanged |
| DecodeCache.Cpu.ThreadProcess | src/tlm_blocks/Cpu/CpuBase.h:168-226 | For any number of rounds, exceptions and debugger: every round executes the handler of its fetched word and keeps the cache faithful exactly if nothing moves the pc, between fetch and lookup, to a word that decodes differently; then the states are those of a loop that decodes every time, for any decode of the fetched word |
| DecodeCache.RightRun | src/tlm_blocks/Cpu/CpuBase.h:179-225 | The same equivalence for every run and every faithful cache to begin with |
| DecodeCache.LookUpFaithful | src/tlm_blocks/Cpu/CpuBase.h:202-219 | A lookup gives the right handler and keeps the cache faithful exactly if the word at the looked-up address decodes like the fetched one |
| DecodeCache.RightStep | src/tlm_blocks/Cpu/CpuBase.h:179-225 | One round is right exactly if it is not disturbed, and is then one of the machine without a cache |
| DecodeCache.Poisoned | src/tlm_blocks/Cpu/CpuBase.h:202-219 | A run in which one move of the pc makes a later, undisturbed round execute the wrong instruction |
| DecodeCache.Cpu.Step | src/tlm_blocks/Cpu/CpuBase.h:179-225 | What a round does for any debugger and exception, also where the cache goes wrong: an exception replaces the instruction, a refusal of the debugger skips it, and otherwise the handler under the pc that the debugger leaves is executed, decoded from the fetched word if there was none |
| DecodeCache.Straddle | src/tlm_blocks/Cpu/CpuBase.h:250 | The two halves combined are the upper half of the lower word and the lower half of the upper |
| DecodeCache.ReadUnaligned | src/tlm_blocks/Cpu/CpuBase.h:232-259 | A word at any even address is the four bytes there |
| Aic.Run | src/tlm_blocks/At91sam9261/Aic/Aic.cpp:32-164 | After any sequence of register writes and source changes: FIQ is high exactly when ipr & imr & (ffsr | 1) is not 0, IRQ exactly when ipr & imr & ~ffsr & ~1 is not 0, ISR and the vectors name the lowest sources, and the three registers are those the sequence leaves. Source by source the lines, the status and the vectors follow from the operations alone: a line is high exactly if a source that was raised or written and not released since is enabled and forced or not, and the vector is the value last written to that of the lowest such source |
| Aic.Step | src/tlm_blocks/At91sam9261/Aic/Aic.cpp:32-164 | One operation re-establishes that, and stores a plain write as Aic.Aic.RegWr says |
| Aic.OneLine | src/tlm_blocks/At91sam9261/Aic/Aic.cpp:83-129 | Each pending and enabled source drives exactly one of the lines |
| Aic.MasksFound | src/tlm_blocks/At91sam9261/Aic/Aic.cpp:83-129 | A mask is not 0 exactly if its search finds a source |
| Aic.FiqBits | src/tlm_blocks/At91sam9261/Aic/Aic.cpp:87 | The bits of the FIQ mask are the sources that drive FIQ |
| Aic.IrqBits | src/tlm_blocks/At91sam9261/Aic/Aic.cpp:114 | The bits of the IRQ mask are the sources that drive IRQ |
| Aic.Aic.CheckInt | src/tlm_blocks/At91sam9261/Aic/Aic.cpp:71-140 | Lines, ISR and vectors are those of the sources, from any state; the sources stay |
| Aic.Aic.RaiseFiq | src/tlm_blocks/At91sam9261/Aic/Aic.cpp:83-98 | The search records the lowest FIQ source, or nothing |
| Aic.Aic.RaiseIrq | src/tlm_blocks/At91sam9261/Aic/Aic.cpp:110-129 | The search records the lowest IRQ source, in ISR only if there is no FIQ |
| Aic.Aic.RegWr | src/tlm_blocks/At91sam9261/Aic/Aic.cpp:32-69 | Set and clear registers act on the masks, masks are read-only, any other register but the four results holds the value written afterwards with every other one as before, and the lines follow |
| Aic.WrittenSources | src/tlm_blocks/At91sam9261/Aic/Aic.cpp:41-65 | Source by source: enabling and forcing add, disabling and releasing take away, and a write of IPR sets the pending sources |
| Aic.HistoryBits | src/tlm_blocks/At91sam9261/Aic/Aic.cpp:32-164 | After any operations, pending, enabled and forced are for each source what its own raises, releases and set and clear bits leave |
| Aic.VectorsLast | src/tlm_blocks/At91sam9261/Aic/Aic.cpp:63 | A vector holds the value last written to it, whatever else was done |
| Aic.PendedSources | src/tlm_blocks/At91sam9261/Aic/Aic.cpp:142-164 | A source's line decides whether it is pending, and no other source changes |
| Aic.Aic.InterruptSet | src/tlm_blocks/At91sam9261/Aic/Aic.cpp:142-152 | The source is pending and the lines follow |
| Aic.Aic.InterruptClr | src/tlm_blocks/At91sam9261/Aic/Aic.cpp:154-164 | The source is not pending and the lines follow |

## Left out

- Runs.Run: leaves out the cache operations that act on the instruction cache (OPC_2, CRm of 0,7; 0,5; 1,5; 2,5), because a data write that hits the instruction cache marks its line dirty and a write-back of that line is no data-side operation; instruction fetches are left out too.
- Runs.Run: does not tie the page tables to the bus memory a run may write, and keeps the control registers fixed, so table updates and enabling or disabling the cache during a run are not modelled.
- Arm926.Arm926.MmuRead: says nothing of misaligned accesses while both the data cache and the alignment check are off, whose outcome the bus decides; bits above the width of a byte or halfword read from the bus are taken to be 0.
- Arm926.Arm926.TlbOps: does not model the lockdown TLB, which the source never searches on the data side, nor the register that remembers the last domain.
- Cache.Cache.Search: lines are sequence values inside one field, not objects, so a pointer to a line that outlives its eviction is not modelled.
- Arm7tdmi.Run: excludes the writes that may run ahead of the bus; what they do is stated by Arm7tdmi.Arm7tdmi.MmuWrite and Arm7tdmi.AheadOfBus. Misaligned accesses with the MMU or the alignment check off, which the bus decides, are left out.
- AddrDec.AddrDec.DebugTransport: blocking transport, direct memory pointers and ranges shorter or longer than their slave are left out, and so are writes through a slave that is bound to two ranges, which its socket does not allow.
- Config.Parser.ProcessLine: (and Config.ParseLines) scopes are paths from the root instead of pointers; a line must have a line break unless it is rejected for its length or a tab, because the source searches for one without a limit; redefining a parameter drops the subtree of the old one from the tree, which the source leaks.
- CallGraph: choice of the root, location tree, totals and groups of the loader.
- RegMap.XlsRegister.AddBit: names and indices arrive parsed from the cell, so the regular expressions that reject a cell are not modelled; a reset that is no number arrives as 0, as in the source.
- RegMap: add_field, xls_block, translation of names, generated documentation text, and registers placed in a register file.
- Accessors.Device.SetF: values are those of the C parameter type, and the emitted assertion is taken as what the caller owes.
- Gdb.GdbServerTcp.HandlePacket: the commands and the packets they send in reply are left out, so replies here are the acknowledgements only.
- Gdb.GdbServerTcp.PutPacket: the connection is the sequence of bytes it delivers; sockets, signals and partial sends are left out; requests longer than the buffers of the server are excluded by length.
- Cpsr.Psr.SetCpsr: writes that set mode bits go on to switch_mode, which is not part of this model; neither are the other instructions, Thumb, exceptions and multiplications.
- DecodeCache.Cpu.ThreadProcess: code does not change; self-modifying code, for which the cache is never flushed, is left out, and so are cycle counts.
- Aic.Run: the vectors read by software and the end-of-interrupt protocol are plain registers here as in the source.
- The ARM920T, the ARM7100 and the stand-alone GDB server, which repeat the modelled code; SystemC plumbing, timed threads, platform wiring, plain register peripherals, the profile viewer's user interface and third-party headers.
