/** The data side of the ARM926 model (arm926ejs.cpp): a write-back cache over a write buffer over the
    bus, seen by the processor as one flat memory. */
module Arm926 {
  import opened Arithmetic
  import opened Words
  import opened Tlb
  import opened Bus
  import opened WriteBuffer
  import opened Cache
  import opened Coherence
  import opened Wrappers

  class Arm926 {
    /** Page tables, access control, process identifier and control bits, which stay fixed. */
    const tr: Translation
    ghost const am: AddressMap
    const ac: AccessControl
    const fcse: nat
    const alignCheck: bool
    const dcacheEnabled: bool
    const wbEnabled: bool
    const bus: Bus
    const wb: WriteBuffer
    const tlb: Tlb
    const icache: Cache
    const dcache: Cache
    /** The memory the processor sees. */
    ghost var flat: Memory

    /** The page tables give each page its descriptor in every slot and no physical address twice. */
    ghost predicate Configured() {
      && Replicated(tr) && MapOf(am, tr) && Injective(am) && BlocksMapped(am, 4) && BlocksMapped(am, LINE)
      && (forall va: nat | tr(va).Some? :: tr(va).value.domain < |ac.domains|)
      && fcse % 0x200_0000 == 0 && fcse < SIZE
    }

    ghost predicate Wired() {
      && wb.bus == bus && dcache.bus == bus && dcache != icache
      && dcache.width == LINE && dcache.ways == 4 && dcache.mode.WriteBackMode? && icache.width == LINE
    }

    /** The invariant: cache, write buffer and bus memory make up the flat memory. */
    ghost predicate Consistent()
      requires wb.Valid()
      reads this, bus, wb, wb.entries, wb.bus, dcache
    {
      && Coherent(am, dcache.lines, wb.Queue(), wb.View(), flat)
      && (!wbEnabled ==> wb.Queue() == [])
      && (!dcacheEnabled ==> wb.Queue() == [] && forall a: nat :: !Covered(dcache.lines, a))
    }

    ghost predicate Valid()
      reads this, bus, wb, wb.entries, wb.bus, tlb, tlb.entries, icache, dcache
    {
      && Configured() && Wired()
      && wb.Valid() && tlb.Valid(tr) && icache.Valid() && dcache.Valid()
      && Consistent()
    }

    constructor (pt: PageTables, ac: AccessControl, fcse: nat, alignCheck: bool, dcacheEnabled: bool, wbEnabled: bool, bus: Bus)
      requires Replicated(Walker(pt)) && Injective(MapOfTables(pt)) && |ac.domains| == 16
      requires fcse % 0x200_0000 == 0 && fcse < SIZE
      ensures Valid() && flat == bus.mem
      ensures this.bus == bus && tr == Walker(pt) && am == MapOfTables(pt) && this.ac == ac && this.fcse == fcse
      ensures this.alignCheck == alignCheck && this.dcacheEnabled == dcacheEnabled && this.wbEnabled == wbEnabled
      ensures |dcache.lines| == 32 && |icache.lines| == 64 && tlb.entries.Length == 64 && wb.entries.Length == 8 == wb.nb
      ensures fresh({wb, wb.entries, tlb, tlb.entries, icache, dcache})
    {
      tr, am, this.ac, this.fcse := Walker(pt), MapOfTables(pt), ac, fcse;
      this.alignCheck, this.dcacheEnabled, this.wbEnabled := alignCheck, dcacheEnabled, wbEnabled;
      this.bus := bus;
      tlb := new Tlb(64);
      icache := new Cache(32, 4, 64, WriteBackMode, bus);
      dcache := new Cache(32, 4, 32, WriteBackMode, bus);
      wb := new WriteBuffer(8, 8, bus);
      flat := bus.mem;
      new;
      TablesMap(pt);
      WalkerBlocks(pt, 4);
      WalkerBlocks(pt, LINE);
      forall va: nat | Walk(pt, va).Some? ensures Walk(pt, va).value.domain < 16 { WalkEntry(pt, va); }
      EmptyCoherent(am, dcache.lines, bus.mem);
    }

    /** mmu_va_to_mva: the process identifier relocates the lowest 32 megabytes. */
    function Mva(va: nat): nat {
      if va >= 0x200_0000 then va else va + fcse
    }

    lemma MvaFits(va: nat)
      requires Configured() && va < SIZE
      ensures Mva(va) < SIZE
    {
      assert fcse == 0x200_0000 * (fcse / 0x200_0000);
    }

    lemma Parts()
      requires Valid()
      ensures Configured() && Wired() && wb.Valid() && dcache.Valid() && icache.Valid() && tlb.Valid(tr)
      ensures |dcache.lines| > 0 && |icache.lines| > 0 && wb.last < wb.entries.Length && wb.used <= wb.entries.Length
      ensures Coherent(am, dcache.lines, wb.Queue(), wb.View(), flat)
    {
      hide Configured, Wired, Coherent, Shaped, AllFit, Tlb.Valid, Covered;
    }

    lemma ConfiguredNow()
      requires Valid()
      ensures Configured() && Wired()
    {
      hide Configured, Wired, Consistent;
    }

    lemma DomainsChecked(va: nat)
      requires Configured()
      ensures Replicated(tr) && (tr(va).Some? ==> tr(va).value.domain < |ac.domains|)
    {
      hide Replicated;
    }

    lemma MappingAt(va: nat)
      requires Configured()
      ensures MapsAs(am, tr, va) && BlocksMapped(am, 4) && BlocksMapped(am, LINE) && Injective(am)
    {
      hide MapsAs, BlocksMapped, Injective;
    }

    /** The fault an access meets, if any. */
    ghost function Outcome(va: nat, width: Width, read: bool): Fault
      requires Configured()
    {
      var mva := Mva(va);
      if alignCheck && !Aligned(mva, width) then AlignmentFault
      else if !dcacheEnabled then NoFault
      else
        var word := AlignDown(mva, 4);
        if tr(word).None? then PageTranslationFault else CheckAccess(ac, word, tr(word).value, read)
    }

    /** The physical address an access that meets no fault acts on. */
    ghost function Target(va: nat, width: Width): nat {
      if !dcacheEnabled then Mva(va) else am.pa(AlignDown(Mva(va), 4)) + FirstLane(va, width)
    }

    /** mmu_wb_drain_all, and what it leaves. */
    method Drain()
      requires Valid()
      modifies wb, wb.bus
      ensures Valid() && wb.Queue() == []
    {
      DrainStep(am, dcache.lines, wb.Queue(), wb.View(), flat);
      wb.DrainAll();
    }

    /** mmu_cache_write_back of one line. */
    method CleanLine(s: nat, w: nat)
      requires Valid() && Indexes(dcache.lines, s, w)
      modifies dcache`lines, wb.bus
      ensures Valid() && Indexes(dcache.lines, s, w) && dcache.lines == Replace(old(dcache.lines), s, w, dcache.lines[s][w])
      ensures dcache.lines[s][w].valid ==> !dcache.lines[s][w].firstDirty && !dcache.lines[s][w].lastDirty
    {
      hide Coherent, Injective, BlocksMapped, AllFit, WriteBuffer.Queue;
      ghost var l := dcache.lines[s][w];
      ReplaceSelf(dcache.lines, s, w);
      if l.valid {
        assert l.Covers(l.pa) && Covered(dcache.lines, l.pa);
        CleanStep(am, dcache.lines, wb.Queue(), bus.mem, flat, s, w);
      }
      dcache.WriteBack(s, w);
    }

    /** The write-back and tag clear that every data-side invalidation performs. */
    method CleanInvalidateLine(s: nat, w: nat)
      requires Valid() && Indexes(dcache.lines, s, w)
      modifies dcache`lines, wb.bus
      ensures Valid() && Indexes(dcache.lines, s, w) && dcache.lines == Replace(old(dcache.lines), s, w, dcache.lines[s][w])
      ensures !dcache.lines[s][w].valid
    {
      hide Coherent, Injective, BlocksMapped, AllFit, WriteBuffer.Queue;
      CleanLine(s, w);
      ghost var clean := dcache.lines[s][w];
      ghost var l := dcache.lines[s][w].(tag := 0, valid := false, firstDirty := false, lastDirty := false);
      DropStep(am, dcache.lines, wb.Queue(), wb.View(), flat, s, w, l);
      if !dcacheEnabled { StaysEmpty(dcache.lines, s, w, l); }
      dcache.Discard(s, w);
      ReplaceTwice(old(dcache.lines), s, w, clean, l);
    }

    /** mmu_cache_alloc for a missed, cacheable address none of whose line waits in the buffer. */
    method FillLine(mva: nat, pa: nat) returns (s: nat, w: nat)
      requires Valid() && dcacheEnabled && Mapped(am, mva) && pa == am.pa(mva) && pa < SIZE
      requires am.cacheable(mva) && !InWindow(pa)
      requires Missed(dcache.lines, mva, LINE)
      requires NothingWaits(wb.Queue(), BlockStart(pa, LINE), LINE)
      modifies dcache, wb.bus
      ensures Valid() && Indexes(dcache.lines, s, w)
      ensures dcache.lines[s][w].valid && dcache.lines[s][w].tag == BlockStart(mva, LINE)
    {
      hide Configured, Coherent, Injective, BlocksMapped, AllFit, WriteBuffer.Queue, Shaped, Missed, Loaded, Agrees, NothingWaits, Covered,
        Line.WrittenBack;
      Parts();
      MappingAt(mva);
      ghost var ls, m := dcache.lines, bus.mem;
      s, w := dcache.Alloc(mva, pa);
      ghost var l := dcache.lines[s][w];
      LoadedLine(l, l.pa, bus.mem);
      AllocStep(am, ls, wb.Queue(), m, bus.mem, flat, mva, s, w, l);
    }

    /** A read miss of a cacheable address. */
    method ReadAllocate(pa: nat, mva: nat, va: nat, width: Width) returns (data: Word)
      requires Valid() && dcacheEnabled && Mapped(am, mva) && mva % 4 == 0 && pa == am.pa(mva) && pa < SIZE
      requires am.cacheable(mva) && !InWindow(pa) && Missed(dcache.lines, mva, LINE)
      requires NothingWaits(wb.Queue(), BlockStart(pa, LINE), LINE)
      modifies dcache, wb.bus
      ensures Valid()
      ensures pa + 4 <= SIZE && data == Load(flat, pa + FirstLane(va, width), width)
    {
      hide Valid, Configured, Consistent, WriteBuffer.Valid, WriteBuffer.Queue, CheckAccess, InWindow, FirstLane;
      Parts();
      var s, w := FillLine(mva, pa);
      data := ReadLine(s, w, pa, mva, va, width);
    }

    /** The selection of the accessed word and lanes of a line. */
    method ReadLine(s: nat, w: nat, pa: nat, mva: nat, va: nat, width: Width) returns (data: Word)
      requires Valid() && Mapped(am, mva) && mva % 4 == 0 && pa == am.pa(mva)
      requires Indexes(dcache.lines, s, w) && dcache.lines[s][w].valid && dcache.lines[s][w].tag == BlockStart(mva, LINE)
      ensures pa + 4 <= SIZE && !InWindow(pa) && data == Load(flat, pa + FirstLane(va, width), width)
    {
      hide Coherent, Injective, BlocksMapped, Replicated, AllFit, WriteBuffer.Queue, Shaped, WordIndex, BlockStart;
      FoundWord(am, dcache.lines, wb.Queue(), wb.View(), flat, mva, s, w);
      data := dcache.lines[s][w].data[WordIndex(mva, LINE)];
      ghost var word := data;
      if width != WordType {
        data := SelectLanes(data, va, width);
      }
      SelectionLoads(flat, pa, va, width, word, data);
    }

    /** A read miss of an address that is not cacheable. */
    method ReadBus(pa: nat, mva: nat, va: nat, width: Width) returns (data: Word)
      requires Valid() && Mapped(am, mva) && mva % 4 == 0 && pa == am.pa(mva) && Missed(dcache.lines, mva, LINE)
      requires NothingWaits(wb.Queue(), pa, 4)
      ensures pa + 4 <= SIZE && data == Load(flat, pa + FirstLane(va, width), width)
    {
      hide Coherent, Injective, BlocksMapped, AllFit, WriteBuffer.Queue;
      WordBytes(am, mva, 3);
      LaneAligned(pa, va, width);
      BelowIsFlat(am, dcache.lines, wb.Queue(), bus.mem, flat, mva);
      data := bus.Read(pa + FirstLane(va, width), width);
    }

    /** The part of mmu_read after a failed search, outside the refused window. */
    method ReadMiss(e: TlbEntry, mva: nat, va: nat, width: Width) returns (data: Word)
      requires Valid() && dcacheEnabled && mva < SIZE && mva % 4 == 0
      requires tr(mva) == Some(e) && !InWindow(am.pa(mva)) && Missed(dcache.lines, mva, LINE)
      modifies dcache, wb, wb.bus
      ensures Valid()
      ensures am.pa(mva) + 4 <= SIZE && data == Load(flat, am.pa(mva) + FirstLane(va, width), width)
    {
      hide Valid, Configured, Consistent, WriteBuffer.Valid, WriteBuffer.Queue, CheckAccess, InWindow, FirstLane;
      Parts();
      var pa := e.Pa(mva);
      MappingAt(mva);
      WordBytes(am, mva, 3);
      if e.Bufferable() {
        Drain();
      }
      Parts();
      NothingPending(am, dcache.lines, wb.Queue(), wb.View(), flat, mva, e.Bufferable());
      if e.Cacheable() {
        data := ReadAllocate(pa, mva, va, width);
      } else {
        WordInBlock(pa);
        WaitsWithin(wb.Queue(), BlockStart(pa, LINE), LINE, pa, 4);
        data := ReadBus(pa, mva, va, width);
      }
    }

    /** `translate` followed by `check_access`. */
    method TranslateData(mva: nat, read: bool) returns (fault: Fault, e: Option<TlbEntry>)
      requires Valid()
      modifies tlb, tlb.entries
      ensures Valid() && e == tr(mva)
      ensures fault == if e.None? then PageTranslationFault else CheckAccess(ac, mva, e.value, read)
    {
      hide Configured, Coherent, WriteBuffer.Valid, WriteBuffer.Queue, Covered, CheckAccess, Replicated, Tlb.Valid;
      Parts();
      DomainsChecked(mva);
      e := tlb.Translate(tr, mva);
      fault := if e.None? then PageTranslationFault else CheckAccess(ac, mva, e.value, read);
    }

    /** mmu_cache_soft_flush: the line that the set and way bits of a physical address designate. */
    method SoftFlush(pa: nat)
      requires Valid()
      modifies dcache`lines, wb.bus
      ensures Valid()
      ensures var s, w := pa / LINE / 4 % |dcache.lines|, pa / LINE % 4;
              Indexes(dcache.lines, s, w) && !dcache.lines[s][w].valid && OneChanged(old(dcache.lines), dcache.lines, s, w)
    {
      hide Coherent, Injective, BlocksMapped, AllFit, WriteBuffer.Queue;
      assert dcache.cycle[0] < dcache.ways;
      var block := pa / dcache.width;
      var s, w := block / dcache.ways % |dcache.lines|, block % dcache.ways;
      CleanInvalidateLine(s, w);
    }

    /** Reads of the window that mmu_read leaves without data. */
    ghost predicate Refused(va: nat) {
      dcacheEnabled && InWindow(am.pa(AlignDown(Mva(va), 4)))
    }

    /** The part of mmu_read after the permission check. */
    method ReadData(e: TlbEntry, mva: nat, va: nat, width: Width, data0: Word) returns (data: Word)
      requires Valid() && dcacheEnabled && mva < SIZE && mva % 4 == 0 && tr(mva) == Some(e)
      modifies dcache, wb, wb.bus
      ensures Valid()
      ensures var pa := am.pa(mva);
              if InWindow(pa) then data == data0
              else pa + 4 <= SIZE && data == Load(flat, pa + FirstLane(va, width), width)
    {
      hide Valid, Configured, Consistent, WriteBuffer.Valid, WriteBuffer.Queue, CheckAccess, InWindow, FirstLane;
      Parts();
      data := data0;
      var pa := e.Pa(mva);
      MappingAt(mva);
      var way := dcache.Search(mva);
      if way.Some? {
        data := ReadLine(dcache.Set(mva), way.value, pa, mva, va, width);
      } else if InWindow(pa) {
        if e.Cacheable() {
          SoftFlush(pa);
        }
      } else {
        data := ReadMiss(e, mva, va, width);
      }
    }

    /** The part of mmu_read from the translation on. */
    method ReadTranslated(mva: nat, va: nat, width: Width, data0: Word) returns (fault: Fault, data: Word)
      requires Valid() && dcacheEnabled && mva < SIZE && mva % 4 == 0
      modifies tlb, tlb.entries, dcache, wb, wb.bus
      ensures Valid() && fault == if tr(mva).None? then PageTranslationFault else CheckAccess(ac, mva, tr(mva).value, true)
      ensures fault == NoFault && !InWindow(am.pa(mva)) ==> am.pa(mva) + 4 <= SIZE
      ensures data == if fault == NoFault && !InWindow(am.pa(mva)) then Load(flat, am.pa(mva) + FirstLane(va, width), width) else data0
      ensures fault != NoFault ==> dcache.lines == old(dcache.lines) && wb.Queue() == old(wb.Queue()) && bus.mem == old(bus.mem)
    {
      hide Valid, Configured, Consistent, WriteBuffer.Valid, WriteBuffer.Queue, CheckAccess, InWindow, FirstLane;
      Parts();
      data := data0;
      var e: Option<TlbEntry>;
      fault, e := TranslateData(mva, true);
      if fault == NoFault {
        data := ReadData(e.value, mva, va, width, data0);
      }
    }

    /** mmu_read.  `data0` is what the caller's buffer holds before.  A read that meets no fault returns
        the bytes of the flat memory at its physical address, except in the refused window. */
    method MmuRead(va: nat, width: Width, data0: Word) returns (fault: Fault, data: Word)
      requires Valid() && va < SIZE
      requires dcacheEnabled || alignCheck || Aligned(Mva(va), width)
      modifies tlb, tlb.entries, dcache, wb, wb.bus
      ensures Valid() && fault == Outcome(va, width, true)
      ensures fault == NoFault && !Refused(va) ==> Target(va, width) + width.Bytes() <= SIZE
      ensures data == if fault == NoFault && !Refused(va) then Load(flat, Target(va, width), width) else data0
      ensures fault != NoFault ==> dcache.lines == old(dcache.lines) && wb.Queue() == old(wb.Queue()) && bus.mem == old(bus.mem)
    {
      hide Valid, Configured, Consistent, WriteBuffer.Valid, WriteBuffer.Queue, CheckAccess, InWindow, FirstLane;
      var mva := Mva(va);
      ConfiguredNow();
      MvaFits(va);
      if !Aligned(mva, width) && alignCheck {
        return AlignmentFault, data0;
      }
      if !dcacheEnabled {
        EmptyIsFlat();
        AlignedFits(mva, width);
        data := bus.Read(mva, width);
        return NoFault, data;
      }
      fault, data := ReadTranslated(AlignDown(mva, 4), va, width, data0);
    }

    /** The hit of a write: update_cache on the data line. */
    method WriteHit(s: nat, w: nat, mva: nat, va: nat, width: Width, data: Word)
      requires Valid() && dcacheEnabled && Mapped(am, mva) && mva % 4 == 0
      requires Indexes(dcache.lines, s, w) && dcache.lines[s][w].valid && dcache.lines[s][w].tag == BlockStart(mva, LINE)
      modifies this`flat, dcache`lines
      ensures Valid() && am.pa(mva) + 4 <= SIZE
      ensures flat == Store(old(flat), am.pa(mva) + FirstLane(va, width), data, width)
    {
      hide Configured, Coherent, Injective, BlocksMapped, WriteBuffer.Valid, WriteBuffer.Queue, Shaped, FirstLane, WordIndex, BlockStart, Covered,
        Updated, Overwrite, InWindow;
      Parts();
      MappingAt(mva);
      ghost var ls, a := dcache.lines, am.pa(mva) + FirstLane(va, width);
      FoundWord(am, ls, wb.Queue(), wb.View(), flat, mva, s, w);
      dcache.Update(s, w, mva, data, width, va);
      HitStep(am, ls, wb.Queue(), wb.View(), flat, s, w, dcache.lines[s][w], a, BytesOf(data, width));
      flat := Store(flat, a, data, width);
    }

    /** The miss of a write: through the buffer, or to the bus after a drain. */
    method WriteBelow(b: bool, pa: nat, va: nat, width: Width, data: Word)
      requires Valid() && pa % 4 == 0 && pa + 4 <= SIZE
      modifies wb, wb.entries, wb.bus
      ensures wb.Valid() && wb.View() == Store(old(wb.View()), pa + FirstLane(va, width), data, width)
      ensures !wbEnabled ==> wb.Queue() == []
      ensures NoMore(wb.Queue(), old(wb.Queue()), pa + FirstLane(va, width), if b then width.Bytes() else 0)
    {
      hide Coherent, Injective, BlocksMapped, Replicated, AllFit, WriteBuffer.Queue, Shaped;
      var a := pa + FirstLane(va, width);
      if b && wbEnabled {
        wb.WriteBytes(a, BytesOf(data, width));
      } else {
        if !b {
          wb.DrainAll();
        }
        LaneAligned(pa, va, width);
        bus.Write(a, data, width);
      }
    }

    method WriteMiss(b: bool, pa: nat, mva: nat, va: nat, width: Width, data: Word)
      requires Valid() && dcacheEnabled && Mapped(am, mva) && mva % 4 == 0 && Missed(dcache.lines, mva, LINE)
      requires b == am.bufferable(mva) && pa == am.pa(mva)
      modifies this`flat, wb, wb.entries, wb.bus
      ensures Valid() && pa + 4 <= SIZE
      ensures flat == Store(old(flat), pa + FirstLane(va, width), data, width)
    {
      hide Configured, Coherent, Injective, BlocksMapped, AllFit, WriteBuffer.Queue, Shaped, Missed, NoMore, Covered,
        FirstLane, Overwrite;
      Parts();
      MappingAt(mva);
      WordBytes(am, mva, 3);
      ghost var q, view, k := wb.Queue(), wb.View(), FirstLane(va, width);
      WriteBelow(b, pa, va, width, data);
      MissedStep(am, dcache.lines, q, wb.Queue(), view, flat, mva, k, BytesOf(data, width));
      flat := Store(flat, pa + k, data, width);
    }

    /** The part of mmu_write after the permission check. */
    method WriteData(e: TlbEntry, mva: nat, va: nat, width: Width, data: Word)
      requires Valid() && dcacheEnabled && mva < SIZE && mva % 4 == 0 && tr(mva) == Some(e)
      modifies this`flat, dcache`lines, wb, wb.entries, wb.bus
      ensures Valid() && am.pa(mva) + 4 <= SIZE
      ensures flat == Store(old(flat), am.pa(mva) + FirstLane(va, width), data, width)
    {
      hide Valid, Configured, Consistent, WriteBuffer.Valid, WriteBuffer.Queue, CheckAccess, InWindow, FirstLane;
      Parts();
      MappingAt(mva);
      var way := dcache.Search(mva);
      if way.Some? {
        WriteHit(dcache.Set(mva), way.value, mva, va, width, data);
      } else {
        WriteMiss(e.Bufferable(), e.Pa(mva), mva, va, width, data);
      }
    }

    /** The write of the instruction cache that precedes every data write. */
    method SnoopInstructions(mva: nat, va: nat, width: Width, data: Word)
      requires Valid()
      modifies icache`lines
      ensures Valid()
      ensures if Missed(old(icache.lines), mva, icache.width) then icache.lines == old(icache.lines)
              else exists w: nat :: SnoopedLine(old(icache.lines), icache.lines, icache.Set(mva), w, mva, va, width, data)
    {
      hide Configured, Coherent, WriteBuffer.Valid, WriteBuffer.Queue, Covered, CheckAccess, Updated, Missed, Shaped,
        WordIndex, FirstLane, Block, BlockStart, SetIndex;
      var way := icache.Search(mva);
      if way.Some? {
        ghost var ls := icache.lines;
        NotMissed(ls, mva, icache.width, way.value);
        icache.Update(icache.Set(mva), way.value, mva, data, width, va);
        assert SnoopedLine(ls, icache.lines, icache.Set(mva), way.value, mva, va, width, data);
      }
    }

    /** A write with the data cache disabled. */
    method WriteUncached(mva: nat, width: Width, data: Word)
      requires Valid() && !dcacheEnabled && Aligned(mva, width) && mva + width.Bytes() <= SIZE
      modifies this`flat, bus
      ensures Valid() && flat == Store(old(flat), mva, data, width)
    {
      hide Coherent, Injective, BlocksMapped, AllFit, WriteBuffer.Queue;
      EmptyIsFlat();
      NoMoreYet([], mva);
      MissStep(am, dcache.lines, [], [], bus.mem, flat, mva, BytesOf(data, width));
      bus.Write(mva, data, width);
      flat := Store(flat, mva, data, width);
    }

    /** The part of mmu_write from the translation on. */
    method WriteTranslated(mva: nat, va: nat, width: Width, data: Word) returns (fault: Fault)
      requires Valid() && dcacheEnabled && mva < SIZE && mva % 4 == 0
      modifies this`flat, tlb, tlb.entries, dcache`lines, wb, wb.entries, wb.bus
      ensures Valid() && fault == if tr(mva).None? then PageTranslationFault else CheckAccess(ac, mva, tr(mva).value, false)
      ensures fault == NoFault ==> am.pa(mva) + 4 <= SIZE
      ensures flat == if fault == NoFault then Store(old(flat), am.pa(mva) + FirstLane(va, width), data, width) else old(flat)
      ensures fault != NoFault ==> dcache.lines == old(dcache.lines) && wb.Queue() == old(wb.Queue()) && bus.mem == old(bus.mem)
    {
      hide Valid, Configured, Consistent, WriteBuffer.Valid, WriteBuffer.Queue, CheckAccess, InWindow, FirstLane;
      Parts();
      var e: Option<TlbEntry>;
      fault, e := TranslateData(mva, false);
      if fault == NoFault {
        WriteData(e.value, mva, va, width, data);
      }
    }

    /** mmu_write.  A write that meets no fault stores its bytes, and no others, in the flat memory; one
        that does leaves the data cache, the buffer and the bus untouched. */
    method MmuWrite(va: nat, width: Width, data: Word) returns (fault: Fault)
      requires Valid() && va < SIZE
      requires dcacheEnabled || alignCheck || Aligned(Mva(va), width)
      modifies this`flat, tlb, tlb.entries, icache`lines, dcache`lines, wb, wb.entries, wb.bus
      ensures Valid() && fault == Outcome(va, width, false)
      ensures fault == NoFault ==> Target(va, width) + width.Bytes() <= SIZE
      ensures flat == if fault == NoFault then Store(old(flat), Target(va, width), data, width) else old(flat)
      ensures fault != NoFault ==> dcache.lines == old(dcache.lines) && wb.Queue() == old(wb.Queue()) && bus.mem == old(bus.mem)
    {
      hide Valid, Configured, Consistent, WriteBuffer.Valid, WriteBuffer.Queue, CheckAccess, InWindow, FirstLane,
        SnoopedLine, Missed, Shaped, Overwrite;
      ConfiguredNow();
      var mva := Mva(va);
      MvaFits(va);
      if !Aligned(mva, width) && alignCheck {
        return AlignmentFault;
      }
      SnoopInstructions(mva, va, width, data);
      if !dcacheEnabled {
        AlignedFits(mva, width);
        WriteUncached(mva, width, data);
        return NoFault;
      }
      fault := WriteTranslated(AlignDown(mva, 4), va, width, data);
    }

    /** mmu_cache_clean and mmu_cache_invalidate: the line found for a virtual address, if any. */
    method MaintainAddress(va: nat, invalidate: bool)
      requires Valid()
      modifies dcache`lines, wb.bus
      ensures Valid() && if invalidate then Missed(dcache.lines, va, LINE) else Cleaned(dcache.lines, va)
      ensures OthersKept(old(dcache.lines), dcache.lines, va)
    {
      hide Valid, Configured, Consistent, WriteBuffer.Valid, WriteBuffer.Queue, CheckAccess, InWindow, FirstLane;
      Parts();
      var way := dcache.Search(va);
      if way.Some? {
        ghost var ls := dcache.lines;
        OnlyLine(am, ls, wb.Queue(), wb.View(), flat, va, way.value);
        if invalidate {
          CleanInvalidateLine(dcache.Set(va), way.value);
        } else {
          CleanLine(dcache.Set(va), way.value);
        }
      }
    }

    /** mmu_cache_clean_by_index and mmu_cache_invalidate_by_index: the way is in the two highest bits. */
    method MaintainIndex(index: nat, invalidate: bool)
      requires Valid() && index < SIZE
      modifies dcache`lines, wb.bus
      ensures Valid() && |dcache.lines| == old(|dcache.lines|) && Maintained(dcache.lines, index, invalidate)
      ensures OneChanged(old(dcache.lines), dcache.lines, dcache.Set(index), WayIndex(index))
    {
      hide Valid, Configured, Consistent, WriteBuffer.Valid, WriteBuffer.Queue, CheckAccess, InWindow, FirstLane;
      Parts();
      var s, w := dcache.Set(index), WayIndex(index);
      if invalidate {
        CleanInvalidateLine(s, w);
      } else {
        CleanLine(s, w);
      }
    }

    /** mmu_cache_invalidate_all, which writes every line back before it clears it. */
    method InvalidateAll()
      requires Valid()
      modifies dcache`lines, wb.bus
      ensures Valid() && forall s: nat, w: nat | Indexes(dcache.lines, s, w) :: !dcache.lines[s][w].valid
    {
      hide Coherent, Injective, BlocksMapped, Replicated, AllFit, WriteBuffer.Queue;
      for s := 0 to |dcache.lines|
        invariant Valid() && |dcache.lines| == old(|dcache.lines|)
        invariant forall t: nat, v: nat | Indexes(dcache.lines, t, v) && t < s :: !dcache.lines[t][v].valid
      {
        for w := 0 to dcache.ways
          invariant Valid() && |dcache.lines| == old(|dcache.lines|)
          invariant forall t: nat, v: nat | Indexes(dcache.lines, t, v) && (t < s || (t == s && v < w)) :: !dcache.lines[t][v].valid
        {
          CleanInvalidateLine(s, w);
        }
      }
    }

    /** The data-side cases of mmu_cache_ops; the remaining ones stop the simulator or act on the
        instruction cache. */
    static predicate DataOp(opc2: nat, crm: nat) {
      (opc2, crm) in {(0, 6), (1, 6), (2, 6), (1, 10), (2, 10), (3, 10), (1, 14), (2, 14), (3, 14), (4, 10), (4, 0), (1, 13)}
    }

    /** mmu_cache_ops.  Even the operations called invalidations write back first, so the flat memory
        never changes. */
    method CacheOps(opc2: nat, crm: nat, value: nat)
      requires Valid() && DataOp(opc2, crm) && value < SIZE
      modifies dcache`lines, wb, wb.bus
      ensures Valid()
      ensures (opc2, crm) == (0, 6) ==> forall s: nat, w: nat | Indexes(dcache.lines, s, w) :: !dcache.lines[s][w].valid
      ensures (opc2, crm) in {(1, 6), (1, 14)} ==> Missed(dcache.lines, value, LINE)
      ensures (opc2, crm) == (1, 10) ==> Cleaned(dcache.lines, value)
      ensures (opc2, crm) in {(2, 6), (2, 14)} ==> Maintained(dcache.lines, value, true)
      ensures (opc2, crm) == (2, 10) ==> Maintained(dcache.lines, value, false)
      ensures opc2 == 1 ==> OthersKept(old(dcache.lines), dcache.lines, value)
      ensures opc2 == 2 ==> OneChanged(old(dcache.lines), dcache.lines, dcache.Set(value), WayIndex(value))
      ensures (opc2, crm) in {(4, 10), (4, 0)} ==> dcache.lines == old(dcache.lines) && wb.Queue() == []
      ensures (opc2, crm) in {(3, 10), (3, 14), (1, 13)} ==> dcache.lines == old(dcache.lines) && bus.mem == old(bus.mem)
    {
      hide Valid, Configured, Consistent, WriteBuffer.Valid, WriteBuffer.Queue, CheckAccess, InWindow, FirstLane,
        OneChanged, OthersKept, Cleaned, Maintained, Missed, Indexes;
      Parts();
      if opc2 == 0 && crm == 6 {
        InvalidateAll();
      } else if opc2 == 1 && crm == 6 {
        MaintainAddress(value, true);
      } else if opc2 == 2 && crm == 6 {
        MaintainIndex(value, true);
      } else if opc2 == 1 && crm == 10 {
        MaintainAddress(value, false);
      } else if opc2 == 2 && crm == 10 {
        MaintainIndex(value, false);
      } else if opc2 == 1 && crm == 14 {
        ghost var ls := dcache.lines;
        MaintainAddress(value, false);
        ghost var ls' := dcache.lines;
        MaintainAddress(value, true);
        KeptTwice(ls, ls', dcache.lines, value);
      } else if opc2 == 2 && crm == 14 {
        ghost var ls := dcache.lines;
        MaintainIndex(value, false);
        ghost var ls' := dcache.lines;
        MaintainIndex(value, true);
        ChangedTwice(ls, ls', dcache.lines, dcache.Set(value), WayIndex(value));
      } else if opc2 == 4 && (crm == 10 || crm == 0) {
        Drain();
      } else {
        KeptSelf(dcache.lines, value);
      }
    }

    /** mmu_tlb_ops.  By the precedence of && over ||, the first test of the source holds of CRm 5 and 6
        whatever OPC_2 is, so a single entry is invalidated only for CRm 7. */
    method TlbOps(opc2: nat, crm: nat, value: nat)
      requires Valid() && (crm == 5 || crm == 6 || (crm == 7 && opc2 < 2))
      modifies tlb, tlb.entries
      ensures Valid()
      ensures forall i | 0 <= i < tlb.entries.Length ::
                tlb.entries[i] == if crm == 7 && opc2 == 1 && !old(tlb.First(value, i)) then old(tlb.entries[i]) else None
    {
      hide Coherent, Injective, BlocksMapped, Replicated, AllFit, WriteBuffer.Queue;
      if (opc2 == 0 && crm == 7) || crm == 6 || crm == 5 {
        tlb.InvalidateAll();
      } else {
        tlb.InvalidateEntry(tr, value);
      }
    }

    /** Invalidating the data cache and draining the buffer brings memory up to date. */
    method Synchronize()
      requires Valid()
      modifies dcache`lines, wb, wb.bus
      ensures Valid() && bus.mem == flat
    {
      CacheOps(0, 6, 0);
      CacheOps(4, 10, 0);
      assert forall a: nat :: !Covered(dcache.lines, a);
    }

    /** With nothing cached and nothing buffered, the bus memory is the flat memory. */
    lemma EmptyIsFlat()
      requires Valid() && !dcacheEnabled
      ensures bus.mem == flat
    {
    }
  }

  /** One line of an address has taken the written lanes. */
  ghost predicate SnoopedLine(ls: Lines, ls': Lines, s: nat, w: nat, mva: nat, va: nat, width: Width, data: Word) {
    && Indexes(ls, s, w) && Indexes(ls', s, w) && ls[s][w].valid && ls[s][w].tag == BlockStart(mva, LINE)
    && ls' == Replace(ls, s, w, ls'[s][w])
    && Updated(ls[s][w], ls'[s][w], ls[s][w].pa + 4 * WordIndex(mva, LINE) + FirstLane(va, width), BytesOf(data, width))
  }

  /** Every line but one is as it was. */
  predicate OneChanged(ls: Lines, ls': Lines, s: nat, w: nat) {
    |ls'| == |ls| && Indexes(ls', s, w) && Indexes(ls, s, w) && ls' == Replace(ls, s, w, ls'[s][w])
  }

  lemma ChangedTwice(ls: Lines, ls': Lines, ls'': Lines, s: nat, w: nat)
    requires OneChanged(ls, ls', s, w) && OneChanged(ls', ls'', s, w)
    ensures OneChanged(ls, ls'', s, w)
  {
    ReplaceTwice(ls, s, w, ls'[s][w], ls''[s][w]);
  }

  /** Every line of another address is as it was. */
  ghost predicate OthersKept(ls: Lines, ls': Lines, va: nat) {
    && |ls'| == |ls| && (forall s: nat, w: nat :: Indexes(ls', s, w) <==> Indexes(ls, s, w))
    && forall s: nat, w: nat | Indexes(ls, s, w) && !(ls[s][w].valid && ls[s][w].tag == BlockStart(va, LINE)) :: ls'[s][w] == ls[s][w]
  }

  lemma KeptSelf(ls: Lines, va: nat)
    ensures OthersKept(ls, ls, va)
  {
  }

  lemma KeptTwice(ls: Lines, ls': Lines, ls'': Lines, va: nat)
    requires OthersKept(ls, ls', va) && OthersKept(ls', ls'', va)
    ensures OthersKept(ls, ls'', va)
  {
    hide BlockStart, Indexes;
  }

  /** No line of an address is dirty. */
  ghost predicate Cleaned(ls: Lines, va: nat)
    requires |ls| > 0
  {
    var s := SetIndex(Block(va, LINE), |ls|);
    forall w: nat | Indexes(ls, s, w) && ls[s][w].valid && ls[s][w].tag == BlockStart(va, LINE) ::
      !ls[s][w].firstDirty && !ls[s][w].lastDirty
  }

  /** The way that the two highest bits of a set and way number give. */
  function WayIndex(index: nat): nat {
    index / 0x4000_0000
  }

  /** A set and way number in the format of the architecture designates its set and its way, whatever its low bits are. */
  lemma Designates(sets: nat, s: nat, w: nat, low: nat)
    requires 0 < sets && 0x200_0000 % sets == 0 && s < sets && w < 4 && low < LINE
    ensures var index := 0x4000_0000 * w + LINE * s + low;
            index < SIZE && WayIndex(index) == w && SetIndex(Block(index, LINE), sets) == s
  {
    hide SetIndex, WayIndex;
    var index, k := 0x4000_0000 * w + LINE * s + low, 0x200_0000 / sets;
    SetsFit(sets, k);
    DesignatedLine(s, w, low);
    SetIndexIs(index / LINE, sets);
    DesignatedSet(sets, k, s, w);
  }

  lemma SetsFit(sets: nat, k: nat)
    requires 0 < sets && 0x200_0000 % sets == 0 && k == 0x200_0000 / sets
    ensures 0x200_0000 == sets * k && sets <= 0x200_0000
  {
  }

  lemma DesignatedLine(s: nat, w: nat, low: nat)
    requires s < 0x200_0000 && w < 4 && low < LINE
    ensures var index := 0x4000_0000 * w + LINE * s + low; WayIndex(index) == w && index / LINE == 0x200_0000 * w + s
  {
    var index := 0x4000_0000 * w + LINE * s + low;
    Division(index, 0x4000_0000, w, LINE * s + low);
    Division(index, LINE, 0x200_0000 * w + s, low);
  }

  lemma DesignatedSet(sets: nat, k: nat, s: nat, w: nat)
    requires s < sets
    ensures (sets * k * w + s) % sets == s
  {
    Distribute(sets, k, w, 0);
    Division(sets * k * w + s, sets, k * w, s);
  }

  /** The line that a set and way number designates is gone, or clean. */
  ghost predicate Maintained(ls: Lines, index: nat, invalidate: bool)
    requires |ls| > 0
  {
    var s, w := SetIndex(Block(index, LINE), |ls|), WayIndex(index);
    Indexes(ls, s, w) && (ls[s][w].valid ==> !invalidate && !ls[s][w].firstDirty && !ls[s][w].lastDirty)
  }

  /** The line found for an address is the only one. */
  lemma OnlyLine(am: AddressMap, ls: Lines, q: seq<Entry>, view: Memory, flat: Memory, va: nat, w: nat)
    requires Coherent(am, ls, q, view, flat) && |ls| > 0
    requires var s := SetIndex(Block(va, LINE), |ls|);
             Indexes(ls, s, w) && ls[s][w].valid && ls[s][w].tag == BlockStart(va, LINE)
    ensures var s := SetIndex(Block(va, LINE), |ls|);
            forall v: nat | Indexes(ls, s, v) && ls[s][v].valid && v != w :: ls[s][v].tag != BlockStart(va, LINE)
  {
  }

  lemma FoundWord(am: AddressMap, ls: Lines, q: seq<Entry>, view: Memory, flat: Memory, va: nat, s: nat, w: nat)
    requires BlocksMapped(am, LINE) && Coherent(am, ls, q, view, flat)
    requires Mapped(am, va) && va % 4 == 0
    requires Indexes(ls, s, w) && ls[s][w].valid && ls[s][w].tag == BlockStart(va, LINE)
    ensures var l, i := ls[s][w], WordIndex(va, LINE);
            && i < |l.data| && l.Fits() && l.Width() == LINE && l.pa + 4 * i == am.pa(va) && am.pa(va) + 4 <= l.pa + LINE <= SIZE
            && !InWindow(am.pa(va))
            && forall j | 0 <= j < 4 :: l.data[i].At(j) == flat[am.pa(va) + j]
  {
    assert BlockMapped(am, va, LINE);
    CachedWord(am, ls, q, view, flat, va, s, w);
  }

  /** A write below the cache to a word that is not cached. */
  lemma MissedStep(am: AddressMap, ls: Lines, q: seq<Entry>, q': seq<Entry>, view: Memory, flat: Memory, mva: nat, k: nat, bs: seq<bv8>)
    requires Injective(am) && BlocksMapped(am, 4) && BlocksMapped(am, LINE) && Coherent(am, ls, q, view, flat) && |ls| > 0
    requires Mapped(am, mva) && mva % 4 == 0 && Missed(ls, mva, LINE) && k + |bs| <= 4
    requires am.pa(mva) + 4 <= SIZE
    requires NoMore(q', q, am.pa(mva) + k, if am.bufferable(mva) then |bs| else 0)
    ensures Coherent(am, ls, q', Overwrite(view, am.pa(mva) + k, bs), Overwrite(flat, am.pa(mva) + k, bs))
  {
    hide Injective, BlocksMapped, LinesOk, DistinctTags, Accounted, QueueOk, NoMore, Missed, Covered, Uncovered,
      BufferablePa, Overwrite;
    MissedWord(am, ls, q, view, flat, mva);
    UncoveredWithin(ls, am.pa(mva), k, |bs|);
    if am.bufferable(mva) { BufferableWord(am, mva); }
    QueuedMore(am, q, q', am.pa(mva), k, |bs|, am.bufferable(mva));
    MissStep(am, ls, q, q', view, flat, am.pa(mva) + k, bs);
  }

  lemma UncoveredWithin(ls: Lines, a: nat, k: nat, n: nat)
    requires Uncovered(ls, a, 4) && k + n <= 4
    ensures Uncovered(ls, a + k, n)
  {
  }

  lemma QueuedMore(am: AddressMap, q: seq<Entry>, q': seq<Entry>, a: nat, k: nat, n: nat, b: bool)
    requires QueueOk(am, q) && k + n <= 4 && NoMore(q', q, a + k, if b then n else 0)
    requires b ==> forall x | a <= x < a + 4 :: BufferablePa(am, x)
    ensures QueueOk(am, q') && NoMore(q', q, a + k, n)
  {
    hide Pending, BufferablePa;
  }

  lemma BufferableWord(am: AddressMap, va: nat)
    requires BlocksMapped(am, 4) && Mapped(am, va) && va % 4 == 0 && am.bufferable(va)
    ensures forall x | am.pa(va) <= x < am.pa(va) + 4 :: BufferablePa(am, x)
  {
    forall x | am.pa(va) <= x < am.pa(va) + 4 ensures BufferablePa(am, x) {
      WordBytes(am, va, x - am.pa(va));
    }
  }

  lemma AlignedFits(a: nat, width: Width)
    requires a < SIZE && Aligned(a, width)
    ensures a + width.Bytes() <= SIZE
  {
  }

  lemma WordInBlock(pa: nat)
    requires pa % 4 == 0
    ensures BlockStart(pa, LINE) <= pa && pa + 4 <= BlockStart(pa, LINE) + LINE
  {
    WordOfLine(pa);
  }

  lemma WaitsWithin(q: seq<Entry>, a: nat, n: nat, b: nat, k: nat)
    requires NothingWaits(q, a, n) && a <= b && b + k <= a + n
    ensures NothingWaits(q, b, k)
  {
  }

  /** For a missed address with nothing pending, the bus holds the flat bytes. */
  lemma BelowIsFlat(am: AddressMap, ls: Lines, q: seq<Entry>, m: Memory, flat: Memory, mva: nat)
    requires Injective(am) && BlocksMapped(am, 4) && BlocksMapped(am, LINE) && AllFit(q)
    requires Coherent(am, ls, q, Apply(q, m), flat) && |ls| > 0
    requires Mapped(am, mva) && mva % 4 == 0 && am.pa(mva) + 4 <= SIZE && Missed(ls, mva, LINE)
    requires NothingWaits(q, am.pa(mva), 4)
    ensures forall a | am.pa(mva) <= a < am.pa(mva) + 4 :: m[a] == flat[a]
  {
    MissedWord(am, ls, q, Apply(q, m), flat, mva);
    forall a | am.pa(mva) <= a < am.pa(mva) + 4 ensures m[a] == flat[a] {
      ApplyElsewhere(q, m, a);
    }
  }

  lemma StaysEmpty(ls: Lines, s: nat, w: nat, l: Line)
    requires Indexes(ls, s, w) && !l.valid && forall a: nat :: !Covered(ls, a)
    ensures forall a: nat :: !Covered(Replace(ls, s, w, l), a)
  {
    forall a: nat ensures !Covered(Replace(ls, s, w, l), a) {
      CoveredReplace(ls, s, w, l, a);
    }
  }

  /** No byte of the line of an address waits in the buffer, after the drain that a bufferable address gets. */
  lemma NothingPending(am: AddressMap, ls: Lines, q: seq<Entry>, view: Memory, flat: Memory, va: nat, drained: bool)
    requires Injective(am) && BlocksMapped(am, LINE) && Mapped(am, va) && Coherent(am, ls, q, view, flat)
    requires if drained then q == [] else !am.bufferable(va)
    ensures NothingWaits(q, BlockStart(am.pa(va), LINE), LINE)
  {
    hide Injective, BlocksMapped, LinesOk, DistinctTags, Accounted, QueueOk, BlockStart;
    var p := BlockStart(am.pa(va), LINE);
    forall a | p <= a < p + LINE ensures !Pending(q, a) {
      if !drained {
        LineOffset(am, va, a - p);
        NeverBuffered(am, q, BlockStart(va, LINE) + (a - p));
      }
    }
  }

  /** The bytes of the line of an address are translated and buffered together. */
  lemma LineOffset(am: AddressMap, va: nat, o: nat)
    requires BlocksMapped(am, LINE) && Mapped(am, va) && o < LINE
    ensures var x := BlockStart(va, LINE) + o;
            Mapped(am, x) && am.pa(x) == BlockStart(am.pa(va), LINE) + o && am.pa(x) < SIZE && am.bufferable(x) == am.bufferable(va)
  {
    var b := BlockStart(va, LINE);
    assert BlockMapped(am, va, LINE);
    assert BlockMapped(am, b + o, LINE);
    hide BlocksMapped;
    BlockPosition(va, am.pa(va), am.pa(b));
    LineByte(va, o);
  }

  lemma LineByte(va: nat, o: nat)
    requires o < LINE
    ensures var b := BlockStart(va, LINE); BlockStart(b + o, LINE) == b && (b + o) % LINE == o && (va < SIZE ==> b + o < SIZE)
  {
    Division(BlockStart(va, LINE) + o, LINE, va / LINE, o);
  }
}
