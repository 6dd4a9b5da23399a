/** The ARM7TDMI model (arm7tdmi.cpp): a write-through cache in front of the bus.

    A hit is served before the translation and the permission check.  For reads this is never seen.
    A write changes the line it hits first, so a write that then faults leaves the line ahead of the
    bus, exactly when it hits and its bytes differ. */
module Arm7tdmi {
  import opened Arithmetic
  import opened Words
  import opened Bus
  import Tables
  import opened Tlb
  import opened Cache
  import opened Wrappers

  const LINE := 16

  /** Do translation and permission check let the access through? */
  function Permitted(tr: Translation, ac: AccessControl, va: nat, read: bool): Fault
    requires tr(va).Some? ==> tr(va).value.domain < |ac.domains|
  {
    if tr(va).None? then PageTranslationFault else CheckAccess(ac, va, tr(va).value, read)
  }

  /** All bytes of a line may be read, or none. */
  predicate ReadsAlike(tr: Translation, ac: AccessControl, va: nat)
    requires forall x: nat | tr(x).Some? :: tr(x).value.domain < |ac.domains|
  {
    Permitted(tr, ac, va, true) == Permitted(tr, ac, BlockStart(va, LINE), true)
  }

  lemma SubpageUniform(x: nat, y: nat)
    requires x / 0x400 == y / 0x400
    ensures x / 0x4000 == y / 0x4000
  {
    assert x / 0x4000 == x / 0x400 / 16 && y / 0x4000 == y / 0x400 / 16;
  }

  lemma WalkerReadsAlike(pt: PageTables, ac: AccessControl, va: nat)
    requires forall x: nat | Walk(pt, x).Some? :: Walk(pt, x).value.domain < |ac.domains|
    ensures ReadsAlike(Walker(pt), ac, va) && Walk(pt, va) == Walk(pt, BlockStart(va, LINE))
  {
    var b := BlockStart(va, LINE);
    PageOffset(va, LINE, 64, 0x400, 0);
    WalkUniform(pt, b, va);
    SubpageUniform(b, va);
  }

  /** A line mirrors the bus memory at its translated address. */
  ghost predicate Mirrors(am: AddressMap, m: Memory, l: Line) {
    && l.Width() == LINE && l.tag % LINE == 0 && Mapped(am, l.tag)
    && am.pa(l.tag) % LINE == 0 && Agrees(l, am.pa(l.tag), m)
  }

  /** Every valid line is in its set, may be filled, and mirrors the bus; no address has two lines. */
  ghost predicate InStep(am: AddressMap, fillable: nat -> bool, ls: Lines, m: Memory) {
    && (forall s: nat, w: nat | Indexes(ls, s, w) && ls[s][w].valid ::
          Mirrors(am, m, ls[s][w]) && fillable(ls[s][w].tag) && SetIndex(Block(ls[s][w].tag, LINE), |ls|) == s)
    && (forall s: nat, v: nat, w: nat | Indexes(ls, s, v) && Indexes(ls, s, w) && ls[s][v].valid && ls[s][w].valid && v != w ::
          ls[s][v].tag != ls[s][w].tag)
  }

  /** An aligned access stays inside its word, and its word inside its line. */
  lemma Position(va: nat, width: Width)
    requires Aligned(va, width)
    ensures FirstLane(va, width) == va % 4 && va % LINE == 4 * WordIndex(va, LINE) + va % 4
    ensures va % LINE + width.Bytes() <= LINE
  {
    var q, r := va / LINE, va % LINE;
    Division(va, 4, 4 * q + r / 4, r % 4);
    match width
    case ByteType =>
    case HalfwordType => Division(va, 2, 8 * q + r / 2, r % 2);
    case WordType =>
  }

  /** The block of an address, translated: its start, and the place of the address in it. */
  lemma BlockAt(am: AddressMap, va: nat)
    requires BlocksMapped(am, LINE) && Mapped(am, va)
    ensures var b := BlockStart(va, LINE);
            && Mapped(am, b) && b % LINE == 0 && am.pa(b) % LINE == 0 && am.pa(b) + LINE <= SIZE
            && am.pa(va) == am.pa(b) + va % LINE && Block(b, LINE) == Block(va, LINE)
  {
    assert BlockMapped(am, va, LINE);
    AlignedBlock(va, LINE);
    Division(am.pa(va), LINE, am.pa(BlockStart(va, LINE)) / LINE, va % LINE);
  }

  /** A store leaves every line in step that is not the line of its block `b`. */
  lemma StoreElsewhere(am: AddressMap, m: Memory, l: Line, b: nat, a: nat, d: Word, width: Width)
    requires Injective(am) && Mirrors(am, m, l) && l.tag != b
    requires Mapped(am, b) && am.pa(b) % LINE == 0 && am.pa(b) <= a && a + width.Bytes() <= am.pa(b) + LINE <= SIZE
    ensures Mirrors(am, Store(m, a, d, width), l)
  {
    assert Separate(am, l.tag, b);
    assert am.pa(l.tag) + LINE <= am.pa(b) || am.pa(b) + LINE <= am.pa(l.tag);
  }

  /** `l'` is `l` after the hit of a write. */
  ghost predicate WrittenLine(l: Line, l': Line, va: nat, data: Word, width: Width) {
    && l' == l.(data := l'.data) && DataReplaced(l, l', WordIndex(va, LINE))
    && Merged(l.data[WordIndex(va, LINE)], data, va, width, l'.data[WordIndex(va, LINE)])
  }

  /** A write hit puts its bytes at the place of its address in the line, and changes no other. */
  lemma WrittenByte(l: Line, l': Line, va: nat, data: Word, width: Width, o: nat)
    requires WrittenLine(l, l', va, data, width) && Aligned(va, width) && l.Width() == LINE && o < LINE
    ensures var k := va % LINE;
            l'.ByteAt(o) == if k <= o < k + width.Bytes() then BytesOf(data, width)[o - k] else l.ByteAt(o)
  {
    Position(va, width);
    UpdatedAt(l, l', WordIndex(va, LINE), data, width, va, o);
  }

  /** The line after a write hit holds what memory, where it mirrored the line, would after the store. */
  lemma WrittenBytes(m: Memory, l: Line, l': Line, p: nat, k: nat, va: nat, data: Word, width: Width)
    requires WrittenLine(l, l', va, data, width) && Aligned(va, width) && l.Width() == LINE && k == p + va % LINE
    requires Agrees(l, p, m)
    ensures k + width.Bytes() <= p + LINE <= SIZE && l'.Width() == LINE && l'.tag == l.tag
    ensures Agrees(l', p, Overwrite(m, k, BytesOf(data, width)))
  {
    Position(va, width);
    var m' := Overwrite(m, k, BytesOf(data, width));
    forall a | p <= a < p + LINE ensures m'[a] == l'.ByteAt(a - p) {
      WrittenByte(l, l', va, data, width, a - p);
    }
  }

  /** A write hit followed by the bus write keeps the line in step. */
  lemma WrittenThrough(am: AddressMap, m: Memory, l: Line, l': Line, va: nat, data: Word, width: Width)
    requires BlocksMapped(am, LINE) && Mapped(am, va) && Aligned(va, width) && Mirrors(am, m, l) && l.tag == BlockStart(va, LINE)
    requires WrittenLine(l, l', va, data, width) && am.pa(va) + width.Bytes() <= SIZE
    ensures Mirrors(am, Store(m, am.pa(va), data, width), l')
  {
    hide WrittenLine, BlocksMapped, Agrees, Overwrite;
    BlockAt(am, va);
    WrittenBytes(m, l, l', am.pa(l.tag), am.pa(va), va, data, width);
  }

  /** Does memory already hold what a write stores? */
  predicate AlreadyThere(m: Memory, a: nat, data: Word, width: Width)
    requires a + width.Bytes() <= SIZE
  {
    m[a..a + width.Bytes()] == BytesOf(data, width)
  }

  lemma AheadBytes(m: Memory, l': Line, p: nat, b: nat, bs: seq<bv8>)
    requires p <= b && b + |bs| <= p + LINE <= SIZE && l'.Width() == LINE
    requires Agrees(l', p, Overwrite(m, b, bs))
    ensures Agrees(l', p, m) <==> m[b..b + |bs|] == bs
  {
    var m' := Overwrite(m, b, bs);
    if m[b..b + |bs|] == bs {
      forall a | p <= a < p + LINE ensures m'[a] == m[a] {
        assert b <= a < b + |bs| ==> m[b..b + |bs|][a - b] == bs[a - b];
      }
    }
    if Agrees(l', p, m) {
      forall i | 0 <= i < |bs| ensures m[b..b + |bs|][i] == bs[i] {
        assert m[b + i] == m'[b + i];
      }
    }
  }

  /** Without the bus write the line stays in step exactly if memory already held the bytes. */
  lemma WrittenAhead(am: AddressMap, m: Memory, l: Line, l': Line, va: nat, data: Word, width: Width)
    requires BlocksMapped(am, LINE) && Mapped(am, va) && Aligned(va, width) && Mirrors(am, m, l) && l.tag == BlockStart(va, LINE)
    requires WrittenLine(l, l', va, data, width) && am.pa(va) + width.Bytes() <= SIZE
    ensures Mirrors(am, m, l') <==> AlreadyThere(m, am.pa(va), data, width)
  {
    hide WrittenLine, BlocksMapped, Agrees, Overwrite;
    BlockAt(am, va);
    WrittenBytes(m, l, l', am.pa(l.tag), am.pa(va), va, data, width);
    AheadBytes(m, l', am.pa(l.tag), am.pa(va), BytesOf(data, width));
  }

  /** A write with its bus write keeps every line in step: the line it hits and all others. */
  lemma HitStep(am: AddressMap, fillable: nat -> bool, ls: Lines, m: Memory, s: nat, w: nat, l': Line, va: nat, data: Word, width: Width)
    requires Injective(am) && BlocksMapped(am, LINE) && Mapped(am, va) && Aligned(va, width) && InStep(am, fillable, ls, m)
    requires Indexes(ls, s, w) && ls[s][w].valid && ls[s][w].tag == BlockStart(va, LINE)
    requires WrittenLine(ls[s][w], l', va, data, width) && am.pa(va) + width.Bytes() <= SIZE
    ensures InStep(am, fillable, Replace(ls, s, w, l'), Store(m, am.pa(va), data, width))
  {
    BlockAt(am, va);
    Position(va, width);
    WrittenThrough(am, m, ls[s][w], l', va, data, width);
    var ls', m' := Replace(ls, s, w, l'), Store(m, am.pa(va), data, width);
    forall t: nat, v: nat | Indexes(ls', t, v) && ls'[t][v].valid
      ensures Mirrors(am, m', ls'[t][v]) && fillable(ls'[t][v].tag) && SetIndex(Block(ls'[t][v].tag, LINE), |ls'|) == t
    {
      if (t, v) != (s, w) { StoreElsewhere(am, m, ls[t][v], BlockStart(va, LINE), am.pa(va), data, width); }
    }
  }

  lemma MissStep(am: AddressMap, fillable: nat -> bool, ls: Lines, m: Memory, va: nat, data: Word, width: Width)
    requires Injective(am) && BlocksMapped(am, LINE) && Mapped(am, va) && Aligned(va, width) && InStep(am, fillable, ls, m)
    requires |ls| > 0 && Missed(ls, va, LINE) && am.pa(va) + width.Bytes() <= SIZE
    ensures InStep(am, fillable, ls, Store(m, am.pa(va), data, width))
  {
    BlockAt(am, va);
    Position(va, width);
    forall t: nat, v: nat | Indexes(ls, t, v) && ls[t][v].valid
      ensures Mirrors(am, Store(m, am.pa(va), data, width), ls[t][v])
    {
      StoreElsewhere(am, m, ls[t][v], BlockStart(va, LINE), am.pa(va), data, width);
    }
  }

  /** A write that hits and then faults keeps the lines in step exactly if it changed nothing. */
  lemma AheadStep(am: AddressMap, fillable: nat -> bool, ls: Lines, m: Memory, s: nat, w: nat, l': Line, va: nat, data: Word, width: Width)
    requires BlocksMapped(am, LINE) && Mapped(am, va) && Aligned(va, width) && InStep(am, fillable, ls, m)
    requires Indexes(ls, s, w) && ls[s][w].valid && ls[s][w].tag == BlockStart(va, LINE)
    requires WrittenLine(ls[s][w], l', va, data, width) && am.pa(va) + width.Bytes() <= SIZE
    ensures InStep(am, fillable, Replace(ls, s, w, l'), m) <==> AlreadyThere(m, am.pa(va), data, width)
  {
    WrittenAhead(am, m, ls[s][w], l', va, data, width);
    var ls' := Replace(ls, s, w, l');
    assert Indexes(ls', s, w) && ls'[s][w] == l';
  }

  /** A line filled from the bus under a tag that missed. */
  lemma FillStep(am: AddressMap, fillable: nat -> bool, ls: Lines, m: Memory, s: nat, w: nat, l: Line, va: nat)
    requires BlocksMapped(am, LINE) && Mapped(am, va) && InStep(am, fillable, ls, m) && fillable(BlockStart(va, LINE))
    requires |ls| > 0 && Missed(ls, va, LINE) && s == SetIndex(Block(va, LINE), |ls|) && Indexes(ls, s, w)
    requires l.tag == BlockStart(va, LINE) && l.Width() == LINE
    requires Loaded(l.data, m, am.pa(l.tag))
    ensures InStep(am, fillable, Replace(ls, s, w, l), m)
  {
    BlockAt(am, va);
    FilledMirrors(am, m, l);
    var ls' := Replace(ls, s, w, l);
    forall t: nat, v: nat | Indexes(ls', t, v) && ls'[t][v].valid
      ensures Mirrors(am, m, ls'[t][v]) && fillable(ls'[t][v].tag) && SetIndex(Block(ls'[t][v].tag, LINE), |ls'|) == t
    {
      assert Indexes(ls, t, v);
    }
  }

  lemma FilledMirrors(am: AddressMap, m: Memory, l: Line)
    requires l.Width() == LINE && l.tag % LINE == 0 && Mapped(am, l.tag) && am.pa(l.tag) % LINE == 0
    requires Loaded(l.data, m, am.pa(l.tag))
    ensures Mirrors(am, m, l)
  {
    hide Loaded, Line.ByteAt;
    LoadedLine(l, am.pa(l.tag), m);
  }

  /** `fillable` tells of an address whether reading it fills a line; a line is fillable as a whole. */
  predicate FillableAt(fillable: nat -> bool, tr: Translation, ac: AccessControl, va: nat)
    requires tr(va).Some? ==> tr(va).value.domain < |ac.domains|
  {
    && fillable(va) == (Permitted(tr, ac, va, true) == NoFault && tr(va).Some? && tr(va).value.Cacheable())
    && fillable(va) == fillable(BlockStart(va, LINE))
  }

  class Arm7tdmi {
    const tr: Translation
    ghost const am: AddressMap
    ghost const fillable: nat -> bool
    const ac: AccessControl
    const mmuEnabled: bool
    const cacheEnabled: bool
    const alignCheck: bool
    const bus: Bus
    const tlb: Tlb
    const cache: Cache

    ghost predicate Configured() {
      && Replicated(tr) && MapOf(am, tr) && Injective(am) && BlocksMapped(am, LINE)
      && (forall va: nat | tr(va).Some? :: tr(va).value.domain < |ac.domains|)
      && forall va: nat :: FillableAt(fillable, tr, ac, va)
    }

    ghost predicate Sound()
      reads this, bus, tlb, tlb.entries, cache
    {
      && Configured() && cache.bus == bus && cache.width == LINE && cache.mode.WriteThroughMode?
      && tlb.Valid(tr) && cache.Valid()
    }

    ghost predicate Valid()
      reads this, bus, tlb, tlb.entries, cache
    {
      Sound() && (mmuEnabled && cacheEnabled ==> InStep(am, fillable, cache.lines, bus.mem))
    }

    constructor (pt: PageTables, ac: AccessControl, mmuEnabled: bool, cacheEnabled: bool, alignCheck: bool, bus: Bus)
      requires Replicated(Walker(pt)) && Injective(MapOfTables(pt)) && |ac.domains| == 16
      ensures Valid() && tr == Walker(pt) && am == MapOfTables(pt) && this.ac == ac && this.bus == bus
      ensures this.mmuEnabled == mmuEnabled && this.cacheEnabled == cacheEnabled && this.alignCheck == alignCheck
      ensures |cache.lines| == 128 && cache.ways == 4 && tlb.entries.Length == 64
      ensures fresh({tlb, tlb.entries, cache})
      ensures forall s: nat, w: nat | Indexes(cache.lines, s, w) :: !cache.lines[s][w].valid
    {
      tr, am, this.ac, this.bus := Walker(pt), MapOfTables(pt), ac, bus;
      fillable := (va: nat) => && (Walk(pt, va).Some? ==> Walk(pt, va).value.domain < |ac.domains|)
                               && Permitted(Walker(pt), ac, va, true) == NoFault && Walk(pt, va).Some? && Walk(pt, va).value.Cacheable();
      this.mmuEnabled, this.cacheEnabled, this.alignCheck := mmuEnabled, cacheEnabled, alignCheck;
      tlb := new Tlb(64);
      cache := new Cache(LINE, 4, 128, WriteThroughMode, bus);
      new;
      TablesMap(pt);
      WalkerBlocks(pt, LINE);
      forall va: nat | Walk(pt, va).Some? ensures Walk(pt, va).value.domain < 16 { WalkEntry(pt, va); }
      forall va: nat ensures FillableAt(fillable, tr, ac, va) { WalkerReadsAlike(pt, ac, va); }
    }

    /** The fault of an access, were every access translated and checked. */
    ghost function Outcome(va: nat, width: Width, read: bool): Fault
      requires Configured()
    {
      if !mmuEnabled then NoFault
      else if alignCheck && !Aligned(va, width) then AlignmentFault
      else Permitted(tr, ac, va, read)
    }

    ghost function Target(va: nat): nat {
      if mmuEnabled then am.pa(va) else va
    }

    /** `translate` followed by `check_access`. */
    method TranslateData(va: nat, read: bool) returns (fault: Fault, e: Option<TlbEntry>)
      requires Sound()
      modifies tlb, tlb.entries
      ensures Sound() && e == tr(va) && fault == Permitted(tr, ac, va, read)
    {
      hide Injective, BlocksMapped;
      e := tlb.Translate(tr, va);
      fault := if e.None? then PageTranslationFault else CheckAccess(ac, va, e.value, read);
    }

    /** The selection of the accessed lanes of a line: a load from any memory that the lines mirror. */
    method ReadLine(s: nat, w: nat, va: nat, width: Width) returns (data: Word)
      requires Sound() && va < SIZE && Aligned(va, width)
      requires Indexes(cache.lines, s, w) && cache.lines[s][w].valid && cache.lines[s][w].tag == BlockStart(va, LINE)
      ensures forall m: Memory | InStep(am, fillable, cache.lines, m) ::
                am.pa(va) + width.Bytes() <= SIZE && data == Load(m, am.pa(va), width)
    {
      hide Injective, Replicated, InStep, Load, FirstLane, BlocksMapped;
      data := cache.lines[s][w].data[WordIndex(va, LINE)];
      ghost var word := data;
      if width != WordType {
        data := SelectLanes(data, va, width);
      }
      forall m: Memory | InStep(am, fillable, cache.lines, m)
        ensures am.pa(va) + width.Bytes() <= SIZE && data == Load(m, am.pa(va), width)
      {
        LineServes(am, fillable, cache.lines, m, s, w, va, width, word, data);
      }
    }

    /** `cache->data[i] = word` */
    method SetWord(s: nat, w: nat, i: nat, word: Word)
      requires Sound() && Indexes(cache.lines, s, w) && i < |cache.lines[s][w].data|
      modifies cache`lines
      ensures Sound() && Indexes(cache.lines, s, w)
      ensures var l := old(cache.lines)[s][w];
              cache.lines == Replace(old(cache.lines), s, w, l.(data := l.data[i := word])) && cache.lines[s][w] == l.(data := l.data[i := word])
    {
      hide Injective, BlocksMapped, Replicated;
      ghost var l := cache.lines[s][w];
      ReplaceShaped(cache.lines, cache.width, cache.ways, s, w, l.(data := l.data[i := word]));
      cache.lines := Replace(cache.lines, s, w, cache.lines[s][w].(data := cache.lines[s][w].data[i := word]));
    }

    /** The line fill of a cacheable read miss.  The tag stored after the fill is the one Alloc stored. */
    method FillLine(va: nat, pa: nat) returns (s: nat, w: nat)
      requires Valid() && mmuEnabled && cacheEnabled && Mapped(am, va) && pa == am.pa(va) && fillable(va)
      requires Missed(cache.lines, va, LINE)
      modifies cache, bus
      ensures Valid() && bus.mem == old(bus.mem)
      ensures Indexes(cache.lines, s, w) && cache.lines[s][w].valid && cache.lines[s][w].tag == BlockStart(va, LINE)
      ensures s == cache.Set(va)
    {
      hide Injective, BlocksMapped, Replicated, InStep, MapOf, Permitted;
      ghost var ls := cache.lines;
      BlockAt(am, va);
      assert FillableAt(fillable, tr, ac, va);
      s, w := cache.Alloc(va, 0);
      ghost var k := cache.lines[s][w];
      var fetch := BlockStart(pa, LINE);
      FetchAt(am, va);
      FillWords(s, w, fetch);
      ghost var l := cache.lines[s][w];
      ReplaceTwice(ls, s, w, k, l);
      FillStep(am, fillable, ls, bus.mem, s, w, l, va);
    }

    method FillWords(s: nat, w: nat, fetch: nat)
      requires Sound() && Indexes(cache.lines, s, w) && cache.lines[s][w].Width() == LINE
      requires fetch % 4 == 0 && fetch + LINE <= SIZE
      modifies cache`lines
      ensures Sound() && Indexes(cache.lines, s, w)
      ensures var l := old(cache.lines)[s][w]; var l' := cache.lines[s][w];
              && cache.lines == Replace(old(cache.lines), s, w, l') && l' == l.(data := l'.data) && l'.Width() == LINE
              && forall i | 0 <= i < 4 :: l'.data[i] == Load(bus.mem, fetch + 4 * i, WordType)
    {
      hide Injective, BlocksMapped, Replicated;
      ghost var ls := cache.lines;
      ReplaceSelf(ls, s, w);
      for i := 0 to 4
        invariant Sound() && Indexes(cache.lines, s, w)
        invariant var l' := cache.lines[s][w];
                  && cache.lines == Replace(ls, s, w, l') && l' == ls[s][w].(data := l'.data) && l'.Width() == LINE
                  && forall j | 0 <= j < i :: l'.data[j] == Load(bus.mem, fetch + 4 * j, WordType)
      {
        var word := bus.Read(fetch + 4 * i, WordType);
        ReplaceTwice(ls, s, w, cache.lines[s][w], cache.lines[s][w].(data := cache.lines[s][w].data[i := word]));
        SetWord(s, w, i, word);
      }
    }

    /** mmu_read.  `data0` is what the caller's buffer holds before.  The fault is the one that translating
        and checking every access would give, although a hit does neither; the data are those on the bus.  A hit
        returns what the lines hold even when they are not in step with the bus. */
    method MmuRead(va: nat, width: Width, data0: Word) returns (fault: Fault, data: Word)
      requires Sound() && va < SIZE && (Valid() || !Missed(cache.lines, va, LINE))
      requires (mmuEnabled && alignCheck) || Aligned(va, width)
      modifies tlb, tlb.entries, cache, bus
      ensures Sound() && bus.mem == old(bus.mem)
      ensures old(Valid()) ==>
                && Valid() && fault == Outcome(va, width, true)
                && (fault == NoFault ==> Target(va) + width.Bytes() <= SIZE)
                && data == (if fault == NoFault then Load(bus.mem, Target(va), width) else data0)
                && (fault == NoFault && mmuEnabled && cacheEnabled && am.cacheable(va) ==> !Missed(cache.lines, va, LINE))
      ensures mmuEnabled && cacheEnabled && Aligned(va, width) && !old(Missed(cache.lines, va, LINE)) ==>
                && fault == NoFault && cache.lines == old(cache.lines)
                && forall m: Memory | InStep(am, fillable, cache.lines, m) ::
                     am.pa(va) + width.Bytes() <= SIZE && data == Load(m, am.pa(va), width)
    {
      hide Injective, BlocksMapped, Replicated, InStep, CheckAccess, FirstLane, Load;
      if !mmuEnabled {
        Position(va, width);
        data := bus.Read(va, width);
        return NoFault, data;
      }
      if alignCheck && !Aligned(va, width) {
        return AlignmentFault, data0;
      }
      if cacheEnabled {
        var way := cache.Search(va);
        if way.Some? {
          data := ReadLine(cache.Set(va), way.value, va, width);
          if Valid() { HitPermitted(am, fillable, cache.lines, bus.mem, cache.Set(va), way.value, va); }
          assert FillableAt(fillable, tr, ac, va) && MapsAs(am, tr, va);
          return NoFault, data;
        }
      }
      fault, data := ReadTranslated(va, width, data0);
    }

    /** The part of mmu_read from the translation on. */
    method ReadTranslated(va: nat, width: Width, data0: Word) returns (fault: Fault, data: Word)
      requires Valid() && mmuEnabled && va < SIZE && Aligned(va, width)
      requires cacheEnabled ==> Missed(cache.lines, va, LINE)
      modifies tlb, tlb.entries, cache, bus
      ensures Valid() && bus.mem == old(bus.mem) && fault == Permitted(tr, ac, va, true)
      ensures fault == NoFault ==> am.pa(va) + width.Bytes() <= SIZE
      ensures data == if fault == NoFault then Load(bus.mem, am.pa(va), width) else data0
      ensures fault == NoFault && cacheEnabled && am.cacheable(va) ==> !Missed(cache.lines, va, LINE)
    {
      hide Injective, BlocksMapped, Replicated, InStep, CheckAccess, FirstLane;
      data := data0;
      var e: Option<TlbEntry>;
      fault, e := TranslateData(va, true);
      if fault != NoFault {
        return;
      }
      assert MapsAs(am, tr, va) && FillableAt(fillable, tr, ac, va);
      var pa := e.value.Pa(va);
      if e.value.Cacheable() && cacheEnabled {
        var s, w := FillLine(va, pa);
        data := ReadLine(s, w, va, width);
        assert InStep(am, fillable, cache.lines, bus.mem);
      } else {
        AlignedTarget(am, va, width);
        data := bus.Read(pa, width);
      }
    }

    /** The hit of a write: merge the lanes into the addressed word. */
    method WriteHit(s: nat, w: nat, va: nat, width: Width, data: Word)
      requires Sound() && Indexes(cache.lines, s, w) && cache.lines[s][w].valid
      modifies cache`lines
      ensures Sound() && Indexes(cache.lines, s, w)
      ensures cache.lines == Replace(old(cache.lines), s, w, cache.lines[s][w])
      ensures WrittenLine(old(cache.lines)[s][w], cache.lines[s][w], va, data, width)
    {
      hide Injective, BlocksMapped, Replicated;
      var word, i := data, WordIndex(va, LINE);
      if !width.WordType? {
        word := MergeIntoWord(cache.lines[s][w].data[i], data, va, width);
      }
      SetWord(s, w, i, word);
    }

    /** Would a write that faults after its hit leave a line different from the bus? */
    ghost predicate RunsAhead(va: nat, width: Width, data: Word)
      requires |cache.lines| > 0
      reads this, bus, cache
    {
      && mmuEnabled && cacheEnabled && Aligned(va, width) && !Missed(cache.lines, va, LINE)
      && !(am.pa(va) + width.Bytes() <= SIZE && AlreadyThere(bus.mem, am.pa(va), data, width))
    }

    /** A write that faults although the address may be read and cached, and whose bytes differ: some cache contents
        let it run ahead. */
    ghost predicate MayRunAhead(va: nat, width: Width, data: Word, m: Memory)
      requires Configured()
    {
      && mmuEnabled && cacheEnabled && va < SIZE && Aligned(va, width)
      && Permitted(tr, ac, va, true) == NoFault && am.cacheable(va) && Permitted(tr, ac, va, false) != NoFault
      && am.pa(va) + width.Bytes() <= SIZE && !AlreadyThere(m, am.pa(va), data, width)
    }

    /** The part of mmu_write from the translation on. */
    method WriteTranslated(va: nat, width: Width, data: Word) returns (fault: Fault)
      requires Sound() && va < SIZE && Aligned(va, width)
      modifies tlb, tlb.entries, bus
      ensures Sound() && fault == Permitted(tr, ac, va, false)
      ensures fault == NoFault ==> Mapped(am, va) && am.pa(va) + width.Bytes() <= SIZE
      ensures bus.mem == if fault == NoFault then Store(old(bus.mem), am.pa(va), data, width) else old(bus.mem)
    {
      hide Injective, BlocksMapped, Replicated, CheckAccess;
      var e: Option<TlbEntry>;
      fault, e := TranslateData(va, false);
      if fault == NoFault {
        assert MapsAs(am, tr, va);
        AlignedTarget(am, va, width);
        bus.Write(e.value.Pa(va), data, width);
      }
    }

    /** The part of mmu_write after the alignment check. */
    method WriteAligned(va: nat, width: Width, data: Word) returns (fault: Fault)
      requires Valid() && va < SIZE && mmuEnabled && Aligned(va, width)
      modifies tlb, tlb.entries, cache`lines, bus
      ensures Sound() && fault == Permitted(tr, ac, va, false)
      ensures fault == NoFault ==> am.pa(va) + width.Bytes() <= SIZE
      ensures bus.mem == if fault == NoFault then Store(old(bus.mem), am.pa(va), data, width) else old(bus.mem)
      ensures Valid() <==> fault == NoFault || !old(RunsAhead(va, width, data))
      ensures fault != NoFault && old(RunsAhead(va, width, data)) ==>
                && MayRunAhead(va, width, data, old(bus.mem)) && !Missed(cache.lines, va, LINE)
                && InStep(am, fillable, cache.lines, Store(old(bus.mem), am.pa(va), data, width))
    {
      hide Injective, BlocksMapped, Replicated, InStep, CheckAccess, AlreadyThere, WrittenLine, Shaped, FirstLane, Overwrite;
      var way := None;
      ghost var ls := cache.lines;
      if cacheEnabled {
        way := cache.Search(va);
        if way.Some? {
          WriteHit(cache.Set(va), way.value, va, width, data);
        }
      }
      ghost var ls', s, m := cache.lines, cache.Set(va), bus.mem;
      fault := WriteTranslated(va, width, data);
      if fault == NoFault {
        if way.Some? {
          HitStep(am, fillable, ls, m, s, way.value, ls'[s][way.value], va, data, width);
        } else if cacheEnabled {
          MissStep(am, fillable, ls, m, va, data, width);
        }
      } else if way.Some? {
        FaultStep(am, fillable, ls, m, s, way.value, ls'[s][way.value], va, data, width);
        assert FillableAt(fillable, tr, ac, va) && MapsAs(am, tr, va);
      }
    }

    /** mmu_write.  A write that meets no fault stores its bytes on the bus and keeps every line in step.  One
        that meets a fault leaves the bus as it is, and the lines in step exactly unless it ran ahead. */
    method MmuWrite(va: nat, width: Width, data: Word) returns (fault: Fault)
      requires Valid() && va < SIZE
      requires (mmuEnabled && alignCheck) || Aligned(va, width)
      modifies tlb, tlb.entries, cache`lines, bus
      ensures Sound() && fault == Outcome(va, width, false)
      ensures fault == NoFault ==> Target(va) + width.Bytes() <= SIZE
      ensures bus.mem == if fault == NoFault then Store(old(bus.mem), Target(va), data, width) else old(bus.mem)
      ensures Valid() <==> fault == NoFault || !old(RunsAhead(va, width, data))
      ensures fault != NoFault && old(RunsAhead(va, width, data)) ==>
                && MayRunAhead(va, width, data, old(bus.mem)) && !Missed(cache.lines, va, LINE)
                && InStep(am, fillable, cache.lines, Store(old(bus.mem), am.pa(va), data, width))
    {
      hide Injective, BlocksMapped, Replicated, InStep, CheckAccess, AlreadyThere, MapOf, Missed;
      if !mmuEnabled {
        Position(va, width);
        bus.Write(va, data, width);
        return NoFault;
      }
      if alignCheck && !Aligned(va, width) {
        return AlignmentFault;
      }
      fault := WriteAligned(va, width, data);
    }
  }

  /** A word of a line, in a memory that the line mirrors. */
  lemma MirroredWord(am: AddressMap, m: Memory, l: Line, va: nat)
    requires BlocksMapped(am, LINE) && Mapped(am, va) && Mirrors(am, m, l) && l.tag == BlockStart(va, LINE)
    requires va % LINE == 4 * WordIndex(va, LINE) + va % 4
    ensures var a := am.pa(va) - va % 4;
            && 0 <= a && a + 4 <= SIZE && WordIndex(va, LINE) < |l.data|
            && forall j | 0 <= j < 4 :: l.data[WordIndex(va, LINE)].At(j) == m[a + j]
  {
    hide BlocksMapped;
    BlockAt(am, va);
    var i, a := WordIndex(va, LINE), am.pa(va) - va % 4;
    forall j | 0 <= j < 4 ensures l.data[i].At(j) == m[a + j] {
      ByteOfWord(l, i, j);
      assert m[am.pa(l.tag) + (4 * i + j)] == l.ByteAt(4 * i + j);
    }
  }

  lemma LineServes(am: AddressMap, fillable: nat -> bool, ls: Lines, m: Memory, s: nat, w: nat, va: nat, width: Width, word: Word, data: Word)
    requires BlocksMapped(am, LINE) && InStep(am, fillable, ls, m) && va < SIZE && Aligned(va, width)
    requires Indexes(ls, s, w) && ls[s][w].valid && ls[s][w].tag == BlockStart(va, LINE)
    requires WordIndex(va, LINE) < |ls[s][w].data| && word == ls[s][w].data[WordIndex(va, LINE)]
    requires width == WordType ==> data == word
    requires width != WordType ==>
               forall j | 0 <= j < 4 :: data.At(j) == if j < width.Bytes() then word.At(FirstLane(va, width) + j) else 0
    ensures am.pa(va) + width.Bytes() <= SIZE && data == Load(m, am.pa(va), width)
  {
    HitPermitted(am, fillable, ls, m, s, w, va);
    assert Mirrors(am, m, ls[s][w]);
    Position(va, width);
    MirroredWord(am, m, ls[s][w], va);
    hide InStep, BlocksMapped, Mirrors;
    SelectionLoads(m, am.pa(va) - va % 4, va, width, word, data);
  }

  /** A write that hits and then faults: the lines are those of the write, had it reached the bus. */
  lemma FaultStep(am: AddressMap, fillable: nat -> bool, ls: Lines, m: Memory, s: nat, w: nat, l': Line, va: nat, data: Word, width: Width)
    requires Injective(am) && BlocksMapped(am, LINE) && InStep(am, fillable, ls, m) && va < SIZE && Aligned(va, width)
    requires |ls| > 0 && s == SetIndex(Block(va, LINE), |ls|)
    requires Indexes(ls, s, w) && ls[s][w].valid && ls[s][w].tag == BlockStart(va, LINE) && WrittenLine(ls[s][w], l', va, data, width)
    ensures Mapped(am, va) && fillable(BlockStart(va, LINE)) && am.pa(va) + width.Bytes() <= SIZE
    ensures var ls' := Replace(ls, s, w, l');
            && (InStep(am, fillable, ls', m) <==> AlreadyThere(m, am.pa(va), data, width))
            && InStep(am, fillable, ls', Store(m, am.pa(va), data, width)) && !Missed(ls', va, LINE)
  {
    hide Injective, BlocksMapped, InStep, AlreadyThere;
    HitPermitted(am, fillable, ls, m, s, w, va);
    AlignedTarget(am, va, width);
    HitStep(am, fillable, ls, m, s, w, l', va, data, width);
    AheadStep(am, fillable, ls, m, s, w, l', va, data, width);
    assert Replace(ls, s, w, l')[s][w] == l';
  }

  /** A hit line may be filled, and its address is mapped. */
  lemma HitPermitted(am: AddressMap, fillable: nat -> bool, ls: Lines, m: Memory, s: nat, w: nat, va: nat)
    requires BlocksMapped(am, LINE) && InStep(am, fillable, ls, m) && va < SIZE
    requires Indexes(ls, s, w) && ls[s][w].valid && ls[s][w].tag == BlockStart(va, LINE)
    ensures Mapped(am, va) && fillable(BlockStart(va, LINE))
  {
    assert BlockMapped(am, va, LINE);
  }

  lemma FetchAt(am: AddressMap, va: nat)
    requires BlocksMapped(am, LINE) && Mapped(am, va)
    ensures BlockStart(am.pa(va), LINE) == am.pa(BlockStart(va, LINE)) && BlockStart(am.pa(va), LINE) % 4 == 0
  {
    BlockAt(am, va);
    Division(am.pa(va), LINE, am.pa(BlockStart(va, LINE)) / LINE, va % LINE);
    AlignedBlock(am.pa(va), LINE);
  }

  lemma AlignedTarget(am: AddressMap, va: nat, width: Width)
    requires BlocksMapped(am, LINE) && Mapped(am, va) && Aligned(va, width)
    ensures Aligned(am.pa(va), width) && am.pa(va) + width.Bytes() <= SIZE
  {
    BlockAt(am, va);
    Position(va, width);
    var q := am.pa(BlockStart(va, LINE)) / LINE;
    match width
    case ByteType =>
    case HalfwordType =>
      Division(va, 2, 8 * (va / LINE) + va % LINE / 2, va % LINE % 2);
      Division(am.pa(va), 2, 8 * q + va % LINE / 2, va % LINE % 2);
    case WordType =>
      Division(am.pa(va), 4, 4 * q + WordIndex(va, LINE), va % 4);
  }

  datatype Op = Read(va: nat, width: Width, buffer: Word) | Write(va: nat, width: Width, data: Word)

  /** Accesses of the model's scope. */
  predicate Legal(cpu: Arm7tdmi, op: Op) {
    op.va < SIZE && ((cpu.mmuEnabled && cpu.alignCheck) || Aligned(op.va, op.width))
  }

  predicate AllLegal(cpu: Arm7tdmi, ops: seq<Op>) {
    forall i | 0 <= i < |ops| :: Legal(cpu, ops[i])
  }

  /** The reference machine: the bus alone. */
  ghost function BusStep(cpu: Arm7tdmi, op: Op, m: Memory): ((Fault, Word), Memory)
    requires cpu.Configured() && Legal(cpu, op)
  {
    TargetFits(cpu, op.va, op.width, op.Read?);
    var a, fault := cpu.Target(op.va), cpu.Outcome(op.va, op.width, op.Read?);
    match op
    case Read(_, width, buffer) => ((fault, if fault == NoFault then Load(m, a, width) else buffer), m)
    case Write(_, width, data) => ((fault, data), if fault == NoFault then Store(m, a, data, width) else m)
  }

  lemma TargetFits(cpu: Arm7tdmi, va: nat, width: Width, read: bool)
    requires cpu.Configured() && va < SIZE && ((cpu.mmuEnabled && cpu.alignCheck) || Aligned(va, width))
    ensures cpu.Outcome(va, width, read) == NoFault ==> cpu.Target(va) + width.Bytes() <= SIZE
  {
    if cpu.Outcome(va, width, read) == NoFault {
      Position(va, width);
      if cpu.mmuEnabled {
        assert MapsAs(cpu.am, cpu.tr, va);
        AlignedTarget(cpu.am, va, width);
      }
    }
  }

  ghost function BusRun(cpu: Arm7tdmi, ops: seq<Op>, m: Memory): (r: (seq<(Fault, Word)>, Memory))
    requires cpu.Configured() && AllLegal(cpu, ops)
    ensures |r.0| == |ops|
  {
    if ops == [] then ([], m)
    else
      var n := |ops| - 1;
      var (answers, m') := BusRun(cpu, ops[..n], m);
      var (answer, m'') := BusStep(cpu, ops[n], m');
      (answers + [answer], m'')
  }

  /** No write of a run is one that some cache contents let run ahead.  The reference machine decides. */
  ghost predicate Orderly(cpu: Arm7tdmi, ops: seq<Op>, m: Memory)
    requires cpu.Configured() && AllLegal(cpu, ops)
  {
    forall i | 0 <= i < |ops| && ops[i].Write? :: !cpu.MayRunAhead(ops[i].va, ops[i].width, ops[i].data, BusRun(cpu, ops[..i], m).1)
  }

  /** Over every run of reads and writes, faulting or not, of which none may run ahead, cache and bus together answer as
      the bus alone would. */
  method Run(cpu: Arm7tdmi, ops: seq<Op>) returns (answers: seq<(Fault, Word)>)
    requires cpu.Valid() && AllLegal(cpu, ops) && Orderly(cpu, ops, cpu.bus.mem)
    modifies cpu.tlb, cpu.tlb.entries, cpu.cache, cpu.bus
    ensures cpu.Valid() && (answers, cpu.bus.mem) == BusRun(cpu, ops, old(cpu.bus.mem))
  {
    hide Injective, BlocksMapped, Replicated, InStep, CheckAccess, BusStep, Arm7tdmi.MayRunAhead;
    answers := [];
    for i := 0 to |ops|
      invariant cpu.Valid() && (answers, cpu.bus.mem) == BusRun(cpu, ops[..i], old(cpu.bus.mem))
    {
      assert ops[..i + 1][..i] == ops[..i];
      var answer := Step(cpu, ops[i]);
      answers := answers + [answer];
    }
    assert ops[..|ops|] == ops;
  }

  method Step(cpu: Arm7tdmi, op: Op) returns (answer: (Fault, Word))
    requires cpu.Valid() && Legal(cpu, op)
    requires op.Write? ==> !cpu.MayRunAhead(op.va, op.width, op.data, cpu.bus.mem)
    modifies cpu.tlb, cpu.tlb.entries, cpu.cache, cpu.bus
    ensures cpu.Valid() && (answer, cpu.bus.mem) == BusStep(cpu, op, old(cpu.bus.mem))
  {
    hide Injective, BlocksMapped, Replicated, InStep, CheckAccess, Arm7tdmi.MayRunAhead;
    match op {
      case Read(va, width, buffer) =>
        var fault, data := cpu.MmuRead(va, width, buffer);
        answer := (fault, data);
      case Write(va, width, data) =>
        var fault := cpu.MmuWrite(va, width, data);
        answer := (fault, data);
    }
  }

  lemma LoadByte(m: Memory, a: nat, width: Width, k: nat)
    requires a + width.Bytes() <= SIZE && k < width.Bytes()
    ensures Load(m, a, width).At(k) == m[a + k]
  {
  }

  lemma StoredByte(m: Memory, a: nat, data: Word, width: Width, k: nat)
    requires a + width.Bytes() <= SIZE && k < width.Bytes()
    ensures |BytesOf(data, width)| == width.Bytes() && Store(m, a, data, width)[a + k] == BytesOf(data, width)[k]
  {
  }

  lemma StoreSame(m: Memory, a: nat, data: Word, width: Width)
    requires a + width.Bytes() <= SIZE && AlreadyThere(m, a, data, width)
    ensures Store(m, a, data, width) == m
  {
    var m', bs := Store(m, a, data, width), BytesOf(data, width);
    forall x | 0 <= x < SIZE ensures m'[x] == m[x] {
      if a <= x < a + |bs| { assert m[a..a + |bs|][x - a] == bs[x - a]; }
    }
  }

  lemma LoadSame(m: Memory, a: nat, data: Word, width: Width)
    requires a + width.Bytes() <= SIZE
    ensures Load(Store(m, a, data, width), a, width) == Load(m, a, width) <==> AlreadyThere(m, a, data, width)
  {
    hide Load, Store, BytesOf, Word.At;
    if Load(Store(m, a, data, width), a, width) == Load(m, a, width) {
      StoredByte(m, a, data, width, 0);
      forall k | 0 <= k < width.Bytes() ensures m[a + k] == BytesOf(data, width)[k] {
        LoadByte(m, a, width, k);
        LoadByte(Store(m, a, data, width), a, width, k);
        StoredByte(m, a, data, width, k);
      }
      assert m[a..a + width.Bytes()] == BytesOf(data, width);
    }
    if AlreadyThere(m, a, data, width) { StoreSame(m, a, data, width); }
  }

  /** The condition is exact: every write that may run ahead does so after a read of its address, from any state.  The
      bus keeps its bytes, and the next load returns those of the refused store. */
  method AheadOfBus(cpu: Arm7tdmi, va: nat, width: Width, data: Word) returns (fault: Fault, loaded: Word)
    requires cpu.Valid() && cpu.MayRunAhead(va, width, data, cpu.bus.mem)
    modifies cpu.tlb, cpu.tlb.entries, cpu.cache, cpu.bus
    ensures fault == cpu.Outcome(va, width, false) != NoFault && cpu.bus.mem == old(cpu.bus.mem) && cpu.Sound() && !cpu.Valid()
    ensures loaded == Load(Store(cpu.bus.mem, cpu.am.pa(va), data, width), cpu.am.pa(va), width) != Load(cpu.bus.mem, cpu.am.pa(va), width)
  {
    hide Injective, BlocksMapped, Replicated, InStep, CheckAccess, Load, Missed, AlreadyThere;
    var first;
    first, loaded := cpu.MmuRead(va, width, data);
    fault := cpu.MmuWrite(va, width, data);
    LoadSame(cpu.bus.mem, cpu.am.pa(va), data, width);
    first, loaded := cpu.MmuRead(va, width, data);
  }

  /** What tables in memory make of an access. */
  ghost predicate AccessOf(cpu: Arm7tdmi, space: Tables.Space, va: nat, width: Width, read: bool, fault: Fault, target: nat)
    requires cpu.Configured()
  {
    if !cpu.mmuEnabled then fault == NoFault && target == va
    else if cpu.alignCheck && va % width.Bytes() != 0 then fault == AlignmentFault
    else
      match Tables.PageOf(space, va)
      case None => fault == PageTranslationFault
      case Some(p) =>
        && p.domain < |cpu.ac.domains| && fault == Tables.Admitted(cpu.ac, p, va, read)
        && target == p.page.Base(p.mapping) + p.mapping.Offset(va)
  }

  /** From tables in memory to the access: alignment, walk, check and offset in the page together. */
  lemma EncodedAccess(cpu: Arm7tdmi, pt: PageTables, space: Tables.Space, va: nat, width: Width, read: bool)
    requires cpu.Configured() && cpu.tr == Walker(pt) && Tables.Encodes(pt, space) && va < SIZE
    ensures AccessOf(cpu, space, va, width, read, cpu.Outcome(va, width, read), cpu.Target(va))
  {
    hide CheckAccess, Injective, BlocksMapped, Replicated, MapOf, Walk, Tables.Encodes, Tables.PageOf, Tables.Admitted, FillableAt;
    assert width.ByteType? ==> va % 1 == 0;
    TranslatedNow(cpu, va);
    Tables.WalkEncoded(pt, space, va);
    if Walk(pt, va).Some? {
      Tables.AccessEncoded(pt, space, cpu.ac, va, read);
    }
  }

  lemma TranslatedNow(cpu: Arm7tdmi, va: nat)
    requires cpu.Configured()
    ensures cpu.tr(va).Some? ==> cpu.tr(va).value.domain < |cpu.ac.domains| && cpu.am.pa(va) == cpu.tr(va).value.Pa(va)
  {
    hide Injective, BlocksMapped, Replicated, FillableAt;
    assert MapsAs(cpu.am, cpu.tr, va);
  }

  /** Tables that map every megabyte to itself, cacheable and without access permissions. */
  const IDENTITY := PageTables(0, (a: nat) => 0x10_0000 * (a / 4 % 0x1000) + 10)

  /** Every domain checks permissions; with the S bit, sections without permissions may be read. */
  const READ_ONLY := AccessControl(seq(16, i => 1), true, false)

  lemma IdentityFields(k: nat)
    requires k < 0x1000
    ensures var d := 0x10_0000 * k + 10;
            d % 4 == 2 && d / 0x400 % 4 == 0 && d / 4 % 4 == 2 && d / 0x20 % 0x10 == 0 && AlignDown(d, 0x10_0000) == 0x10_0000 * k
  {
    var d := 0x10_0000 * k + 10;
    Division(d, 4, 0x4_0000 * k + 2, 2);
    Division(0x4_0000 * k + 2, 4, 0x1_0000 * k, 2);
    Division(d, 0x400, 0x400 * k, 10);
    Division(0x400 * k, 4, 0x100 * k, 0);
    Division(d, 0x20, 0x8000 * k, 10);
    Division(0x8000 * k, 0x10, 0x800 * k, 0);
    Division(d, 0x10_0000, k, 10);
  }

  lemma IdentityLeaf(k: nat, fine: nat, coarse: nat)
    ensures var d := 0x10_0000 * (k % 0x1000) + 10;
            Descend(IDENTITY, k, fine, coarse) == Some(Leaf(d, 8, d, Section))
  {
    IdentityFields(k % 0x1000);
    assert AlignDown(0, 0x4000) + 4 * k == 4 * k;
    Division(4 * k, 4, k, 0);
    assert IDENTITY.word(4 * k) == 0x10_0000 * (k % 0x1000) + 10;
  }

  /** The walk of the `k`th megabyte. */
  lemma IdentityWalk(va: nat, k: nat)
    requires k == va / 0x10_0000
    ensures Walk(IDENTITY, va) == Some(TlbEntry(AlignDown(va, 0x10_0000), 0x10_0000 * (k % 0x1000), 8, 0, Section))
  {
    hide Descend;
    IdentityFields(k % 0x1000);
    IdentityLeaf(k, va / 0x400 % 0x400, va / 0x1000 % 0x100);
  }

  lemma SameMegabyte(x: nat, y: nat)
    requires AlignDown(x, 0x10_0000) == AlignDown(y, 0x10_0000)
    ensures x / 0x10_0000 == y / 0x10_0000
  {
  }

  lemma IdentityAddress(va: nat)
    ensures va < SIZE ==> MapOfTables(IDENTITY).pa(va) == va
  {
    hide Walk;
    var k := va / 0x10_0000;
    IdentityWalk(va, k);
    assert va < SIZE ==> k % 0x1000 == k;
  }

  /** Identity tables meet what the models ask of their tables. */
  lemma IdentityTables()
    ensures Replicated(Walker(IDENTITY)) && Injective(MapOfTables(IDENTITY))
  {
    forall x: nat, y: nat | Walk(IDENTITY, x).Some? && Walk(IDENTITY, x).value.Matches(y)
      ensures Walk(IDENTITY, y) == Walk(IDENTITY, x)
    {
      IdentityWalk(x, x / 0x10_0000);
      IdentityWalk(y, y / 0x10_0000);
      SameMegabyte(x, y);
    }
    forall x: nat, y: nat ensures Separate(MapOfTables(IDENTITY), x, y) {
      IdentityAddress(x);
      IdentityAddress(y);
    }
  }

  /** Address 0 may be read and cached, but not written. */
  lemma IdentityPermissions()
    ensures Permitted(Walker(IDENTITY), READ_ONLY, 0, true) == NoFault
    ensures Permitted(Walker(IDENTITY), READ_ONLY, 0, false) == SectionPermissionFault
    ensures MapOfTables(IDENTITY).cacheable(0)
  {
    hide Walk, CheckAccess, TlbEntry.Cacheable, Permitted, Walker, MapOfTables, AlignDown;
    IdentityWalk(0, 0);
    StartAligned(0x10_0000);
    SectionPermissions(TlbEntry(0, 0, 8, 0, Section));
    WalkedPermissions(IDENTITY, READ_ONLY, 0, TlbEntry(0, 0, 8, 0, Section));
  }

  lemma StartAligned(n: nat)
    requires n > 0
    ensures AlignDown(0, n) == 0
  {
  }

  lemma WalkedPermissions(pt: PageTables, ac: AccessControl, va: nat, e: TlbEntry)
    requires e.domain < |ac.domains|
    ensures Walk(pt, va) == Some(e) ==>
              && (forall read :: Permitted(Walker(pt), ac, va, read) == CheckAccess(ac, va, e, read))
              && MapOfTables(pt).cacheable(va) == e.Cacheable()
  {
    hide Walk, CheckAccess, TlbEntry.Cacheable;
  }

  lemma SectionPermissions(e: TlbEntry)
    requires e == TlbEntry(0, 0, 8, 0, Section)
    ensures CheckAccess(READ_ONLY, 0, e, true) == NoFault && CheckAccess(READ_ONLY, 0, e, false) == SectionPermissionFault
    ensures e.Cacheable()
  {
    assert READ_ONLY.domains[0] == 1;
    assert Ap(8, 3) == 0;
  }

  /** A refused store of 1 to address 0, which may be read and cached: the bus keeps what it held, and a load returns 1. */
  method AbortedStore(mem: Memory) returns (cpu: Arm7tdmi, fault: Fault, loaded: Word)
    requires mem[0] != 1
    ensures fault == SectionPermissionFault && cpu.bus.mem == mem && cpu.Sound() && !cpu.Valid()
    ensures loaded == Word(1, 0, 0, 0) != Load(mem, 0, WordType)
  {
    hide Injective, BlocksMapped, Replicated, InStep, MapOf, Missed, Permitted, Tlb.Valid, Shaped, Walk, CheckAccess;
    IdentityTables();
    IdentityPermissions();
    IdentityAddress(0);
    var one := Word(1, 0, 0, 0);
    assert !AlreadyThere(mem, 0, one, WordType) by {
      assert mem[0..4][0] != BytesOf(one, WordType)[0];
    }
    var bus := new Bus(mem);
    cpu := new Arm7tdmi(IDENTITY, READ_ONLY, true, true, true, bus);
    fault, loaded := AheadOfBus(cpu, 0, WordType, one);
  }
}
