/** Address translation (tlb.cpp): the page-table walk, the permission check, and the lookaside buffer
    that remembers walks. */
module Tlb {
  import opened Arithmetic
  import opened Words
  import opened Wrappers

  datatype Fault = NoFault | AlignmentFault | PageTranslationFault
                 | SectionDomainFault | SectionPermissionFault | SubpagePermissionFault

  /** `tlb_mapping`, without the XScale page that no walk produces. */
  datatype Mapping = SmallPage | LargePage | Section | TinyPage {
    /** Page size: the complement of `tlb_masks[mapping]`, plus one. */
    function Size(): (n: nat)
      ensures n > 0
    {
      match this case SmallPage => 0x1000 case LargePage => 0x1_0000 case Section => 0x10_0000 case TinyPage => 0x400
    }

    /** `addr & tlb_masks[mapping]` */
    function Start(a: nat): nat {
      match this
      case SmallPage => AlignDown(a, 0x1000)
      case LargePage => AlignDown(a, 0x1_0000)
      case Section => AlignDown(a, 0x10_0000)
      case TinyPage => AlignDown(a, 0x400)
    }

    /** `addr & ~tlb_masks[mapping]` */
    function Offset(a: nat): nat {
      match this
      case SmallPage => a % 0x1000
      case LargePage => a % 0x1_0000
      case Section => a % 0x10_0000
      case TinyPage => a % 0x400
    }
  }

  datatype TlbEntry = TlbEntry(virt: nat, phys: nat, perms: nat, domain: nat, mapping: Mapping) {
    predicate Matches(va: nat) {
      mapping.Start(va) == virt
    }

    /** tlb_c_flag */
    predicate Cacheable() {
      perms / 8 % 2 == 1
    }

    /** tlb_b_flag */
    predicate Bufferable() {
      perms / 4 % 2 == 1
    }

    /** tlb_va_to_pa; `phys` is already aligned on the page. */
    function Pa(va: nat): nat {
      phys + mapping.Offset(va)
    }
  }

  type Descriptor = d: nat | d < SIZE

  /** The translation table base and the words of the tables, which no access of a run changes. */
  datatype PageTables = PageTables(base: nat, word: nat -> Descriptor)

  /** The descriptors a walk ends with. */
  datatype Leaf = Leaf(desc: Descriptor, perms: nat, l1desc: Descriptor, mapping: Mapping)

  /** The two levels of the walk, given the fields of the address that index the tables: bits 31-20
      (first level), 19-10 (fine table) and 19-12 (coarse table). */
  function Descend(pt: PageTables, first: nat, fine: nat, coarse: nat): Option<Leaf> {
    var l1desc := pt.word(AlignDown(pt.base, 0x4000) + 4 * first);
    if l1desc % 4 == 0 then None
    else if l1desc % 4 == 3 then
      var l2desc := pt.word(AlignDown(l1desc, 0x1000) + 4 * fine);
      var perms := 4 * (l2desc / 4 % 0x400);
      if l2desc % 4 == 0 then None
      else Some(Leaf(l2desc, perms, l1desc,
                     if l2desc % 4 == 1 then LargePage else if l2desc % 4 == 2 then SmallPage else TinyPage))
    else if l1desc % 4 == 1 then
      var l2desc := pt.word(AlignDown(l1desc, 0x400) + 4 * coarse);
      var perms := 4 * (l2desc / 4 % 0x400);
      if l2desc % 4 == 0 || l2desc % 4 == 3 then None
      else Some(Leaf(l2desc, perms, l1desc, if l2desc % 4 == 1 then LargePage else SmallPage))
    else
      Some(Leaf(l1desc, 0x400 * (l1desc / 0x400 % 4) + 4 * (l1desc / 4 % 4), l1desc, Section))
  }

  function FirstIndex(va: nat): nat { va / 0x10_0000 }

  function FineIndex(va: nat): nat { va / 0x400 % 0x400 }

  function CoarseIndex(va: nat): nat { va / 0x1000 % 0x100 }

  /** The table walk of `translate`; None is a PAGE_TRANSLATION_FAULT. */
  function Walk(pt: PageTables, va: nat): Option<TlbEntry> {
    match Descend(pt, FirstIndex(va), FineIndex(va), CoarseIndex(va))
    case None => None
    case Some(leaf) =>
      Some(TlbEntry(leaf.mapping.Start(va), leaf.mapping.Start(leaf.desc), leaf.perms, leaf.l1desc / 0x20 % 0x10, leaf.mapping))
  }

  /** Domain access control (16 two-bit fields) and the S and R bits of the control register. */
  datatype AccessControl = AccessControl(domains: seq<nat>, system: bool, rom: bool)

  /** check_perms; the model's processor is never in user mode, as in the source. */
  predicate CheckPerms(ac: AccessControl, ap: nat, read: bool) {
    ap == 0 ==> read && (ac.system || ac.rom)
  }

  /** The AP bits of the subpage of an address, as check_access selects them. */
  function ApOf(e: TlbEntry, va: nat): nat {
    match e.mapping
    case TinyPage => Ap(e.perms, 0)
    case SmallPage => Ap(e.perms, va / 0x400 % 4)
    case LargePage => Ap(e.perms, va / 0x4000 % 4)
    case Section => Ap(e.perms, 3)
  }

  /** check_access */
  function CheckAccess(ac: AccessControl, va: nat, e: TlbEntry, read: bool): Fault
    requires e.domain < |ac.domains|
  {
    var access := ac.domains[e.domain] % 4;
    if access == 0 || access == 2 then SectionDomainFault
    else if access == 1 then
      if CheckPerms(ac, ApOf(e, va), read) then NoFault
      else if e.mapping.Section? then SectionPermissionFault else SubpagePermissionFault
    else NoFault
  }

  /** The AP bits of a subpage: `(perms >> (subpage * 2 + 4)) & 3`. */
  function Ap(perms: nat, subpage: nat): nat {
    if subpage == 0 then perms / 0x10 % 4
    else if subpage == 1 then perms / 0x40 % 4
    else if subpage == 2 then perms / 0x100 % 4
    else perms / 0x400 % 4
  }

  lemma Quotients(x: nat)
    ensures x / 0x1000 == x / 0x400 / 4
    ensures x / 0x1_0000 == x / 0x400 / 0x40
    ensures x / 0x10_0000 == x / 0x400 / 0x400
  {
  }

  lemma EntryUniform(x: nat, y: nat, mapping: Mapping)
    requires x / 0x400 == y / 0x400
    ensures AlignDown(x, mapping.Size()) == AlignDown(y, mapping.Size())
  {
    Quotients(x);
    Quotients(y);
    match mapping
    case SmallPage => assert AlignDown(x, 0x1000) == 0x1000 * (x / 0x1000);
    case LargePage => assert AlignDown(x, 0x1_0000) == 0x1_0000 * (x / 0x1_0000);
    case Section => assert AlignDown(x, 0x10_0000) == 0x10_0000 * (x / 0x10_0000);
    case TinyPage =>
  }

  /** Addresses of one kilobyte, the smallest page, are translated alike. */
  lemma WalkUniform(pt: PageTables, x: nat, y: nat)
    requires x / 0x400 == y / 0x400
    ensures Walk(pt, x) == Walk(pt, y)
  {
    Quotients(x);
    Quotients(y);
    var leaf := Descend(pt, x / 0x10_0000, x / 0x400 % 0x400, x / 0x1000 % 0x100);
    if leaf.Some? {
      EntryUniform(x, y, leaf.value.mapping);
    }
  }

  /** Pages fill the address space. */
  lemma PageFits(d: nat, size: nat, k: nat, f: nat, r: nat, o: nat)
    requires size * k == SIZE && d == size * f + r && d < SIZE && o < size
    ensures size * f + o < SIZE
  {
    if f >= k { NonNegative(size, f - k); } else { NonNegative(size, k - f - 1); }
  }

  /** The two masks leave start and offset of the page, by its size. */
  lemma PageParts(mapping: Mapping, a: nat)
    ensures mapping.Start(a) == a - a % mapping.Size() && mapping.Offset(a) == a % mapping.Size()
  {
  }

  lemma EntryFits(va: nat, d: Descriptor, mapping: Mapping)
    ensures mapping.Start(d) + mapping.Offset(va) < SIZE && mapping.Start(d) % mapping.Size() == 0
  {
    PageParts(mapping, d);
    PageParts(mapping, va);
    hide Mapping.Start, Mapping.Offset;
    var k := match mapping case SmallPage => 0x10_0000 case LargePage => 0x1_0000 case Section => 0x1000 case TinyPage => 0x40_0000;
    var size := mapping.Size();
    PageFits(d, size, k, d / size, d % size, va % size);
    Division(size * (d / size), size, d / size, 0);
  }

  lemma WalkEntry(pt: PageTables, va: nat)
    ensures Walk(pt, va).Some? ==>
              var e := Walk(pt, va).value;
              e.Matches(va) && e.domain < 0x10 && e.Pa(va) < SIZE && e.phys % e.mapping.Size() == 0
  {
    hide Descend, FirstIndex, FineIndex, CoarseIndex, Mapping.Start, Mapping.Offset, Mapping.Size;
    var leaf := Descend(pt, FirstIndex(va), FineIndex(va), CoarseIndex(va));
    if leaf.Some? {
      EntryFits(va, leaf.value.desc, leaf.value.mapping);
    }
  }

  /** The word of the first-level table for a megabyte. */
  function FirstWord(pt: PageTables, first: nat): Descriptor {
    pt.word(pt.base - pt.base % 0x4000 + 4 * first)
  }

  lemma DescendDomain(pt: PageTables, first: nat, fine: nat, coarse: nat)
    requires Descend(pt, first, fine, coarse).Some?
    ensures Descend(pt, first, fine, coarse).value.l1desc == FirstWord(pt, first)
  {
  }

  lemma WalkDomain(pt: PageTables, va: nat)
    ensures Walk(pt, va).Some? ==> Walk(pt, va).value.domain == FirstWord(pt, FirstIndex(va)) / 0x20 % 0x10
  {
    hide Descend, FirstIndex, FineIndex, CoarseIndex, AlignDown, FirstWord;
    if Walk(pt, va).Some? { DescendDomain(pt, FirstIndex(va), FineIndex(va), CoarseIndex(va)); }
  }

  /** The domain of a page is that of its megabyte, whatever the second level says. */
  lemma MegabyteDomain(pt: PageTables, x: nat, y: nat)
    requires x / 0x10_0000 == y / 0x10_0000
    ensures Walk(pt, x).Some? ==>
              Walk(pt, x).value.domain == pt.word(pt.base - pt.base % 0x4000 + 4 * (x / 0x10_0000)) / 0x20 % 0x10
    ensures Walk(pt, x).Some? && Walk(pt, y).Some? ==> Walk(pt, x).value.domain == Walk(pt, y).value.domain
  {
    hide Walk;
    WalkDomain(pt, x);
    WalkDomain(pt, y);
  }

  lemma PageOfBlocks(n: nat, size: nat) returns (k: nat)
    requires n == 4 || n == 16 || n == 32
    requires size == 0x400 || size == 0x1000 || size == 0x1_0000 || size == 0x10_0000
    ensures size == n * k
  {
    k := size / n;
  }

  /** Blocks of a page: the page offset of a block start, and its distance to the address. */
  lemma PageOffset(va: nat, n: nat, k: nat, size: nat, phys: nat)
    requires n > 0 && size > 0 && size == n * k && phys % size == 0
    ensures AlignDown(va, n) / size == va / size
    ensures va % size == AlignDown(va, n) % size + va % n
    ensures (phys + AlignDown(va, n) % size) % n == 0
  {
    var r := va % size;
    var j, o := r / n, r % n;
    Parts(va, size);
    Parts(r, n);
    BlockOfPage(va, n, k, size, va / size, j, o);
    BlockSum(phys, n, k, size, j);
  }

  lemma Parts(x: nat, d: nat)
    requires d > 0
    ensures x == d * (x / d) + x % d && x % d < d
  {
  }

  lemma BlockSum(phys: nat, n: nat, k: nat, size: nat, j: nat)
    requires n > 0 && size > 0 && size == n * k && phys % size == 0
    ensures (phys + n * j) % n == 0
  {
    var f := phys / size;
    Distribute(n, k, f, j);
    Division(phys + n * j, n, k * f + j, 0);
  }

  /** A translation of addresses, as `translate` computes it from tables that do not change. */
  type Translation = nat -> Option<TlbEntry>

  function Walker(pt: PageTables): Translation {
    (va: nat) => Walk(pt, va)
  }

  /** What the coherence of a cache depends on in an address translation. */
  datatype AddressMap = AddressMap(mapped: nat -> bool, pa: nat -> nat, cacheable: nat -> bool, bufferable: nat -> bool)

  predicate Mapped(am: AddressMap, va: nat) {
    va < SIZE && am.mapped(va)
  }

  /** The aligned block of `n` bytes around an address is translated as a block. */
  predicate BlockMapped(am: AddressMap, va: nat, n: nat)
    requires n > 0
  {
    var b := AlignDown(va, n);
    && am.mapped(b) == am.mapped(va) && am.cacheable(b) == am.cacheable(va) && am.bufferable(b) == am.bufferable(va)
    && (am.mapped(va) ==> am.pa(va) == am.pa(b) + va % n && am.pa(b) % n == 0 && am.pa(va) < SIZE)
  }

  ghost predicate BlocksMapped(am: AddressMap, n: nat)
    requires n > 0
  {
    forall va: nat :: BlockMapped(am, va, n)
  }

  predicate Separate(am: AddressMap, x: nat, y: nat) {
    Mapped(am, x) && Mapped(am, y) && am.pa(x) == am.pa(y) ==> x == y
  }

  /** No physical address has two virtual addresses. */
  ghost predicate Injective(am: AddressMap) {
    forall x: nat, y: nat :: Separate(am, x, y)
  }

  /** `am` is what a translation says about one address. */
  predicate MapsAs(am: AddressMap, tr: Translation, va: nat) {
    && am.mapped(va) == tr(va).Some?
    && (tr(va).Some? ==>
          var e := tr(va).value;
          am.pa(va) == e.Pa(va) && am.cacheable(va) == e.Cacheable() && am.bufferable(va) == e.Bufferable())
  }

  ghost predicate MapOf(am: AddressMap, tr: Translation) {
    forall va: nat :: MapsAs(am, tr, va)
  }

  /** The address map of page tables. */
  function MapOfTables(pt: PageTables): AddressMap {
    AddressMap((va: nat) => Walk(pt, va).Some?,
               (va: nat) => if Walk(pt, va).Some? then Walk(pt, va).value.Pa(va) else 0,
               (va: nat) => Walk(pt, va).Some? && Walk(pt, va).value.Cacheable(),
               (va: nat) => Walk(pt, va).Some? && Walk(pt, va).value.Bufferable())
  }

  lemma TablesMap(pt: PageTables)
    ensures MapOf(MapOfTables(pt), Walker(pt))
  {
  }

  /** An aligned block no larger than a page is translated as a block. */
  lemma WalkerBlocks(pt: PageTables, n: nat)
    requires n == 4 || n == 16 || n == 32
    ensures BlocksMapped(MapOfTables(pt), n)
  {
    forall va: nat ensures BlockMapped(MapOfTables(pt), va, n) {
      WalkerBlock(pt, va, n);
    }
  }

  lemma WalkerBlock(pt: PageTables, va: nat, n: nat)
    requires n == 4 || n == 16 || n == 32
    ensures BlockMapped(MapOfTables(pt), va, n)
  {
    var b := AlignDown(va, n);
    var i := PageOfBlocks(n, 0x400);
    PageOffset(va, n, i, 0x400, 0);
    WalkUniform(pt, b, va);
    if Walk(pt, va).Some? {
      WalkEntry(pt, va);
      EntryBlock(Walk(pt, va).value, va, n);
    }
  }

  lemma EntryBlock(e: TlbEntry, va: nat, n: nat)
    requires n == 4 || n == 16 || n == 32
    requires e.phys % e.mapping.Size() == 0
    ensures e.Pa(va) == e.Pa(AlignDown(va, n)) + va % n && e.Pa(AlignDown(va, n)) % n == 0
  {
    var k := PageOfBlocks(n, e.mapping.Size());
    PageOffset(va, n, k, e.mapping.Size(), e.phys);
  }

  /** Every address of a page has the descriptor of that page: what the architecture asks of the
      sixteen (or sixty-four) table slots a large or small page spans. */
  ghost predicate Replicated(tr: Translation) {
    forall x: nat, y: nat | tr(x).Some? && tr(x).value.Matches(y) :: tr(y) == tr(x)
  }

  class Tlb {
    const entries: array<Option<TlbEntry>>
    var cycle: nat

    /** Every entry was walked from some address. */
    ghost predicate Valid(tr: Translation)
      reads this, entries
    {
      && cycle < entries.Length
      && forall i | 0 <= i < entries.Length && entries[i].Some? :: exists va: nat :: tr(va) == entries[i]
    }

    /** mmu_tlb_init */
    constructor (num: nat)
      requires num > 0
      ensures fresh(entries) && cycle == 0
      ensures forall i | 0 <= i < entries.Length :: entries[i].None?
      ensures entries.Length == num
    {
      entries := new Option<TlbEntry>[num](i => None);
      cycle := 0;
    }

    /** mmu_tlb_search */
    method Search(va: nat) returns (found: Option<nat>)
      ensures found.Some? ==>
                && found.value < entries.Length
                && entries[found.value].Some? && entries[found.value].value.Matches(va)
                && forall i | 0 <= i < found.value && entries[i].Some? :: !entries[i].value.Matches(va)
      ensures found.None? ==>
                forall i | 0 <= i < entries.Length && entries[i].Some? :: !entries[i].value.Matches(va)
    {
      for i := 0 to entries.Length
        invariant forall j | 0 <= j < i && entries[j].Some? :: !entries[j].value.Matches(va)
      {
        if entries[i].Some? && entries[i].value.Matches(va) {
          return Some(i);
        }
      }
      return None;
    }

    /** Is entry `i` the first that matches an address? */
    predicate First(va: nat, i: nat)
      requires i < entries.Length
      reads this, entries
    {
      && entries[i].Some? && entries[i].value.Matches(va)
      && forall j | 0 <= j < i && entries[j].Some? :: !entries[j].value.Matches(va)
    }

    /** `translate`: a remembered entry if one matches, else a walk that is remembered. */
    method Translate(tr: Translation, va: nat) returns (r: Option<TlbEntry>)
      requires Valid(tr)
      modifies this, entries
      ensures Valid(tr)
      ensures Replicated(tr) ==> r == tr(va)
      ensures (forall i | 0 <= i < entries.Length && old(entries[i]).Some? :: !old(entries[i]).value.Matches(va)) ==> r == tr(va)
      ensures (exists i | 0 <= i < entries.Length :: old(entries[i]).Some? && old(entries[i]).value.Matches(va)) ==>
                r in old(entries[..]) && r.Some? && r.value.Matches(va)
      ensures r.Some? ==> r in entries[..]
      ensures if r.None? || exists i | 0 <= i < entries.Length :: old(First(va, i)) then entries[..] == old(entries[..]) && cycle == old(cycle)
              else entries[..] == old(entries[..])[old(cycle) := r] && cycle == (old(cycle) + 1) % entries.Length
    {
      var found := Search(va);
      if found.Some? {
        assert First(va, found.value);
        r := entries[found.value];
        return;
      }
      r := tr(va);
      if r.Some? {
        entries[cycle] := r;
        assert entries[..][cycle] == r;
        cycle := (cycle + 1) % entries.Length;
      }
    }

    /** mmu_tlb_invalidate_all */
    method InvalidateAll()
      modifies this, entries
      requires entries.Length > 0
      ensures cycle == 0 && forall i | 0 <= i < entries.Length :: entries[i].None?
    {
      for i := 0 to entries.Length
        invariant forall j | 0 <= j < i :: entries[j].None?
      {
        entries[i] := None;
      }
      cycle := 0;
    }

    /** mmu_tlb_invalidate_entry */
    method InvalidateEntry(tr: Translation, va: nat)
      requires Valid(tr)
      modifies entries
      ensures Valid(tr)
      ensures forall i | 0 <= i < entries.Length ::
                entries[i] == if old(First(va, i)) then None else old(entries[i])
    {
      var found := Search(va);
      if found.Some? {
        entries[found.value] := None;
      }
    }
  }

  /** Replication is needed: on any other tables, two translations of a fresh buffer give a wrong answer. */
  method StaleTranslation(tr: Translation, x: nat, y: nat) returns (r: Option<TlbEntry>)
    requires tr(x).Some? && tr(x).value.Matches(x) && tr(x).value.Matches(y) && tr(y) != tr(x)
    ensures r != tr(y)
  {
    var tlb := new Tlb(1);
    r := tlb.Translate(tr, x);
    assert tlb.entries[..] == [tr(x)];
    r := tlb.Translate(tr, y);
  }
}
