/** Page tables in memory, and what the walk of tlb.cpp reads out of them: frame, flags, permissions and domain come back
    as they were written, for every address. */
module Tables {
  import opened Arithmetic
  import opened Words
  import opened Tlb
  import opened Wrappers

  /** What a descriptor says of a page: the number of its frame, its flags, and the access permissions of its quarters.
      Sections and tiny pages have one permission, `ap0`. */
  datatype Page = Page(frame: nat, cacheable: bool, bufferable: bool, ap0: nat, ap1: nat, ap2: nat, ap3: nat) {
    predicate Legal(mapping: Mapping) {
      ap0 < 4 && ap1 < 4 && ap2 < 4 && ap3 < 4 && Base(mapping) + mapping.Size() <= SIZE
    }

    /** The first address of the frame. */
    function Base(mapping: Mapping): nat {
      match mapping
      case SmallPage => 0x1000 * frame
      case LargePage => 0x1_0000 * frame
      case Section => 0x10_0000 * frame
      case TinyPage => 0x400 * frame
    }

    function Flags(): (n: nat)
      ensures n <= 12 && n % 4 == 0
    {
      (if cacheable then 8 else 0) + if bufferable then 4 else 0
    }

    /** The permission of the quarter of the page that an address lies in. */
    function Permission(mapping: Mapping, va: nat): nat {
      match mapping
      case Section => ap0
      case TinyPage => ap0
      case SmallPage => Quarter(va % 0x1000 / 0x400)
      case LargePage => Quarter(va % 0x1_0000 / 0x4000)
    }

    function Quarter(k: nat): nat {
      if k == 0 then ap0 else if k == 1 then ap1 else if k == 2 then ap2 else ap3
    }
  }

  /** A slot of a second-level table. */
  datatype Slot = Empty | Slot(mapping: Mapping, page: Page)

  /** A megabyte: unmapped, a section, or divided by a coarse or fine table at an address. */
  datatype Region =
    | Hole
    | Whole(domain: nat, page: Page)
    | Coarse(domain: nat, table: nat, slots: nat -> Slot)
    | Fine(domain: nat, table: nat, slots: nat -> Slot)

  type Space = nat -> Region

  /** Formats of the descriptors, as the architecture defines them. */
  function SectionWord(domain: nat, page: Page): nat {
    0x10_0000 * page.frame + 0x400 * page.ap0 + 0x20 * domain + 0x10 + page.Flags() + 2
  }

  function CoarseWord(domain: nat, table: nat): nat {
    table + 0x20 * domain + 0x10 + 1
  }

  function FineWord(domain: nat, table: nat): nat {
    table + 0x20 * domain + 0x10 + 3
  }

  function PermissionBits(page: Page): nat {
    0x400 * page.ap3 + 0x100 * page.ap2 + 0x40 * page.ap1 + 0x10 * page.ap0 + page.Flags()
  }

  function SlotWord(slot: Slot): nat {
    match slot
    case Empty => 0
    case Slot(mapping, page) =>
      match mapping
      case LargePage => 0x1_0000 * page.frame + PermissionBits(page) + 1
      case SmallPage => 0x1000 * page.frame + PermissionBits(page) + 2
      case TinyPage => 0x400 * page.frame + 0x10 * page.ap0 + page.Flags() + 3
      case Section => 0
  }

  predicate LegalSlot(slot: Slot) {
    slot.Slot? ==> !slot.mapping.Section? && slot.page.Legal(slot.mapping)
  }

  predicate SlotAt(pt: PageTables, a: nat, slot: Slot) {
    LegalSlot(slot) && pt.word(a) == SlotWord(slot)
  }

  /** Do tables hold the `k`th megabyte? */
  ghost predicate RegionAt(pt: PageTables, k: nat, region: Region) {
    var word := FirstWord(pt, k);
    match region
    case Hole => word == 0
    case Whole(domain, page) => domain < 16 && page.Legal(Section) && word == SectionWord(domain, page)
    case Coarse(domain, table, slots) =>
      && domain < 16 && table % 0x400 == 0 && word == CoarseWord(domain, table)
      && forall i: nat | i < 0x100 :: SlotAt(pt, table + 4 * i, slots(i))
    case Fine(domain, table, slots) =>
      && domain < 16 && table % 0x1000 == 0 && word == FineWord(domain, table)
      && forall i: nat | i < 0x400 :: SlotAt(pt, table + 4 * i, slots(i))
  }

  ghost predicate Encodes(pt: PageTables, space: Space) {
    forall k: nat | k < 0x1000 :: RegionAt(pt, k, space(k))
  }

  /** The page of an address.  A coarse table has no tiny pages. */
  datatype Mapped = Mapped(domain: nat, mapping: Mapping, page: Page)

  function CoarseSlot(va: nat): nat { va % 0x10_0000 / 0x1000 }

  function FineSlot(va: nat): nat { va % 0x10_0000 / 0x400 }

  function PageOf(space: Space, va: nat): Option<Mapped> {
    match space(va / 0x10_0000)
    case Hole => None
    case Whole(domain, page) => Some(Mapped(domain, Section, page))
    case Coarse(domain, _, slots) =>
      var slot := slots(CoarseSlot(va));
      if slot.Empty? || slot.mapping.TinyPage? then None else Some(Mapped(domain, slot.mapping, slot.page))
    case Fine(domain, _, slots) =>
      var slot := slots(FineSlot(va));
      if slot.Empty? then None else Some(Mapped(domain, slot.mapping, slot.page))
  }

  /** Is an entry what the tables say of an address? */
  predicate Tells(e: TlbEntry, p: Mapped, va: nat) {
    && e.mapping == p.mapping && e.domain == p.domain
    && e.virt == p.mapping.Start(va) && e.phys == p.page.Base(p.mapping) && e.Pa(va) == p.page.Base(p.mapping) + p.mapping.Offset(va)
    && e.Cacheable() == p.page.cacheable && e.Bufferable() == p.page.bufferable
    && ApOf(e, va) == p.page.Permission(p.mapping, va)
  }

  /** Extraction of a digit. */
  lemma Digit(x: nat, low: nat, d: nat, n: nat, high: nat, r: nat)
    requires low > 0 && n > 0 && d < n && r < low && x == low * (n * high + d) + r
    ensures x / low % n == d
  {
    Division(x, low, n * high + d, r);
    Division(n * high + d, n, high, d);
  }

  lemma FlagDigits(page: Page, x: nat, high: nat)
    requires x == 0x10 * high + page.Flags()
    ensures (x / 8 % 2 == 1) == page.cacheable && (x / 4 % 2 == 1) == page.bufferable
  {
    var c, b := if page.cacheable then 1 else 0, if page.bufferable then 1 else 0;
    Digit(x, 8, c, 2, high, 4 * b);
    Digit(x, 4, b, 2, 2 * high + c, 0);
  }

  lemma ApDigits(x: nat, a: nat, b: nat, c: nat, d: nat, f: nat)
    requires a < 4 && b < 4 && c < 4 && d < 4 && f < 0x10
    requires x == 0x400 * d + 0x100 * c + 0x40 * b + 0x10 * a + f
    ensures Ap(x, 0) == a && Ap(x, 1) == b && Ap(x, 2) == c && Ap(x, 3) == d
  {
    Digit(x, 0x10, a, 4, 0x10 * d + 4 * c + b, f);
    Digit(x, 0x40, b, 4, 4 * d + c, 0x10 * a + f);
    Digit(x, 0x100, c, 4, d, 0x40 * b + 0x10 * a + f);
    Digit(x, 0x400, d, 4, 0, 0x100 * c + 0x40 * b + 0x10 * a + f);
  }

  lemma PermissionDigits(page: Page)
    requires page.ap0 < 4 && page.ap1 < 4 && page.ap2 < 4 && page.ap3 < 4
    ensures var x := PermissionBits(page);
            && x < 0x1000 && x % 4 == 0 && (x / 8 % 2 == 1) == page.cacheable && (x / 4 % 2 == 1) == page.bufferable
            && Ap(x, 0) == page.ap0 && Ap(x, 1) == page.ap1 && Ap(x, 2) == page.ap2 && Ap(x, 3) == page.ap3
  {
    hide Ap, Page.Flags;
    var x, f := PermissionBits(page), page.Flags();
    Division(x, 4, 0x100 * page.ap3 + 0x40 * page.ap2 + 0x10 * page.ap1 + 4 * page.ap0 + f / 4, 0);
    FlagDigits(page, x, 0x40 * page.ap3 + 0x10 * page.ap2 + 4 * page.ap1 + page.ap0);
    ApDigits(x, page.ap0, page.ap1, page.ap2, page.ap3, f);
  }

  /** `desc & 0xFFC` and the frame of a descriptor of the second level. */
  lemma LargeWord(page: Page)
    requires page.Legal(LargePage)
    ensures var d := SlotWord(Slot(LargePage, page));
            d < SIZE && d % 4 == 1 && 4 * (d / 4 % 0x400) == PermissionBits(page) && AlignDown(d, 0x1_0000) == 0x1_0000 * page.frame
  {
    var x := PermissionBits(page);
    PermissionDigits(page);
    hide PermissionBits;
    Division(0x1_0000 * page.frame + x + 1, 0x1_0000, page.frame, x + 1);
    SecondLevel(0x10 * page.frame, x, 1);
  }

  lemma SmallWord(page: Page)
    requires page.Legal(SmallPage)
    ensures var d := SlotWord(Slot(SmallPage, page));
            d < SIZE && d % 4 == 2 && 4 * (d / 4 % 0x400) == PermissionBits(page) && AlignDown(d, 0x1000) == 0x1000 * page.frame
  {
    var x := PermissionBits(page);
    PermissionDigits(page);
    hide PermissionBits;
    Division(0x1000 * page.frame + x + 2, 0x1000, page.frame, x + 2);
    SecondLevel(page.frame, x, 2);
  }

  /** The low twelve bits of a descriptor with a multiple of 4 and its type in them. */
  lemma SecondLevel(g: nat, x: nat, t: nat)
    requires x % 4 == 0 && x < 0x1000 && t < 4
    ensures var d := 0x1000 * g + x + t; d % 4 == t && 4 * (d / 4 % 0x400) == x
  {
    var d := 0x1000 * g + x + t;
    Division(d, 4, 0x400 * g + x / 4, t);
    Division(0x400 * g + x / 4, 0x400, g, x / 4);
  }

  /** A tiny page has two bits of its frame among them. */
  lemma TinyWord(page: Page)
    requires page.Legal(TinyPage)
    ensures var d := SlotWord(Slot(TinyPage, page)); var perms := 4 * (d / 4 % 0x400);
            && d < SIZE && d % 4 == 3 && AlignDown(d, 0x400) == 0x400 * page.frame && Ap(perms, 0) == page.ap0
            && (perms / 8 % 2 == 1) == page.cacheable && (perms / 4 % 2 == 1) == page.bufferable
  {
    hide Page.Flags, Ap;
    var f, g := page.frame % 4, page.frame / 4;
    var x := 0x400 * f + 0x10 * page.ap0 + page.Flags();
    Division(page.frame, 4, g, f);
    Division(0x400 * page.frame + 0x10 * page.ap0 + page.Flags() + 3, 0x400, page.frame, 0x10 * page.ap0 + page.Flags() + 3);
    SecondLevel(g, x, 3);
    FlagDigits(page, x, 0x40 * f + page.ap0);
    ApDigits(x, page.ap0, 0, 0, f, page.Flags());
  }

  lemma WholeFields(domain: nat, page: Page)
    requires domain < 16 && page.Legal(Section)
    ensures var d := SectionWord(domain, page);
            d < SIZE && d % 4 == 2 && d / 0x20 % 0x10 == domain && AlignDown(d, 0x10_0000) == 0x10_0000 * page.frame
  {
    hide Page.Flags;
    var d, f := SectionWord(domain, page), page.Flags();
    Division(d, 0x10_0000, page.frame, 0x400 * page.ap0 + 0x20 * domain + 0x10 + f + 2);
    Digit(d, 0x20, domain, 0x10, 0x800 * page.frame + 2 * page.ap0, 0x10 + f + 2);
    Division(d, 4, 4 * (0x1_0000 * page.frame + 0x40 * page.ap0 + 2 * domain + 1) + f / 4, 2);
  }

  /** `desc & 0xC0C` of a section. */
  lemma WholeBits(domain: nat, page: Page)
    requires domain < 16 && page.ap0 < 4
    ensures var d := SectionWord(domain, page);
            0x400 * (d / 0x400 % 4) + 4 * (d / 4 % 4) == 0x400 * page.ap0 + page.Flags()
  {
    hide Page.Flags;
    var d, f := SectionWord(domain, page), page.Flags();
    Digit(d, 0x400, page.ap0, 4, 0x100 * page.frame, 0x20 * domain + 0x10 + f + 2);
    Digit(d, 4, f / 4, 4, 0x1_0000 * page.frame + 0x40 * page.ap0 + 2 * domain + 1, 2);
  }

  lemma WholeWord(domain: nat, page: Page)
    requires domain < 16 && page.Legal(Section)
    ensures var d := SectionWord(domain, page); var perms := 0x400 * (d / 0x400 % 4) + 4 * (d / 4 % 4);
            && d < SIZE && d % 4 == 2 && d / 0x20 % 0x10 == domain && AlignDown(d, 0x10_0000) == 0x10_0000 * page.frame
            && Ap(perms, 3) == page.ap0 && (perms / 8 % 2 == 1) == page.cacheable && (perms / 4 % 2 == 1) == page.bufferable
  {
    hide SectionWord, AlignDown, Page.Flags, Ap;
    WholeFields(domain, page);
    WholeBits(domain, page);
    var x := 0x400 * page.ap0 + page.Flags();
    FlagDigits(page, x, 0x40 * page.ap0);
    ApDigits(x, 0, 0, 0, page.ap0, page.Flags());
  }

  lemma CoarseFields(domain: nat, table: nat)
    requires domain < 16 && table % 0x400 == 0
    ensures var d := CoarseWord(domain, table); d % 4 == 1 && AlignDown(d, 0x400) == table && d / 0x20 % 0x10 == domain
  {
    var d, t := CoarseWord(domain, table), table / 0x400;
    assert table == 0x400 * t;
    Division(d, 4, 0x100 * t + 8 * domain + 4, 1);
    Division(d, 0x400, t, 0x20 * domain + 0x11);
    Digit(d, 0x20, domain, 0x10, 2 * t, 0x11);
  }

  lemma FineFields(domain: nat, table: nat)
    requires domain < 16 && table % 0x1000 == 0
    ensures var d := FineWord(domain, table); d % 4 == 3 && AlignDown(d, 0x1000) == table && d / 0x20 % 0x10 == domain
  {
    var d, t := FineWord(domain, table), table / 0x1000;
    assert table == 0x1000 * t;
    Division(d, 4, 0x400 * t + 8 * domain + 4, 3);
    Division(d, 0x1000, t, 0x20 * domain + 0x13);
    Digit(d, 0x20, domain, 0x10, 8 * t, 0x13);
  }

  /** The fields of an address, counted from its megabyte and from its page. */
  lemma AddressFields(va: nat)
    ensures CoarseIndex(va) == CoarseSlot(va) < 0x100 && FineIndex(va) == FineSlot(va) < 0x400
    ensures va / 0x400 % 4 == va % 0x1000 / 0x400 && va / 0x4000 % 4 == va % 0x1_0000 / 0x4000
    ensures va < SIZE ==> FirstIndex(va) < 0x1000
  {
    Nested(va, 0x1000, 0x100, 0x10_0000);
    Nested(va, 0x400, 0x400, 0x10_0000);
    Nested(va, 0x400, 4, 0x1000);
    Nested(va, 0x4000, 4, 0x1_0000);
  }

  lemma Nested(va: nat, low: nat, n: nat, size: nat)
    requires low > 0 && n > 0 && size == low * n
    ensures size > 0 && va / low % n == va % size / low && va % size / low < n
  {
    var q, r := va / low, va % low;
    var high, d := q / n, q % n;
    Parts(va, low);
    Parts(q, n);
    Distribute(low, n, high, d);
    DigitFits(low, n, d, r);
    Division(va, size, high, low * d + r);
    Division(low * d + r, low, d, r);
  }

  lemma DigitFits(low: nat, n: nat, d: nat, r: nat)
    requires d < n && r < low
    ensures low * d + r < low * n
  {
    NonNegative(low, n - 1 - d);
    Distribute(low, 1, n - 1 - d, d + 1);
  }

  /** The entry that a walk makes of a leaf. */
  function EntryOf(va: nat, desc: nat, perms: nat, domain: nat, mapping: Mapping): TlbEntry {
    TlbEntry(mapping.Start(va), mapping.Start(desc), perms, domain, mapping)
  }

  lemma SlotTells(va: nat, domain: nat, mapping: Mapping, page: Page)
    requires !mapping.Section? && page.Legal(mapping)
    ensures var d := SlotWord(Slot(mapping, page));
            && d < SIZE && d % 4 == (if mapping.LargePage? then 1 else if mapping.SmallPage? then 2 else 3)
            && Tells(EntryOf(va, d, 4 * (d / 4 % 0x400), domain, mapping), Mapped(domain, mapping, page), va)
  {
    hide SlotWord, Ap, Mapping.Offset, FineIndex, CoarseIndex, FineSlot, CoarseSlot, FirstIndex, AlignDown;
    AddressFields(va);
    match mapping
    case LargePage =>
      LargeWord(page);
      PermissionDigits(page);
    case SmallPage =>
      SmallWord(page);
      PermissionDigits(page);
    case TinyPage => TinyWord(page);
  }

  lemma WholeTells(va: nat, domain: nat, page: Page)
    requires domain < 16 && page.Legal(Section)
    ensures var d := SectionWord(domain, page); var perms := 0x400 * (d / 0x400 % 4) + 4 * (d / 4 % 4);
            Tells(EntryOf(va, d, perms, domain, Section), Mapped(domain, Section, page), va)
  {
    hide SectionWord, Ap;
    WholeWord(domain, page);
  }

  lemma WalkLeaf(pt: PageTables, va: nat)
    ensures match Descend(pt, FirstIndex(va), FineIndex(va), CoarseIndex(va))
            case None => Walk(pt, va) == None
            case Some(leaf) => Walk(pt, va) == Some(EntryOf(va, leaf.desc, leaf.perms, leaf.l1desc / 0x20 % 0x10, leaf.mapping))
  {
    hide Descend, FirstIndex, FineIndex, CoarseIndex, AlignDown;
  }

  lemma DescendHole(pt: PageTables, first: nat, fine: nat, coarse: nat)
    requires FirstWord(pt, first) == 0
    ensures Descend(pt, first, fine, coarse) == None
  {
  }

  lemma DescendWhole(pt: PageTables, first: nat, fine: nat, coarse: nat)
    requires FirstWord(pt, first) % 4 == 2
    ensures var d := FirstWord(pt, first);
            Descend(pt, first, fine, coarse) == Some(Leaf(d, 0x400 * (d / 0x400 % 4) + 4 * (d / 4 % 4), d, Section))
  {
  }

  lemma DescendCoarse(pt: PageTables, first: nat, fine: nat, coarse: nat)
    requires FirstWord(pt, first) % 4 == 1
    ensures var d := FirstWord(pt, first); var w := pt.word(AlignDown(d, 0x400) + 4 * coarse);
            Descend(pt, first, fine, coarse) ==
            if w % 4 == 0 || w % 4 == 3 then None
            else Some(Leaf(w, 4 * (w / 4 % 0x400), d, if w % 4 == 1 then LargePage else SmallPage))
  {
  }

  lemma DescendFine(pt: PageTables, first: nat, fine: nat, coarse: nat)
    requires FirstWord(pt, first) % 4 == 3
    ensures var d := FirstWord(pt, first); var w := pt.word(AlignDown(d, 0x1000) + 4 * fine);
            Descend(pt, first, fine, coarse) ==
            if w % 4 == 0 then None
            else Some(Leaf(w, 4 * (w / 4 % 0x400), d, if w % 4 == 1 then LargePage else if w % 4 == 2 then SmallPage else TinyPage))
  {
  }

  lemma WalkHole(pt: PageTables, va: nat)
    requires RegionAt(pt, FirstIndex(va), Hole)
    ensures Walk(pt, va) == None
  {
    hide Walk, Descend, FirstWord, FirstIndex, FineIndex, CoarseIndex;
    WalkLeaf(pt, va);
    DescendHole(pt, FirstIndex(va), FineIndex(va), CoarseIndex(va));
  }

  lemma WalkWhole(pt: PageTables, va: nat, domain: nat, page: Page)
    requires RegionAt(pt, FirstIndex(va), Whole(domain, page))
    ensures Walk(pt, va).Some? && Tells(Walk(pt, va).value, Mapped(domain, Section, page), va)
  {
    hide Walk, Descend, FirstWord, FirstIndex, FineIndex, CoarseIndex, SectionWord, Tells, AlignDown, Page.Legal, EntryOf;
    WalkLeaf(pt, va);
    WholeWord(domain, page);
    WholeTells(va, domain, page);
    DescendWhole(pt, FirstIndex(va), FineIndex(va), CoarseIndex(va));
  }

  lemma SlotIn(pt: PageTables, table: nat, slots: nat -> Slot, n: nat, i: nat)
    requires i < n && forall j: nat | j < n :: SlotAt(pt, table + 4 * j, slots(j))
    ensures SlotAt(pt, table + 4 * i, slots(i))
  {
    hide SlotAt;
  }

  lemma WalkCoarse(pt: PageTables, va: nat, domain: nat, table: nat, slots: nat -> Slot)
    requires RegionAt(pt, FirstIndex(va), Coarse(domain, table, slots))
    ensures var slot := slots(CoarseSlot(va));
            if slot.Empty? || slot.mapping.TinyPage? then Walk(pt, va) == None
            else Walk(pt, va).Some? && Tells(Walk(pt, va).value, Mapped(domain, slot.mapping, slot.page), va)
  {
    hide Walk, Descend, FirstWord, FirstIndex, FineIndex, CoarseIndex, CoarseSlot, FineSlot, CoarseWord, Tells, AlignDown, Page.Legal, EntryOf;
    AddressFields(va);
    CoarseFields(domain, table);
    WalkLeaf(pt, va);
    DescendCoarse(pt, FirstIndex(va), FineIndex(va), CoarseIndex(va));
    var slot := slots(CoarseSlot(va));
    SlotIn(pt, table, slots, 0x100, CoarseSlot(va));
    SlotType(slot);
    if slot.Slot? { SlotTells(va, domain, slot.mapping, slot.page); }
  }

  lemma SlotType(slot: Slot)
    requires LegalSlot(slot)
    ensures var d := SlotWord(slot);
            && (slot.Empty? ==> d == 0)
            && (slot.Slot? ==> d % 4 == if slot.mapping.LargePage? then 1 else if slot.mapping.SmallPage? then 2 else 3)
  {
    hide SlotWord, Page.Legal, Tells;
    if slot.Slot? { SlotTells(0, 0, slot.mapping, slot.page); } else { assert SlotWord(Empty) == 0 by { EmptyWord(); } }
  }

  lemma EmptyWord()
    ensures SlotWord(Empty) == 0
  {
  }

  lemma WalkFine(pt: PageTables, va: nat, domain: nat, table: nat, slots: nat -> Slot)
    requires RegionAt(pt, FirstIndex(va), Fine(domain, table, slots))
    ensures var slot := slots(FineSlot(va));
            if slot.Empty? then Walk(pt, va) == None
            else Walk(pt, va).Some? && Tells(Walk(pt, va).value, Mapped(domain, slot.mapping, slot.page), va)
  {
    hide Walk, Descend, FirstWord, FirstIndex, FineIndex, CoarseIndex, CoarseSlot, FineSlot, FineWord, Tells, AlignDown, Page.Legal, EntryOf;
    AddressFields(va);
    FineFields(domain, table);
    WalkLeaf(pt, va);
    DescendFine(pt, FirstIndex(va), FineIndex(va), CoarseIndex(va));
    var slot := slots(FineSlot(va));
    SlotIn(pt, table, slots, 0x400, FineSlot(va));
    SlotType(slot);
    if slot.Slot? { SlotTells(va, domain, slot.mapping, slot.page); }
  }

  /** The walk reads out of tables exactly what they say of an address, whatever pages they divide the space into. */
  lemma WalkEncoded(pt: PageTables, space: Space, va: nat)
    requires Encodes(pt, space) && va < SIZE
    ensures match PageOf(space, va)
            case None => Walk(pt, va) == None
            case Some(p) => Walk(pt, va).Some? && Tells(Walk(pt, va).value, p, va)
  {
    hide Walk, Tells, RegionAt, FineIndex, CoarseIndex, CoarseSlot, FineSlot;
    AddressFields(va);
    assert RegionAt(pt, FirstIndex(va), space(FirstIndex(va)));
    match space(va / 0x10_0000)
    case Hole => WalkHole(pt, va);
    case Whole(domain, page) => WalkWhole(pt, va, domain, page);
    case Coarse(domain, table, slots) => WalkCoarse(pt, va, domain, table, slots);
    case Fine(domain, table, slots) => WalkFine(pt, va, domain, table, slots);
  }

  /** What the architecture lets a privileged access do, by the permission bits and the S and R bits of the control
      register. */
  datatype Rights = NoAccess | ReadOnly | ReadWrite

  function Privileged(ac: AccessControl, ap: nat): Rights {
    if ap > 0 then ReadWrite else if ac.system || ac.rom then ReadOnly else NoAccess
  }

  predicate Allows(rights: Rights, read: bool) {
    rights.ReadWrite? || (rights.ReadOnly? && read)
  }

  /** The fault of an access: domains are closed (0, reserved 2), checked (1) or open (3). */
  function Admitted(ac: AccessControl, p: Mapped, va: nat, read: bool): Fault
    requires p.domain < |ac.domains|
  {
    var access := ac.domains[p.domain] % 4;
    if access == 3 || (access == 1 && Allows(Privileged(ac, p.page.Permission(p.mapping, va)), read)) then NoFault
    else if access != 1 then SectionDomainFault
    else if p.mapping.Section? then SectionPermissionFault
    else SubpagePermissionFault
  }

  /** Walk and check together: an access meets the fault that the tables and the domains give it. */
  lemma AccessEncoded(pt: PageTables, space: Space, ac: AccessControl, va: nat, read: bool)
    requires Encodes(pt, space) && va < SIZE && PageOf(space, va).Some? && PageOf(space, va).value.domain < |ac.domains|
    ensures Walk(pt, va).Some? && Walk(pt, va).value.domain == PageOf(space, va).value.domain
    ensures CheckAccess(ac, va, Walk(pt, va).value, read) == Admitted(ac, PageOf(space, va).value, va, read)
  {
    hide Walk, Encodes, PageOf, ApOf, Page.Permission;
    WalkEncoded(pt, space, va);
  }

  /** Tables in memory: the first level at `base`, and behind it 4 kilobytes for the second level of each megabyte. */
  function TableAt(base: nat, k: nat): nat {
    base + 0x4000 + 0x1000 * k
  }

  ghost predicate Placed(base: nat, k: nat, region: Region) {
    match region
    case Hole => true
    case Whole(domain, page) => domain < 16 && page.Legal(Section)
    case Coarse(domain, table, slots) =>
      domain < 16 && table == TableAt(base, k) && forall i: nat | i < 0x100 :: LegalSlot(slots(i))
    case Fine(domain, table, slots) =>
      domain < 16 && table == TableAt(base, k) && forall i: nat | i < 0x400 :: LegalSlot(slots(i))
  }

  function RegionWord(region: Region): nat {
    match region
    case Hole => 0
    case Whole(domain, page) => SectionWord(domain, page)
    case Coarse(domain, table, _) => CoarseWord(domain, table)
    case Fine(domain, table, _) => FineWord(domain, table)
  }

  function SecondWord(region: Region, i: nat): nat {
    match region
    case Coarse(_, _, slots) => if i < 0x100 then SlotWord(slots(i)) else 0
    case Fine(_, _, slots) => SlotWord(slots(i))
    case _ => 0
  }

  /** The word at an address of the tables. */
  function TableWord(space: Space, base: nat, a: nat): nat {
    if a < base then 0
    else if a < base + 0x4000 then RegionWord(space((a - base) / 4))
    else SecondWord(space((a - base - 0x4000) / 0x1000), (a - base - 0x4000) % 0x1000 / 4)
  }

  function Encode(space: Space, base: nat): PageTables {
    PageTables(base, (a: nat) => var word := TableWord(space, base, a); if word < SIZE then word else 0)
  }

  lemma FirstPlace(space: Space, base: nat, k: nat)
    requires base % 0x4000 == 0 && k < 0x1000
    ensures RegionWord(space(k)) < SIZE ==> FirstWord(Encode(space, base), k) == RegionWord(space(k))
  {
    hide RegionWord, SecondWord;
    Division(4 * k, 4, k, 0);
  }

  lemma SecondPlace(space: Space, base: nat, k: nat, i: nat)
    requires i < 0x400
    ensures SecondWord(space(k), i) < SIZE ==> Encode(space, base).word(TableAt(base, k) + 4 * i) == SecondWord(space(k), i)
  {
    hide RegionWord, SecondWord;
    Division(0x1000 * k + 4 * i, 0x1000, k, 4 * i);
    Division(4 * i, 4, i, 0);
  }

  lemma SlotBounded(slot: Slot)
    requires LegalSlot(slot)
    ensures SlotWord(slot) < SIZE
  {
    hide SlotWord, Tells, Page.Legal;
    if slot.Slot? { SlotTells(0, 0, slot.mapping, slot.page); } else { EmptyWord(); }
  }

  lemma RegionBounded(base: nat, k: nat, region: Region)
    requires base + 0x100_4000 <= SIZE && k < 0x1000 && Placed(base, k, region)
    ensures RegionWord(region) < SIZE
  {
    if region.Whole? {
      hide SectionWord;
      WholeWord(region.domain, region.page);
    }
  }

  lemma TableAligned(base: nat, k: nat)
    requires base % 0x4000 == 0
    ensures TableAt(base, k) % 0x1000 == 0 && TableAt(base, k) % 0x400 == 0
  {
    var q := base / 0x4000;
    assert base == 0x4000 * q;
    Division(TableAt(base, k), 0x1000, 4 * q + 4 + k, 0);
    Division(TableAt(base, k), 0x400, 4 * (4 * q + 4 + k), 0);
  }

  lemma EncodedRegion(space: Space, base: nat, k: nat)
    requires base % 0x4000 == 0 && base + 0x100_4000 <= SIZE && k < 0x1000 && Placed(base, k, space(k))
    ensures RegionAt(Encode(space, base), k, space(k))
  {
    hide Encode, TableAt, FirstWord, SlotWord, SectionWord, CoarseWord, FineWord, LegalSlot, Page.Legal;
    var pt := Encode(space, base);
    RegionBounded(base, k, space(k));
    FirstPlace(space, base, k);
    TableAligned(base, k);
    forall i: nat | i < 0x400 ensures SecondWord(space(k), i) < SIZE ==> pt.word(TableAt(base, k) + 4 * i) == SecondWord(space(k), i) {
      SecondPlace(space, base, k, i);
    }
    if space(k).Coarse? || space(k).Fine? {
      var n := if space(k).Coarse? then 0x100 else 0x400;
      forall i: nat | i < n ensures SlotAt(pt, TableAt(base, k) + 4 * i, space(k).slots(i)) {
        SlotBounded(space(k).slots(i));
        assert SecondWord(space(k), i) == SlotWord(space(k).slots(i));
      }
    }
  }

  /** Any space can be written as tables, from which the walk reads it back. */
  lemma EncodeRoundTrip(space: Space, base: nat, va: nat)
    requires base % 0x4000 == 0 && base + 0x100_4000 <= SIZE && va < SIZE
    requires forall k: nat | k < 0x1000 :: Placed(base, k, space(k))
    ensures match PageOf(space, va)
            case None => Walk(Encode(space, base), va) == None
            case Some(p) => Walk(Encode(space, base), va).Some? && Tells(Walk(Encode(space, base), va).value, p, va)
  {
    hide Walk, Tells, RegionAt, Placed, Encode, PageOf;
    forall k: nat | k < 0x1000 ensures RegionAt(Encode(space, base), k, space(k)) {
      EncodedRegion(space, base, k);
    }
    WalkEncoded(Encode(space, base), space, va);
  }
}
