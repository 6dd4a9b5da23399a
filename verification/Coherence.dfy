/** Why a write-back cache, a write buffer and memory act as one flat memory.

    The state of the data side is given by four values: the lines of the cache, the queue of the
    write buffer, the memory `view` that the queue and the bus memory amount to, and the flat memory
    the processor is meant to see.  `Coherent` relates them; each lemma is one step that keeps it. */
module Coherence {
  import opened Arithmetic
  import opened Words
  import opened Tlb
  import opened WriteBuffer
  import opened Cache

  /** Size of a cache line of the data side, in bytes. */
  const LINE := 32

  /** The physical window whose read misses the ARM926 model refuses. */
  predicate InWindow(pa: nat) {
    0xe000_0000 <= pa < 0xe800_0000
  }

  lemma WindowBlock(pa: nat)
    ensures InWindow(pa) <==> pa / 0x800_0000 == 28
  {
  }

  ghost predicate Covered(ls: Lines, a: nat) {
    exists s: nat, w: nat :: Indexes(ls, s, w) && ls[s][w].Covers(a)
  }

  /** A valid line is cacheable and holds the block at its translated address. */
  predicate LineShape(am: AddressMap, l: Line) {
    && l.Fits() && l.Width() == LINE && l.tag % LINE == 0 && l.pa % LINE == 0
    && Mapped(am, l.tag) && am.cacheable(l.tag) && am.pa(l.tag) == l.pa && !InWindow(l.pa)
  }

  /** Its bytes are those of the flat memory; except in its dirty halves they are also those of the
      memory below; none of them waits in the write buffer. */
  ghost predicate LineBytes(q: seq<Entry>, view: Memory, flat: Memory, l: Line)
    requires l.Fits()
  {
    forall a | l.pa <= a < l.pa + l.Width() ::
      flat[a] == l.ByteAt(a - l.pa) && (l.DirtyAt(a - l.pa) || view[a] == flat[a]) && !Pending(q, a)
  }

  ghost predicate LineOk(am: AddressMap, q: seq<Entry>, view: Memory, flat: Memory, l: Line) {
    LineShape(am, l) && LineBytes(q, view, flat, l)
  }

  ghost predicate LinesOk(am: AddressMap, ls: Lines, q: seq<Entry>, view: Memory, flat: Memory) {
    forall s: nat, w: nat | Indexes(ls, s, w) && ls[s][w].valid ::
      LineOk(am, q, view, flat, ls[s][w]) && SetIndex(Block(ls[s][w].tag, LINE), |ls|) == s
  }

  /** At most one valid line per address. */
  ghost predicate DistinctTags(ls: Lines) {
    forall s: nat, v: nat, w: nat | Indexes(ls, s, v) && Indexes(ls, s, w) && ls[s][v].valid && ls[s][w].valid && v != w ::
      ls[s][v].tag != ls[s][w].tag
  }

  ghost predicate BufferablePa(am: AddressMap, a: nat) {
    exists x: nat :: Mapped(am, x) && am.bufferable(x) && am.pa(x) == a
  }

  ghost predicate Coherent(am: AddressMap, ls: Lines, q: seq<Entry>, view: Memory, flat: Memory) {
    LinesOk(am, ls, q, view, flat) && DistinctTags(ls) && Accounted(ls, view, flat) && QueueOk(am, q)
  }

  /** What no line covers is seen below the cache. */
  ghost predicate Accounted(ls: Lines, view: Memory, flat: Memory) {
    forall a | 0 <= a < SIZE :: Covered(ls, a) || flat[a] == view[a]
  }

  /** Only bytes of bufferable addresses wait. */
  ghost predicate QueueOk(am: AddressMap, q: seq<Entry>) {
    forall a | 0 <= a < SIZE && Pending(q, a) :: BufferablePa(am, a)
  }

  /** The lines of the cache but one are in order. */
  ghost predicate OthersOk(am: AddressMap, ls: Lines, q: seq<Entry>, view: Memory, flat: Memory, s: nat, w: nat) {
    forall t: nat, v: nat | Indexes(ls, t, v) && ls[t][v].valid && (t, v) != (s, w) ::
      LineOk(am, q, view, flat, ls[t][v]) && SetIndex(Block(ls[t][v].tag, LINE), |ls|) == t
  }

  /** Has no other line of the set this tag? */
  ghost predicate NewTag(ls: Lines, s: nat, w: nat, tag: nat) {
    forall v: nat | Indexes(ls, s, v) && ls[s][v].valid && v != w :: ls[s][v].tag != tag
  }

  lemma LineIn(am: AddressMap, ls: Lines, q: seq<Entry>, view: Memory, flat: Memory, s: nat, w: nat)
    requires LinesOk(am, ls, q, view, flat) && DistinctTags(ls) && Indexes(ls, s, w) && ls[s][w].valid
    ensures LineOk(am, q, view, flat, ls[s][w]) && SetIndex(Block(ls[s][w].tag, LINE), |ls|) == s
    ensures NewTag(ls, s, w, ls[s][w].tag)
  {
    hide LineOk, SetIndex, Block;
  }

  lemma OthersIn(am: AddressMap, ls: Lines, q: seq<Entry>, view: Memory, flat: Memory, s: nat, w: nat)
    requires LinesOk(am, ls, q, view, flat)
    ensures OthersOk(am, ls, q, view, flat, s, w)
  {
    hide LineOk, SetIndex, Block;
  }

  lemma OkParts(am: AddressMap, q: seq<Entry>, view: Memory, flat: Memory, l: Line)
    requires LineOk(am, q, view, flat, l)
    ensures l.Fits() && l.Width() == LINE && LineShape(am, l) && LineBytes(q, view, flat, l)
  {
  }

  lemma SameBlock(p: nat, r: nat, a: nat)
    requires p % LINE == 0 && r % LINE == 0 && p <= a < p + LINE && r <= a < r + LINE
    ensures p == r
  {
  }

  /** Only one valid line covers an address. */
  lemma OneLine(am: AddressMap, ls: Lines, q: seq<Entry>, view: Memory, flat: Memory, a: nat, s: nat, w: nat, t: nat, v: nat)
    requires Injective(am) && LinesOk(am, ls, q, view, flat) && DistinctTags(ls)
    requires Indexes(ls, s, w) && Indexes(ls, t, v) && ls[s][w].Covers(a) && ls[t][v].Covers(a)
    ensures s == t && w == v
  {
    var l, m := ls[s][w], ls[t][v];
    assert LineOk(am, q, view, flat, l) && LineOk(am, q, view, flat, m);
    SameBlock(l.pa, m.pa, a);
    assert Separate(am, l.tag, m.tag);
  }

  /** A line that covers an address is the line of the block `b` around it. */
  lemma CoveringTag(am: AddressMap, l: Line, a: nat, b: nat)
    requires Injective(am) && LineShape(am, l) && l.Covers(a)
    requires Mapped(am, b) && am.pa(b) % LINE == 0 && am.pa(b) <= a < am.pa(b) + LINE
    ensures l.tag == b
  {
    SameBlock(l.pa, am.pa(b), a);
    assert Separate(am, l.tag, b);
  }

  /** A cached address is covered only by the line that a search for it finds. */
  lemma CoveringLine(am: AddressMap, ls: Lines, q: seq<Entry>, view: Memory, flat: Memory, va: nat, s: nat, w: nat)
    requires Injective(am) && BlockMapped(am, va, LINE) && LinesOk(am, ls, q, view, flat)
    requires Mapped(am, va) && Indexes(ls, s, w) && ls[s][w].Covers(am.pa(va))
    ensures ls[s][w].tag == BlockStart(va, LINE) && s == SetIndex(Block(va, LINE), |ls|)
  {
    AlignedBlock(va, LINE);
    var l, b := ls[s][w], BlockStart(va, LINE);
    assert am.pa(b) % LINE == 0 && am.pa(b) <= am.pa(va) < am.pa(b) + LINE && Mapped(am, b);
    assert LineOk(am, q, view, flat, l) && SetIndex(Block(l.tag, LINE), |ls|) == s;
    CoveringTag(am, l, am.pa(va), b);
  }

  /** An aligned address is at a word of its line. */
  lemma WordOfLine(va: nat)
    requires va % 4 == 0
    ensures va % LINE == 4 * WordIndex(va, LINE)
  {
    var q, r := va / LINE, va % LINE;
    Division(va, 4, 8 * q + r / 4, r % 4);
  }

  lemma BytePosition(va: nat, j: nat)
    requires va % 4 == 0 && j < 4
    ensures AlignDown(va + j, 4) == va && (va + j) % 4 == j && (va < SIZE ==> va + j < SIZE)
    ensures BlockStart(va + j, LINE) == BlockStart(va, LINE) && Block(va + j, LINE) == Block(va, LINE)
  {
    WordOfLine(va);
    Division(va + j, 4, va / 4, j);
    Division(va + j, LINE, va / LINE, va % LINE + j);
  }

  /** The bytes of an aligned word are translated, cached and buffered together. */
  lemma WordBytes(am: AddressMap, va: nat, j: nat)
    requires BlocksMapped(am, 4) && Mapped(am, va) && va % 4 == 0 && j < 4
    ensures Mapped(am, va + j) && am.pa(va + j) == am.pa(va) + j && am.pa(va) % 4 == 0 && am.pa(va) + 4 <= SIZE
    ensures am.bufferable(va + j) == am.bufferable(va) && am.cacheable(va + j) == am.cacheable(va)
  {
    BytePosition(va, j);
    BytePosition(va, 3);
    assert BlockMapped(am, va + j, 4) && BlockMapped(am, va + 3, 4);
  }

  /** A word found in the cache is the word of the flat memory. */
  lemma CachedWord(am: AddressMap, ls: Lines, q: seq<Entry>, view: Memory, flat: Memory, va: nat, s: nat, w: nat)
    requires BlockMapped(am, va, LINE) && LinesOk(am, ls, q, view, flat)
    requires Mapped(am, va) && va % 4 == 0
    requires Indexes(ls, s, w) && ls[s][w].valid && ls[s][w].tag == BlockStart(va, LINE)
    ensures var l, i := ls[s][w], WordIndex(va, LINE);
            && i < |l.data| && l.Fits() && l.Width() == LINE && l.pa + 4 * i == am.pa(va) && am.pa(va) + 4 <= SIZE
            && !InWindow(am.pa(va))
            && forall j | 0 <= j < 4 :: l.data[i].At(j) == flat[am.pa(va) + j]
  {
    var l, i := ls[s][w], WordIndex(va, LINE);
    assert LineOk(am, q, view, flat, l);
    WordOfLine(va);
    forall j | 0 <= j < 4 ensures l.data[i].At(j) == flat[am.pa(va) + j] {
      ByteOfWord(l, i, j);
      assert flat[l.pa + (4 * i + j)] == l.ByteAt(4 * i + j);
    }
  }

  /** A missed address is not in the cache. */
  lemma MissedByte(am: AddressMap, ls: Lines, q: seq<Entry>, view: Memory, flat: Memory, va: nat)
    requires Injective(am) && BlockMapped(am, va, LINE) && LinesOk(am, ls, q, view, flat) && |ls| > 0
    requires Mapped(am, va) && Missed(ls, va, LINE)
    ensures !Covered(ls, am.pa(va))
  {
    if s: nat, w: nat :| Indexes(ls, s, w) && ls[s][w].Covers(am.pa(va)) {
      CoveringLine(am, ls, q, view, flat, va, s, w);
    }
  }

  ghost predicate Uncovered(ls: Lines, a: nat, n: nat) {
    forall x | a <= x < a + n :: !Covered(ls, x)
  }

  lemma BlockOf(am: AddressMap, va: nat)
    requires BlocksMapped(am, LINE) && Mapped(am, va)
    ensures BlockMapped(am, va, LINE)
  {
  }

  lemma MissedAlike(ls: Lines, va: nat, va': nat)
    requires |ls| > 0 && Block(va', LINE) == Block(va, LINE) && BlockStart(va', LINE) == BlockStart(va, LINE)
    ensures Missed(ls, va', LINE) == Missed(ls, va, LINE)
  {
  }

  lemma MissedWord(am: AddressMap, ls: Lines, q: seq<Entry>, view: Memory, flat: Memory, va: nat)
    requires Injective(am) && BlocksMapped(am, 4) && BlocksMapped(am, LINE) && LinesOk(am, ls, q, view, flat) && |ls| > 0
    requires Mapped(am, va) && va % 4 == 0 && Missed(ls, va, LINE)
    ensures Uncovered(ls, am.pa(va), 4)
  {
    hide LinesOk, BlocksMapped, BlockMapped, Injective, Missed, Covered, Block, BlockStart, AlignDown;
    forall a | am.pa(va) <= a < am.pa(va) + 4 ensures !Covered(ls, a) {
      var j := a - am.pa(va);
      WordBytes(am, va, j);
      BytePosition(va, j);
      BlockOf(am, va + j);
      MissedAlike(ls, va, va + j);
      MissedByte(am, ls, q, view, flat, va + j);
    }
  }

  /** Nothing of an unbuffered address waits in the buffer. */
  lemma NeverBuffered(am: AddressMap, q: seq<Entry>, va: nat)
    requires Injective(am) && Mapped(am, va) && !am.bufferable(va)
    requires QueueOk(am, q) && am.pa(va) < SIZE
    ensures !Pending(q, am.pa(va))
  {
    forall x: nat ensures Mapped(am, x) && am.bufferable(x) ==> am.pa(x) != am.pa(va) {
      assert Separate(am, x, va);
    }
  }

  /** Every address is still accounted for when one line changes. */
  lemma CoveredReplace(ls: Lines, s: nat, w: nat, l: Line, a: nat)
    requires Indexes(ls, s, w)
    ensures var ls' := Replace(ls, s, w, l);
            && (l.Covers(a) ==> Covered(ls', a))
            && (Covered(ls, a) && !ls[s][w].Covers(a) ==> Covered(ls', a))
            && (Covered(ls', a) ==> Covered(ls, a) || l.Covers(a))
  {
    var ls' := Replace(ls, s, w, l);
    assert Indexes(ls', s, w) && ls'[s][w] == l;
    if t: nat, v: nat :| Indexes(ls, t, v) && ls[t][v].Covers(a) {
      assert Indexes(ls', t, v);
    }
    if t: nat, v: nat :| Indexes(ls', t, v) && ls'[t][v].Covers(a) {
      assert Indexes(ls, t, v);
    }
  }

  lemma EmptyCoherent(am: AddressMap, ls: Lines, m: Memory)
    requires forall s: nat, w: nat | Indexes(ls, s, w) :: !ls[s][w].valid
    ensures Coherent(am, ls, [], m, m)
    ensures forall a: nat :: !Covered(ls, a)
  {
  }

  lemma ReplaceLines(am: AddressMap, ls: Lines, q: seq<Entry>, view: Memory, flat: Memory, s: nat, w: nat, l: Line)
    requires Indexes(ls, s, w) && OthersOk(am, ls, q, view, flat, s, w)
    requires l.valid ==> LineOk(am, q, view, flat, l) && SetIndex(Block(l.tag, LINE), |ls|) == s
    ensures LinesOk(am, Replace(ls, s, w, l), q, view, flat)
  {
    hide LineOk, SetIndex, Block;
    var ls' := Replace(ls, s, w, l);
    forall t: nat, v: nat | Indexes(ls', t, v) && ls'[t][v].valid
      ensures LineOk(am, q, view, flat, ls'[t][v]) && SetIndex(Block(ls'[t][v].tag, LINE), |ls'|) == t
    {
      assert Indexes(ls, t, v);
    }
  }

  lemma ReplaceTags(ls: Lines, s: nat, w: nat, l: Line)
    requires Indexes(ls, s, w) && DistinctTags(ls) && (l.valid ==> NewTag(ls, s, w, l.tag))
    ensures DistinctTags(Replace(ls, s, w, l))
  {
    var ls' := Replace(ls, s, w, l);
    forall t: nat, u: nat, v: nat | Indexes(ls', t, u) && Indexes(ls', t, v) && ls'[t][u].valid && ls'[t][v].valid && u != v
      ensures ls'[t][u].tag != ls'[t][v].tag
    {
      assert Indexes(ls, t, u) && Indexes(ls, t, v);
    }
  }

  /** Is every address seen through another line, or through the new one, or below the cache? */
  ghost predicate AccountedBut(ls: Lines, view: Memory, flat: Memory, s: nat, w: nat, l: Line)
    requires Indexes(ls, s, w)
  {
    forall a | 0 <= a < SIZE :: (Covered(ls, a) && !ls[s][w].Covers(a)) || l.Covers(a) || flat[a] == view[a]
  }

  lemma ReplaceAccounted(ls: Lines, view: Memory, flat: Memory, s: nat, w: nat, l: Line)
    requires Indexes(ls, s, w) && AccountedBut(ls, view, flat, s, w, l)
    ensures Accounted(Replace(ls, s, w, l), view, flat)
  {
    forall a | 0 <= a < SIZE ensures Covered(Replace(ls, s, w, l), a) || flat[a] == view[a] {
      CoveredReplace(ls, s, w, l, a);
      hide Covered;
    }
  }

  /** The state is coherent again when one line has changed, if every line is in order and every
      address that lost its line agrees with memory. */
  lemma ReplaceStep(am: AddressMap, ls: Lines, q: seq<Entry>, view: Memory, flat: Memory, s: nat, w: nat, l: Line)
    requires Indexes(ls, s, w) && DistinctTags(ls) && OthersOk(am, ls, q, view, flat, s, w)
    requires l.valid ==>
               LineOk(am, q, view, flat, l) && SetIndex(Block(l.tag, LINE), |ls|) == s && NewTag(ls, s, w, l.tag)
    requires AccountedBut(ls, view, flat, s, w, l) && QueueOk(am, q)
    ensures Coherent(am, Replace(ls, s, w, l), q, view, flat)
  {
    hide Indexes, LinesOk, LineOk, DistinctTags, Accounted, QueueOk, OthersOk, NewTag, AccountedBut, SetIndex, Block,
      Replace;
    ReplaceLines(am, ls, q, view, flat, s, w, l);
    ReplaceTags(ls, s, w, l);
    ReplaceAccounted(ls, view, flat, s, w, l);
  }

  /** Is each byte of `view` kept or brought up to date? */
  ghost predicate Refreshed(view': Memory, view: Memory, flat: Memory) {
    forall a | 0 <= a < SIZE :: view'[a] == view[a] || view'[a] == flat[a]
  }

  /** A line stays in order then. */
  lemma LineStays(q: seq<Entry>, view: Memory, flat: Memory, view': Memory, l: Line)
    requires l.Fits() && LineBytes(q, view, flat, l) && Refreshed(view', view, flat)
    ensures LineBytes(q, view', flat, l)
  {
  }

  lemma OthersStay(am: AddressMap, ls: Lines, q: seq<Entry>, view: Memory, flat: Memory, view': Memory, s: nat, w: nat)
    requires LinesOk(am, ls, q, view, flat) && Refreshed(view', view, flat)
    ensures OthersOk(am, ls, q, view', flat, s, w)
  {
    hide LineShape, LineBytes, Refreshed, SetIndex, Block;
    forall t: nat, v: nat | Indexes(ls, t, v) && ls[t][v].valid
      ensures LineOk(am, q, view', flat, ls[t][v]) && SetIndex(Block(ls[t][v].tag, LINE), |ls|) == t
    {
      OkParts(am, q, view, flat, ls[t][v]);
      LineStays(q, view, flat, view', ls[t][v]);
    }
  }

  /** What `view` becomes when a line is written back below the write buffer. */
  ghost predicate BroughtUp(view': Memory, view: Memory, flat: Memory, l: Line) {
    forall a | 0 <= a < SIZE :: view'[a] == if l.Covers(a) && l.DirtyAt(a - l.pa) then flat[a] else view[a]
  }

  lemma WrittenBackView(q: seq<Entry>, m: Memory, view: Memory, l: Line, flat: Memory)
    requires AllFit(q) && l.Fits() && LineBytes(q, view, flat, l)
    ensures BroughtUp(Apply(q, l.WrittenBack(m)), Apply(q, m), flat, l)
  {
    var n := l.WrittenBack(m);
    forall a | 0 <= a < SIZE ensures Apply(q, n)[a] == if l.Covers(a) && l.DirtyAt(a - l.pa) then flat[a] else Apply(q, m)[a] {
      hide Apply, Pending, AllFit;
      if l.Covers(a) && l.DirtyAt(a - l.pa) {
        assert flat[a] == l.ByteAt(a - l.pa);
        ApplyElsewhere(q, n, a);
      } else {
        ApplyPointwise(q, n, m, a);
      }
    }
  }

  lemma BroughtUpRefreshes(view': Memory, view: Memory, flat: Memory, l: Line)
    requires BroughtUp(view', view, flat, l)
    ensures Refreshed(view', view, flat)
  {
  }

  function Clean(l: Line): Line {
    l.(firstDirty := false, lastDirty := false)
  }

  lemma CleanedLine(am: AddressMap, q: seq<Entry>, view: Memory, flat: Memory, view': Memory, l: Line)
    requires l.valid && LineOk(am, q, view, flat, l) && BroughtUp(view', view, flat, l)
    ensures LineOk(am, q, view', flat, Clean(l))
  {
    var c := Clean(l);
    forall a | l.pa <= a < l.pa + l.Width()
      ensures flat[a] == c.ByteAt(a - l.pa) && view'[a] == flat[a] && !Pending(q, a)
    {
      hide Pending;
      assert flat[a] == l.ByteAt(a - l.pa) && !Pending(q, a);
    }
  }

  lemma CleanedAccounted(ls: Lines, view: Memory, flat: Memory, view': Memory, s: nat, w: nat)
    requires Indexes(ls, s, w) && Accounted(ls, view, flat) && Refreshed(view', view, flat)
    ensures AccountedBut(ls, view', flat, s, w, Clean(ls[s][w]))
  {
    hide Covered;
    forall a | 0 <= a < SIZE && !Covered(ls, a) ensures flat[a] == view'[a] {}
  }

  /** Writing a line back brings memory up to date with it and changes nothing that is seen. */
  lemma CleanStep(am: AddressMap, ls: Lines, q: seq<Entry>, m: Memory, flat: Memory, s: nat, w: nat)
    requires AllFit(q) && Coherent(am, ls, q, Apply(q, m), flat)
    requires Indexes(ls, s, w) && ls[s][w].valid
    ensures ls[s][w].Fits()
    ensures var l := ls[s][w];
            Coherent(am, Replace(ls, s, w, Clean(l)), q, Apply(q, l.WrittenBack(m)), flat)
  {
    hide AllFit, LinesOk, LineOk, LineShape, LineBytes, DistinctTags, Accounted, QueueOk, OthersOk, NewTag, AccountedBut, SetIndex, Block,
      Replace, Apply, Refreshed, BroughtUp, Line.WrittenBack, Line.Fits;
    var l, view := ls[s][w], Apply(q, m);
    LineIn(am, ls, q, view, flat, s, w);
    OkParts(am, q, view, flat, l);
    WrittenBackView(q, m, view, l, flat);
    var view' := Apply(q, l.WrittenBack(m));
    BroughtUpRefreshes(view', view, flat, l);
    CleanedLine(am, q, view, flat, view', l);
    OthersStay(am, ls, q, view, flat, view', s, w);
    CleanedAccounted(ls, view, flat, view', s, w);
    ReplaceStep(am, ls, q, view', flat, s, w, Clean(l));
  }

  lemma DroppedAccounted(am: AddressMap, ls: Lines, q: seq<Entry>, view: Memory, flat: Memory, s: nat, w: nat, l': Line)
    requires Coherent(am, ls, q, view, flat)
    requires Indexes(ls, s, w) && (ls[s][w].valid ==> !ls[s][w].firstDirty && !ls[s][w].lastDirty)
    ensures AccountedBut(ls, view, flat, s, w, l')
  {
    hide Covered, Pending;
    var l := ls[s][w];
    forall a | 0 <= a < SIZE && l.Covers(a) ensures flat[a] == view[a] {
      assert LineOk(am, q, view, flat, l);
      assert flat[a] == l.ByteAt(a - l.pa);
    }
  }

  /** A clean line can be dropped. */
  lemma DropStep(am: AddressMap, ls: Lines, q: seq<Entry>, view: Memory, flat: Memory, s: nat, w: nat, l': Line)
    requires Coherent(am, ls, q, view, flat)
    requires Indexes(ls, s, w) && (ls[s][w].valid ==> !ls[s][w].firstDirty && !ls[s][w].lastDirty)
    requires !l'.valid
    ensures Coherent(am, Replace(ls, s, w, l'), q, view, flat)
  {
    hide LinesOk, LineOk, DistinctTags, Accounted, QueueOk, OthersOk, NewTag, AccountedBut, SetIndex, Block, Replace;
    DroppedAccounted(am, ls, q, view, flat, s, w, l');
    OthersIn(am, ls, q, view, flat, s, w);
    ReplaceStep(am, ls, q, view, flat, s, w, l');
  }

  lemma InsertedAccounted(ls: Lines, view: Memory, flat: Memory, s: nat, w: nat, l: Line)
    requires Indexes(ls, s, w) && !ls[s][w].valid && Accounted(ls, view, flat)
    ensures AccountedBut(ls, view, flat, s, w, l)
  {
    hide Covered;
  }

  /** A line that agrees with memory can be added under a tag that is not in its set. */
  lemma InsertStep(am: AddressMap, ls: Lines, q: seq<Entry>, view: Memory, flat: Memory, s: nat, w: nat, l: Line)
    requires Coherent(am, ls, q, view, flat)
    requires Indexes(ls, s, w) && !ls[s][w].valid
    requires LineOk(am, q, view, flat, l) && SetIndex(Block(l.tag, LINE), |ls|) == s && NewTag(ls, s, w, l.tag)
    ensures Coherent(am, Replace(ls, s, w, l), q, view, flat)
  {
    hide LinesOk, LineOk, DistinctTags, Accounted, QueueOk, OthersOk, NewTag, AccountedBut, SetIndex, Block, Replace;
    InsertedAccounted(ls, view, flat, s, w, l);
    OthersIn(am, ls, q, view, flat, s, w);
    ReplaceStep(am, ls, q, view, flat, s, w, l);
  }

  lemma UpdatedByte(view: Memory, flat: Memory, l: Line, l': Line, a: nat, bs: seq<bv8>, x: nat)
    requires Updated(l, l', a, bs) && a + |bs| <= SIZE && l.Fits() && l.pa <= x < l.pa + l.Width()
    requires flat[x] == l.ByteAt(x - l.pa) && (l.DirtyAt(x - l.pa) || view[x] == flat[x])
    ensures var flat' := Overwrite(flat, a, bs);
            flat'[x] == l'.ByteAt(x - l.pa) && (l'.DirtyAt(x - l.pa) || view[x] == flat'[x])
  {
    var o := x - l.pa;
    assert l'.ByteAt(o) == if a <= l.pa + o < a + |bs| then bs[l.pa + o - a] else l.ByteAt(o);
  }

  lemma UpdatedLine(q: seq<Entry>, view: Memory, flat: Memory, l: Line, l': Line, a: nat, bs: seq<bv8>)
    requires l.Fits() && LineBytes(q, view, flat, l) && Updated(l, l', a, bs) && a + |bs| <= SIZE
    ensures LineBytes(q, view, Overwrite(flat, a, bs), l')
  {
    var flat' := Overwrite(flat, a, bs);
    forall x | l.pa <= x < l.pa + l.Width()
      ensures flat'[x] == l'.ByteAt(x - l.pa) && (l'.DirtyAt(x - l.pa) || view[x] == flat'[x]) && !Pending(q, x)
    {
      assert !Pending(q, x);
      UpdatedByte(view, flat, l, l', a, bs, x);
    }
  }

  lemma UntouchedLine(q: seq<Entry>, view: Memory, flat: Memory, m: Line, a: nat, bs: seq<bv8>)
    requires m.Fits() && m.valid && LineBytes(q, view, flat, m) && a + |bs| <= SIZE
    requires forall x | a <= x < a + |bs| :: !m.Covers(x)
    ensures LineBytes(q, view, Overwrite(flat, a, bs), m)
  {
    var flat' := Overwrite(flat, a, bs);
    forall x | m.pa <= x < m.pa + m.Width()
      ensures flat'[x] == m.ByteAt(x - m.pa) && (m.DirtyAt(x - m.pa) || view[x] == flat'[x]) && !Pending(q, x)
    {
      assert m.Covers(x);
      assert flat[x] == m.ByteAt(x - m.pa);
    }
  }

  /** A write that hits a line changes the flat memory exactly there. */
  lemma HitStep(am: AddressMap, ls: Lines, q: seq<Entry>, view: Memory, flat: Memory, s: nat, w: nat, l': Line, a: nat, bs: seq<bv8>)
    requires Injective(am) && Coherent(am, ls, q, view, flat)
    requires Indexes(ls, s, w) && ls[s][w].valid && a + |bs| <= SIZE
    requires ls[s][w].pa <= a && a + |bs| <= ls[s][w].pa + LINE
    requires Updated(ls[s][w], l', a, bs)
    ensures Coherent(am, Replace(ls, s, w, l'), q, view, Overwrite(flat, a, bs))
  {
    var l, flat' := ls[s][w], Overwrite(flat, a, bs);
    assert LineOk(am, q, view, flat, l);
    UpdatedLine(q, view, flat, l, l', a, bs);
    forall t: nat, v: nat | Indexes(ls, t, v) && ls[t][v].valid && (t, v) != (s, w)
      ensures LineOk(am, q, view, flat', ls[t][v])
    {
      forall x | a <= x < a + |bs| ensures !ls[t][v].Covers(x) {
        if ls[t][v].Covers(x) { OneLine(am, ls, q, view, flat, x, s, w, t, v); }
      }
      UntouchedLine(q, view, flat, ls[t][v], a, bs);
    }
    ReplaceStep(am, ls, q, view, flat', s, w, l');
  }

  lemma MissedLine(q: seq<Entry>, q': seq<Entry>, view: Memory, flat: Memory, m: Line, a: nat, bs: seq<bv8>)
    requires m.Fits() && m.valid && LineBytes(q, view, flat, m) && a + |bs| <= SIZE && NoMore(q', q, a, |bs|)
    requires forall x | a <= x < a + |bs| :: !m.Covers(x)
    ensures LineBytes(q', Overwrite(view, a, bs), Overwrite(flat, a, bs), m)
  {
    hide Pending;
    var view', flat' := Overwrite(view, a, bs), Overwrite(flat, a, bs);
    forall x | m.pa <= x < m.pa + m.Width()
      ensures flat'[x] == m.ByteAt(x - m.pa) && (m.DirtyAt(x - m.pa) || view'[x] == flat'[x]) && !Pending(q', x)
    {
      assert m.Covers(x);
      assert flat[x] == m.ByteAt(x - m.pa) && !Pending(q, x);
    }
  }

  lemma CoveredBy(ls: Lines, s: nat, w: nat, a: nat)
    requires Indexes(ls, s, w) && ls[s][w].Covers(a)
    ensures Covered(ls, a)
  {
  }

  lemma MissedLines(am: AddressMap, ls: Lines, q: seq<Entry>, q': seq<Entry>, view: Memory, flat: Memory, a: nat, bs: seq<bv8>)
    requires LinesOk(am, ls, q, view, flat) && a + |bs| <= SIZE && Uncovered(ls, a, |bs|) && NoMore(q', q, a, |bs|)
    ensures LinesOk(am, ls, q', Overwrite(view, a, bs), Overwrite(flat, a, bs))
  {
    hide LineShape, LineBytes, NoMore, Overwrite, SetIndex, Block, Covered;
    var view', flat' := Overwrite(view, a, bs), Overwrite(flat, a, bs);
    forall t: nat, v: nat | Indexes(ls, t, v) && ls[t][v].valid
      ensures LineOk(am, q', view', flat', ls[t][v]) && SetIndex(Block(ls[t][v].tag, LINE), |ls|) == t
    {
      var m := ls[t][v];
      OkParts(am, q, view, flat, m);
      forall x | a <= x < a + |bs| ensures !m.Covers(x) {
        if m.Covers(x) { CoveredBy(ls, t, v, x); }
      }
      MissedLine(q, q', view, flat, m, a, bs);
    }
  }

  lemma MissAccounted(ls: Lines, view: Memory, flat: Memory, a: nat, bs: seq<bv8>)
    requires Accounted(ls, view, flat) && a + |bs| <= SIZE
    ensures Accounted(ls, Overwrite(view, a, bs), Overwrite(flat, a, bs))
  {
    hide Covered;
  }

  /** A write below the cache, through the buffer or not, changes the flat memory exactly there. */
  lemma MissStep(am: AddressMap, ls: Lines, q: seq<Entry>, q': seq<Entry>, view: Memory, flat: Memory, a: nat, bs: seq<bv8>)
    requires Coherent(am, ls, q, view, flat) && a + |bs| <= SIZE && Uncovered(ls, a, |bs|)
    requires NoMore(q', q, a, |bs|) && QueueOk(am, q')
    ensures Coherent(am, ls, q', Overwrite(view, a, bs), Overwrite(flat, a, bs))
  {
    hide LinesOk, DistinctTags, Accounted, QueueOk, NoMore, Uncovered, Overwrite;
    MissedLines(am, ls, q, q', view, flat, a, bs);
    MissAccounted(ls, view, flat, a, bs);
  }

  /** Draining the buffer changes nothing that is seen. */
  lemma DrainStep(am: AddressMap, ls: Lines, q: seq<Entry>, view: Memory, flat: Memory)
    requires Coherent(am, ls, q, view, flat)
    ensures Coherent(am, ls, [], view, flat)
  {
    forall t: nat, v: nat | Indexes(ls, t, v) && ls[t][v].valid
      ensures LineOk(am, [], view, flat, ls[t][v])
    {
      assert LineOk(am, q, view, flat, ls[t][v]);
    }
  }

  /** Position of an address and of its physical address in their blocks. */
  lemma BlockPosition(va: nat, pa: nat, pb: nat)
    requires pa == pb + va % LINE && pb % LINE == 0 && pa < SIZE
    ensures BlockStart(pa, LINE) == pb && pb + LINE <= SIZE
    ensures InWindow(pb) <==> InWindow(pa)
    ensures var b := BlockStart(va, LINE); b % LINE == 0 && Block(b, LINE) == Block(va, LINE) && BlockStart(b, LINE) == b
  {
    AlignedBlock(va, LINE);
    AlignedBlock(pa, LINE);
    Division(pa, LINE, pb / LINE, va % LINE);
  }

  /** The line a fill of address `va` makes. */
  predicate Filled(am: AddressMap, va: nat, l: Line) {
    && l == Line(BlockStart(va, LINE), true, false, false, BlockStart(am.pa(va), LINE), l.data)
    && l.Width() == LINE && l.Fits()
  }

  lemma FreshShape(am: AddressMap, va: nat, l: Line)
    requires BlocksMapped(am, LINE) && Mapped(am, va) && am.cacheable(va) && !InWindow(am.pa(va)) && Filled(am, va, l)
    ensures LineShape(am, l) && Block(l.tag, LINE) == Block(va, LINE)
  {
    assert BlockMapped(am, va, LINE);
    BlockPosition(va, am.pa(va), am.pa(l.tag));
  }

  /** Is there no line of the block that begins at `tag`? */
  ghost predicate Unused(ls: Lines, tag: nat) {
    |ls| > 0 && forall s: nat, w: nat | Indexes(ls, s, w) && ls[s][w].valid && s == SetIndex(Block(tag, LINE), |ls|) :: ls[s][w].tag != tag
  }

  ghost predicate NothingWaits(q: seq<Entry>, a: nat, n: nat) {
    forall x | a <= x < a + n :: !Pending(q, x)
  }

  /** Memory holds the flat bytes of an address that no line covers and no entry waits for. */
  lemma FreshByte(am: AddressMap, ls: Lines, q: seq<Entry>, n: Memory, flat: Memory, l: Line, a: nat)
    requires Injective(am) && AllFit(q) && Coherent(am, ls, q, Apply(q, n), flat)
    requires LineShape(am, l) && l.pa <= a < l.pa + LINE && !Pending(q, a)
    requires Unused(ls, l.tag)
    ensures flat[a] == n[a] == Apply(q, n)[a]
  {
    ApplyElsewhere(q, n, a);
    if s: nat, w: nat :| Indexes(ls, s, w) && ls[s][w].Covers(a) {
      assert LineOk(am, q, Apply(q, n), flat, ls[s][w]);
      CoveringTag(am, ls[s][w], a, l.tag);
    }
  }

  /** A line read from memory is in order if no valid line has its address. */
  lemma FreshLine(am: AddressMap, ls: Lines, q: seq<Entry>, n: Memory, flat: Memory, l: Line)
    requires Injective(am) && AllFit(q) && Coherent(am, ls, q, Apply(q, n), flat)
    requires LineShape(am, l) && Unused(ls, l.tag) && NothingWaits(q, l.pa, LINE) && Agrees(l, l.pa, n)
    ensures LineBytes(q, Apply(q, n), flat, l)
  {
    hide Injective, AllFit, Coherent, Apply, Unused, Pending;
    forall a | l.pa <= a < l.pa + LINE ensures flat[a] == n[a] == Apply(q, n)[a] {
      FreshByte(am, ls, q, n, flat, l, a);
    }
  }

  lemma MissedUnused(ls: Lines, ls': Lines, s: nat, w: nat, va: nat, tag: nat)
    requires |ls| == |ls'| > 0 && Indexes(ls, s, w) && Missed(ls, va, LINE) && OneEmptied(ls, ls', s, w)
    requires tag == BlockStart(va, LINE) && Block(tag, LINE) == Block(va, LINE) && s == SetIndex(Block(va, LINE), |ls|)
    ensures Unused(ls', tag) && NewTag(ls', s, w, tag)
  {
    hide SetIndex, Block, BlockStart;
  }

  /** Every line but one is as it was, and that one is not valid. */
  ghost predicate OneEmptied(ls: Lines, ls': Lines, s: nat, w: nat) {
    && (forall t: nat, v: nat :: Indexes(ls', t, v) <==> Indexes(ls, t, v))
    && (forall t: nat, v: nat | Indexes(ls', t, v) && (t, v) != (s, w) :: ls'[t][v] == ls[t][v])
    && (Indexes(ls', s, w) ==> !ls'[s][w].valid)
  }

  /** A victim, written back and dropped. */
  function Emptied(l: Line): Line {
    Clean(l).(valid := false)
  }

  /** The line in the way of a fill is written back, if valid, and dropped. */
  lemma EvictStep(am: AddressMap, ls: Lines, q: seq<Entry>, m: Memory, n: Memory, flat: Memory, s: nat, w: nat)
    requires AllFit(q) && Coherent(am, ls, q, Apply(q, m), flat) && Indexes(ls, s, w)
    requires if ls[s][w].valid then ls[s][w].Fits() && n == ls[s][w].WrittenBack(m) else n == m
    ensures Coherent(am, Replace(ls, s, w, Emptied(ls[s][w])), q, Apply(q, n), flat)
  {
    hide AllFit, Coherent, Apply, Line.WrittenBack, Line.Fits;
    var l := ls[s][w];
    if l.valid {
      CleanStep(am, ls, q, m, flat, s, w);
      DropStep(am, Replace(ls, s, w, Clean(l)), q, Apply(q, n), flat, s, w, Emptied(l));
      ReplaceTwice(ls, s, w, Clean(l), Emptied(l));
    } else {
      ReplaceSelf(ls, s, w);
      DropStep(am, ls, q, Apply(q, n), flat, s, w, Emptied(l));
    }
  }

  lemma EmptiedOne(ls: Lines, s: nat, w: nat)
    requires Indexes(ls, s, w)
    ensures OneEmptied(ls, Replace(ls, s, w, Emptied(ls[s][w])), s, w)
  {
  }

  /** Eviction and fill: write the victim back, drop it, and put in its place a line read from memory. */
  lemma AllocStep(am: AddressMap, ls: Lines, q: seq<Entry>, m: Memory, n: Memory, flat: Memory, va: nat, s: nat, w: nat, l: Line)
    requires Injective(am) && BlocksMapped(am, LINE) && AllFit(q) && Coherent(am, ls, q, Apply(q, m), flat)
    requires Mapped(am, va) && am.cacheable(va) && !InWindow(am.pa(va)) && Filled(am, va, l)
    requires Indexes(ls, s, w) && |ls| > 0 && s == SetIndex(Block(va, LINE), |ls|)
    requires Missed(ls, va, LINE)
    requires if ls[s][w].valid then ls[s][w].Fits() && n == ls[s][w].WrittenBack(m) else n == m
    requires NothingWaits(q, l.pa, LINE) && Agrees(l, l.pa, n)
    ensures Coherent(am, Replace(ls, s, w, l), q, Apply(q, n), flat)
  {
    hide Injective, BlocksMapped, AllFit, Coherent, Missed, NothingWaits, Agrees, Apply, Line.WrittenBack, Line.Fits, LineShape, LineBytes,
      SetIndex, Block, BlockStart, Unused, NewTag, OneEmptied, InWindow;
    var empty := Emptied(ls[s][w]);
    var ls' := Replace(ls, s, w, empty);
    EvictStep(am, ls, q, m, n, flat, s, w);
    FreshShape(am, va, l);
    EmptiedOne(ls, s, w);
    MissedUnused(ls, ls', s, w, va, l.tag);
    FreshLine(am, ls', q, n, flat, l);
    InsertStep(am, ls', q, Apply(q, n), flat, s, w, l);
    ReplaceTwice(ls, s, w, empty, l);
  }
}
