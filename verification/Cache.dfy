/** The set-associative cache shared by the processor models (cache.cpp). */
module Cache {
  import opened Arithmetic
  import Bits
  import opened Words
  import opened Bus
  import opened Wrappers

  /** A cache line.  `valid`, `firstDirty` and `lastDirty` are bits 0, 1 and 2 of the tag word and
      `tag` is its address part. */
  datatype Line = Line(tag: nat, valid: bool, firstDirty: bool, lastDirty: bool, pa: nat, data: seq<Word>) {
    function Width(): nat {
      4 * |data|
    }

    function ByteAt(o: nat): bv8
      requires o < Width()
    {
      data[o / 4].At(o % 4)
    }

    /** Is the half-line of byte `o` marked dirty? */
    predicate DirtyAt(o: nat) {
      if o < 2 * |data| then firstDirty else lastDirty
    }

    predicate Fits() {
      pa % 4 == 0 && |data| % 2 == 0 && pa + Width() <= SIZE
    }

    predicate Covers(a: int) {
      valid && pa <= a < pa + Width()
    }

    /** Memory after the dirty halves of the line have been written to it. */
    ghost function WrittenBack(m: Memory): Memory
      requires Fits()
    {
      seq(SIZE, a requires 0 <= a < SIZE => if Covers(a) && DirtyAt(a - pa) then ByteAt(a - pa) else m[a])
    }
  }

  /** `l'` is line `l` after the bytes `bs` were stored at `a` and their halves marked dirty. */
  ghost predicate Updated(l: Line, l': Line, a: nat, bs: seq<bv8>) {
    && l'.valid && l'.tag == l.tag && l'.pa == l.pa && |l'.data| == |l.data|
    && (forall o | 0 <= o < l.Width() ::
          l'.ByteAt(o) == if a <= l.pa + o < a + |bs| then bs[l.pa + o - a] else l.ByteAt(o))
    && (forall o | 0 <= o < l.Width() :: a <= l.pa + o < a + |bs| || l.DirtyAt(o) ==> l'.DirtyAt(o))
  }

  datatype WriteMode = WriteBackMode | WriteThroughMode

  /** Number, first byte and accessed word of the line-sized block of an address, for the two line
      sizes in use: va_cache_align and va_cache_index. */
  function Block(va: nat, width: nat): nat {
    if width == 16 then va / 16 else va / 32
  }

  function BlockStart(va: nat, width: nat): (b: nat)
    ensures b <= va
  {
    if width == 16 then AlignDown(va, 16) else AlignDown(va, 32)
  }

  function WordIndex(va: nat, width: nat): (i: nat)
    ensures i < if width == 16 then 4 else 8
  {
    if width == 16 then va % 16 / 4 else va % 32 / 4
  }

  /** Remainder of a block number by the number of sets: va_cache_set. */
  function SetIndex(block: nat, sets: nat): (s: nat)
    requires sets > 0
    ensures s < sets
  {
    if block < sets then block else SetIndex(block - sets, sets)
  }

  lemma {:induction false} SetIndexIs(block: nat, sets: nat)
    requires sets > 0
    ensures SetIndex(block, sets) == block % sets
  {
    if block < sets {
      Division(block, sets, 0, block);
    } else {
      SetIndexIs(block - sets, sets);
      Division(block, sets, (block - sets) / sets + 1, (block - sets) % sets);
    }
  }

  /** The three macros of the source, as it computes them: by masks, for a number of sets that is a power of two. */
  lemma AddressMasks(va: nat, width: nat, k: nat)
    requires width == 16 || width == 32
    ensures SetIndex(Block(va, width), Bits.Pow2(k)) == Bits.And(va / width, Bits.Pow2(k) - 1)
    ensures BlockStart(va, width) == Bits.AndNot(va, width - 1) && WordIndex(va, width) == Bits.And(va, width - 1) / 4
  {
    hide SetIndex, Bits.And, Bits.AndNot;
    SetIndexIs(va / width, Bits.Pow2(k));
    Bits.AndLow(va / width, k);
    if width == 16 {
      assert Bits.Pow2(4) == 16;
      Bits.AndLow(va, 4);
    } else {
      assert Bits.Pow2(5) == 32;
      Bits.AndLow(va, 5);
    }
  }

  type Lines = seq<seq<Line>>

  predicate Indexes(ls: Lines, s: nat, w: nat) {
    s < |ls| && w < |ls[s]|
  }

  function Replace(ls: Lines, s: nat, w: nat, l: Line): (r: Lines)
    requires Indexes(ls, s, w)
    ensures |r| == |ls| && forall t | 0 <= t < |ls| :: |r[t]| == |ls[t]|
    ensures forall t: nat, v: nat :: Indexes(r, t, v) <==> Indexes(ls, t, v)
    ensures forall t: nat, v: nat | Indexes(ls, t, v) && Indexes(r, t, v) :: r[t][v] == if (t, v) == (s, w) then l else ls[t][v]
  {
    ls[s := ls[s][w := l]]
  }

  lemma ReplaceTwice(ls: Lines, s: nat, w: nat, k: Line, l: Line)
    requires Indexes(ls, s, w)
    ensures Replace(Replace(ls, s, w, k), s, w, l) == Replace(ls, s, w, l)
  {
    assert ls[s][w := k][w := l] == ls[s][w := l];
  }

  /** Sets of `ways` lines of `width` bytes. */
  ghost predicate Shaped(ls: Lines, width: nat, ways: nat) {
    && (forall s | 0 <= s < |ls| :: |ls[s]| == ways)
    && (forall s: nat, w: nat | Indexes(ls, s, w) :: ls[s][w].Width() == width && (ls[s][w].valid ==> ls[s][w].Fits()))
  }

  lemma LineShaped(ls: Lines, width: nat, ways: nat, s: nat, w: nat)
    requires Shaped(ls, width, ways) && Indexes(ls, s, w)
    ensures w < ways && ls[s][w].Width() == width && (ls[s][w].valid ==> ls[s][w].Fits())
  {
  }

  lemma CleanBack(line: Line, m: Memory)
    requires line.Fits() && !line.firstDirty && !line.lastDirty
    ensures line.WrittenBack(m) == m
  {
  }

  lemma ReplaceShaped(ls: Lines, width: nat, ways: nat, s: nat, w: nat, l: Line)
    requires Shaped(ls, width, ways) && Indexes(ls, s, w) && l.Width() == width && (l.valid ==> l.Fits())
    ensures Shaped(Replace(ls, s, w, l), width, ways)
  {
  }

  lemma ReplaceSelf(ls: Lines, s: nat, w: nat)
    requires Indexes(ls, s, w)
    ensures Replace(ls, s, w, ls[s][w]) == ls
  {
    assert ls[s][w := ls[s][w]] == ls[s];
  }

  /** What a failed search says: the set of the address holds no line for it. */
  ghost predicate Missed(ls: Lines, va: nat, width: nat)
    requires |ls| > 0
  {
    var s := SetIndex(Block(va, width), |ls|);
    forall w: nat | Indexes(ls, s, w) && ls[s][w].valid :: ls[s][w].tag != BlockStart(va, width)
  }

  lemma NotMissed(ls: Lines, va: nat, width: nat, w: nat)
    requires |ls| > 0
    requires var s := SetIndex(Block(va, width), |ls|);
             Indexes(ls, s, w) && ls[s][w].valid && ls[s][w].tag == BlockStart(va, width)
    ensures !Missed(ls, va, width)
  {
  }

  /** Are words what memory holds from an address on? */
  ghost predicate Loaded(data: seq<Word>, m: Memory, p: nat) {
    p + 4 * |data| <= SIZE && forall i | 0 <= i < |data| :: data[i] == Load(m, p + 4 * i, WordType)
  }

  lemma NoneLoaded(m: Memory, p: nat)
    requires p <= SIZE
    ensures Loaded([], m, p)
  {
  }

  lemma LoadedMore(data: seq<Word>, m: Memory, p: nat, w: Word)
    requires Loaded(data, m, p) && p + 4 * |data| + 4 <= SIZE && w == Load(m, p + 4 * |data|, WordType)
    ensures Loaded(data + [w], m, p)
  {
    hide Load;
  }

  /** Does memory hold the bytes of a line from an address on? */
  ghost predicate Agrees(l: Line, p: nat, m: Memory) {
    p + l.Width() <= SIZE && forall a | p <= a < p + l.Width() :: l.ByteAt(a - p) == m[a]
  }

  /** Memory with `n` words of a line, from word `first` on, written to their places. */
  ghost predicate Copied(m': Memory, m: Memory, line: Line, first: nat, n: nat)
    requires first + n <= |line.data|
  {
    var pa := line.pa + 4 * first;
    forall a | 0 <= a < SIZE :: m'[a] == if pa <= a < pa + 4 * n then line.ByteAt(a - line.pa) else m[a]
  }

  lemma NoneCopied(m: Memory, line: Line, first: nat)
    requires first <= |line.data|
    ensures Copied(m, m, line, first, 0)
  {
  }

  lemma StoredWord(line: Line, i: nat, m: Memory, a: nat)
    requires line.Fits() && i < |line.data| && a < SIZE
    ensures var pa := line.pa + 4 * i;
            Store(m, pa, line.data[i], WordType)[a] == if pa <= a < pa + 4 then line.ByteAt(a - line.pa) else m[a]
  {
    var k := a - line.pa - 4 * i;
    if 0 <= k < 4 { ByteOfWord(line, i, k); }
    hide Line.ByteAt, Word.At;
  }

  lemma CopiedMore(m': Memory, m: Memory, line: Line, first: nat, n: nat)
    requires line.Fits() && first + n < |line.data| && Copied(m', m, line, first, n)
    ensures Copied(Store(m', line.pa + 4 * (first + n), line.data[first + n], WordType), m, line, first, n + 1)
  {
    hide Line.ByteAt, Store;
    var m'' := Store(m', line.pa + 4 * (first + n), line.data[first + n], WordType);
    var pa := line.pa + 4 * first;
    forall a | 0 <= a < SIZE ensures m''[a] == if pa <= a < pa + 4 * (n + 1) then line.ByteAt(a - line.pa) else m[a] {
      StoredWord(line, first + n, m', a);
    }
  }

  /** The words that a write-back copies are those of the dirty halves. */
  lemma CopiedBack(m': Memory, m: Memory, line: Line, first: nat, n: nat)
    requires line.Fits() && line.valid && (line.firstDirty || line.lastDirty)
    requires first == (if line.firstDirty then 0 else |line.data| / 2)
    requires n == if line.firstDirty && line.lastDirty then |line.data| else |line.data| / 2
    requires first + n <= |line.data| && Copied(m', m, line, first, n)
    ensures m' == line.WrittenBack(m)
  {
    var pa := line.pa + 4 * first;
    forall a | 0 <= a < SIZE ensures m'[a] == line.WrittenBack(m)[a] {
      assert pa <= a < pa + 4 * n <==> line.Covers(a) && line.DirtyAt(a - line.pa);
    }
  }

  class Cache {
    const width: nat
    const ways: nat
    const mode: WriteMode
    const bus: Bus
    /** The lines, by set and way. */
    var lines: Lines
    /** The way each set replaces next. */
    var cycle: seq<nat>

    ghost predicate Valid()
      reads this
    {
      && (width == 16 || width == 32) && Shaped(lines, width, ways)
      && |lines| > 0 && |cycle| == |lines| && forall s | 0 <= s < |cycle| :: cycle[s] < ways
    }

    /** mmu_cache_init */
    constructor (width: nat, ways: nat, sets: nat, mode: WriteMode, bus: Bus)
      requires (width == 16 || width == 32) && ways > 0 && sets > 0
      ensures Valid()
      ensures this.width == width && this.ways == ways && this.mode == mode && this.bus == bus && |lines| == sets
      ensures forall s: nat, w: nat | Indexes(lines, s, w) :: !lines[s][w].valid
    {
      this.width, this.ways, this.mode, this.bus := width, ways, mode, bus;
      var empty := Line(0, false, false, false, 0, seq(width / 4, i => Word(0, 0, 0, 0)));
      lines := seq(sets, s => seq(ways, w => empty));
      cycle := seq(sets, s => 0);
    }

    /** va_cache_set */
    function Set(va: nat): (s: nat)
      requires |lines| > 0
      reads this
      ensures s < |lines|
    {
      SetIndex(Block(va, width), |lines|)
    }

    /** mmu_cache_search */
    method Search(va: nat) returns (way: Option<nat>)
      requires Valid()
      ensures way.Some? ==>
                Indexes(lines, Set(va), way.value)
                && lines[Set(va)][way.value].valid && lines[Set(va)][way.value].tag == BlockStart(va, width)
      ensures way.None? ==> Missed(lines, va, width)
    {
      var row := lines[Set(va)];
      for i := 0 to ways
        invariant forall w | 0 <= w < i && row[w].valid :: row[w].tag != BlockStart(va, width)
      {
        if row[i].valid && row[i].tag == BlockStart(va, width) {
          return Some(i);
        }
      }
      return None;
    }

    /** mmu_cache_write_back */
    method WriteBack(s: nat, w: nat)
      requires Valid() && Indexes(lines, s, w)
      modifies this`lines, bus
      ensures Valid()
      ensures var l := old(lines)[s][w];
              if l.valid then
                && lines == Replace(old(lines), s, w, l.(firstDirty := false, lastDirty := false))
                && bus.mem == l.WrittenBack(old(bus.mem))
              else lines == old(lines) && bus.mem == old(bus.mem)
    {
      hide Shaped, Line.WrittenBack, Line.Fits, Copied, Replace;
      LineShaped(lines, width, ways, s, w);
      var line := lines[s][w];
      if !line.valid {
        return;
      }
      var pa, nw, first := line.pa, width / 4, 0;
      if !line.firstDirty && !line.lastDirty {
        CleanBack(line, bus.mem);
        ReplaceSelf(lines, s, w);
        return;
      } else if !line.lastDirty {
        nw := nw / 2;
      } else if !line.firstDirty {
        nw := nw / 2;
        pa := pa + 4 * nw;
        first := nw;
      }
      WriteWords(line, first, nw, pa);
      CopiedBack(bus.mem, old(bus.mem), line, first, nw);
      ReplaceShaped(lines, width, ways, s, w, line.(firstDirty := false, lastDirty := false));
      lines := Replace(lines, s, w, line.(firstDirty := false, lastDirty := false));
    }

    /** The copy loop of a write-back: `nw` words of the line, from word `first` on, to `pa` on. */
    method WriteWords(line: Line, first: nat, nw: nat, pa: nat)
      requires line.Fits() && first + nw <= |line.data| && pa == line.pa + 4 * first
      modifies bus
      ensures Copied(bus.mem, old(bus.mem), line, first, nw)
    {
      hide Copied, Store;
      var i := 0;
      NoneCopied(bus.mem, line, first);
      while i < nw
        invariant 0 <= i <= nw && Copied(bus.mem, old(bus.mem), line, first, i)
      {
        CopiedMore(bus.mem, old(bus.mem), line, first, i);
        bus.Write(pa + 4 * i, line.data[first + i], WordType);
        i := i + 1;
      }
    }

    /** The fill loop of mmu_cache_alloc. */
    method Fill(pa: nat) returns (data: seq<Word>)
      requires (width == 16 || width == 32) && pa % 4 == 0 && pa + width <= SIZE
      ensures 4 * |data| == width && Loaded(data, bus.mem, pa)
    {
      hide Load, Loaded;
      data := [];
      NoneLoaded(bus.mem, pa);
      var i := 0;
      while i < width / 4
        invariant 0 <= i == |data| <= width / 4 && Loaded(data, bus.mem, pa)
      {
        var word := bus.Read(pa + 4 * i, WordType);
        LoadedMore(data, bus.mem, pa, word);
        data := data + [word];
        i := i + 1;
      }
    }

    /** Round-robin choice of the way to evict. */
    method NextWay(s: nat) returns (w: nat)
      requires Valid() && s < |lines|
      modifies this`cycle
      ensures Valid() && w == old(cycle)[s] && Indexes(lines, s, w)
      ensures cycle == old(cycle)[s := if w + 1 == ways then 0 else w + 1]
    {
      w := cycle[s];
      cycle := cycle[s := if w + 1 == ways then 0 else w + 1];
    }

    /** The write-back part of mmu_cache_alloc: write the victim back, then read the new words over it. */
    method Refill(s: nat, w: nat, pa: nat)
      requires Valid() && Indexes(lines, s, w)
      requires pa % 4 == 0 && pa + width <= SIZE
      modifies this`lines, bus
      ensures var victim := old(lines)[s][w];
              bus.mem == if victim.valid then victim.WrittenBack(old(bus.mem)) else old(bus.mem)
      ensures Indexes(lines, s, w) && lines == Replace(old(lines), s, w, lines[s][w]) && lines[s][w].Width() == width
      ensures Loaded(lines[s][w].data, bus.mem, pa)
    {
      hide Loaded, Line.WrittenBack;
      ghost var ls := lines;
      if lines[s][w].valid {
        WriteBack(s, w);
      }
      var data := Fill(pa);
      var l := lines[s][w].(data := data);
      ReplaceTwice(ls, s, w, lines[s][w], l);
      ReplaceSelf(ls, s, w);
      lines := Replace(lines, s, w, l);
    }

    /** A line freshly allocated for the aligned addresses `va` and `pa`. */
    ghost predicate Filled(l: Line, va: nat, pa: nat)
      reads bus
    {
      && l == Line(va, true, false, false, pa, l.data) && l.Fits() && l.Width() == width
      && (mode.WriteBackMode? ==> Loaded(l.data, bus.mem, pa))
    }

    /** The new contents of an evicted line. */
    method ReplaceLine(s: nat, w: nat, va: nat, pa: nat)
      requires Valid() && Indexes(lines, s, w) && pa % 4 == 0 && pa + width <= SIZE
      modifies this`lines, bus
      ensures Valid() && Indexes(lines, s, w) && Filled(lines[s][w], va, pa)
      ensures lines == Replace(old(lines), s, w, lines[s][w])
      ensures var victim := old(lines)[s][w];
              bus.mem == if victim.valid && mode.WriteBackMode? then victim.WrittenBack(old(bus.mem)) else old(bus.mem)
    {
      hide Loaded, Line.WrittenBack;
      ghost var ls := lines;
      if mode.WriteBackMode? {
        Refill(s, w, pa);
      } else {
        ReplaceSelf(ls, s, w);
      }
      var l := Line(va, true, false, false, pa, lines[s][w].data);
      ReplaceTwice(ls, s, w, lines[s][w], l);
      ReplaceShaped(ls, width, ways, s, w, l);
      lines := Replace(lines, s, w, l);
    }

    /** mmu_cache_alloc: evict round-robin; in write-back mode, write the victim back and read the new
        words over it. */
    method Alloc(va: nat, pa: nat) returns (s: nat, w: nat)
      requires Valid() && pa < SIZE
      modifies this, bus
      ensures Valid() && s == old(Set(va)) && Indexes(old(lines), s, w) && Indexes(lines, s, w)
      ensures old(lines)[s][w].valid ==> old(lines)[s][w].Fits()
      ensures w == old(cycle)[s] && cycle == old(cycle)[s := if w + 1 == ways then 0 else w + 1]
      ensures Filled(lines[s][w], BlockStart(va, width), BlockStart(pa, width))
      ensures lines == Replace(old(lines), s, w, lines[s][w])
      ensures var victim := old(lines)[s][w];
              bus.mem == if victim.valid && mode.WriteBackMode? then victim.WrittenBack(old(bus.mem)) else old(bus.mem)
    {
      hide Loaded, Line.WrittenBack, BlockStart, Block, Filled, Shaped;
      AlignedBlock(va, width);
      AlignedBlock(pa, width);
      var va', pa' := BlockStart(va, width), BlockStart(pa, width);
      s := Set(va');
      w := NextWay(s);
      LineShaped(lines, width, ways, s, w);
      ReplaceLine(s, w, va', pa');
    }

    /** update_cache: merge the written lanes into the addressed word and mark its half-line dirty. */
    method Update(s: nat, w: nat, mva: nat, data: Word, access: Width, va: nat)
      requires Valid() && Indexes(lines, s, w) && lines[s][w].valid
      modifies this`lines
      ensures Valid() && Indexes(lines, s, w)
      ensures lines == Replace(old(lines), s, w, lines[s][w])
      ensures var l := old(lines)[s][w];
              Updated(l, lines[s][w], l.pa + 4 * WordIndex(mva, width) + FirstLane(va, access), BytesOf(data, access))
    {
      var l := UpdateLine(lines[s][w], WordIndex(mva, width), data, access, va);
      ReplaceShaped(lines, width, ways, s, w, l);
      lines := Replace(lines, s, w, l);
    }

    /** `cache->tag = 0` */
    method Discard(s: nat, w: nat)
      requires Valid() && Indexes(lines, s, w)
      modifies this`lines
      ensures Valid()
      ensures lines == Replace(old(lines), s, w, old(lines)[s][w].(tag := 0, valid := false, firstDirty := false, lastDirty := false))
    {
      ReplaceShaped(lines, width, ways, s, w, lines[s][w].(tag := 0, valid := false, firstDirty := false, lastDirty := false));
      lines := Replace(lines, s, w, lines[s][w].(tag := 0, valid := false, firstDirty := false, lastDirty := false));
    }
  }

  lemma ByteOfWord(line: Line, i: nat, k: nat)
    requires i < |line.data| && k < 4
    ensures line.ByteAt(4 * i + k) == line.data[i].At(k)
  {
    assert (4 * i + k) / 4 == i && (4 * i + k) % 4 == k;
  }

  /** A line whose words were loaded from `p` on holds the bytes from `p` on. */
  lemma LoadedLine(l: Line, p: nat, m: Memory)
    requires Loaded(l.data, m, p)
    ensures Agrees(l, p, m)
  {
    hide Load, Word.At;
    forall a | p <= a < p + l.Width() ensures l.ByteAt(a - p) == m[a] {
      var i, k := (a - p) / 4, (a - p) % 4;
      LoadedWord(l.data[i], m, p + 4 * i, k);
    }
  }

  lemma LoadedWord(w: Word, m: Memory, a: nat, k: nat)
    requires a + 4 <= SIZE && k < 4 && w == Load(m, a, WordType)
    ensures w.At(k) == m[a + k]
  {
  }

  /** The body of update_cache, on the line it is given. */
  method UpdateLine(l: Line, i: nat, data: Word, access: Width, va: nat) returns (l': Line)
    requires l.Fits() && l.valid && i < |l.data|
    ensures Updated(l, l', l.pa + 4 * i + FirstLane(va, access), BytesOf(data, access))
    ensures l'.Fits() && l'.Width() == l.Width()
  {
    var word := data;
    if !access.WordType? {
      word := MergeIntoWord(l.data[i], data, va, access);
    }
    l' := l.(data := l.data[i := word]);
    if i < |l.data| / 2 {
      l' := l'.(firstDirty := true);
    } else {
      l' := l'.(lastDirty := true);
    }
    UpdatedWord(l, l', i, data, access, va);
  }

  /** `l'` is `l` with word `i` replaced. */
  ghost predicate DataReplaced(l: Line, l': Line, i: nat) {
    i < |l.data| == |l'.data| && forall j | 0 <= j < |l.data| && j != i :: l'.data[j] == l.data[j]
  }

  /** And its half is marked dirty. */
  ghost predicate WordReplaced(l: Line, l': Line, i: nat) {
    && DataReplaced(l, l', i)
    && l.Fits() && l.valid && l'.valid && l'.tag == l.tag && l'.pa == l.pa
    && l'.firstDirty == (l.firstDirty || 2 * i < |l.data|) && l'.lastDirty == (l.lastDirty || 2 * i >= |l.data|)
  }

  lemma UpdatedAt(l: Line, l': Line, i: nat, data: Word, access: Width, va: nat, o: nat)
    requires DataReplaced(l, l', i) && Merged(l.data[i], data, va, access, l'.data[i]) && o < l.Width()
    ensures var k := 4 * i + FirstLane(va, access);
            l'.ByteAt(o) == if k <= o < k + access.Bytes() then BytesOf(data, access)[o - k] else l.ByteAt(o)
  {
    var j, r := o / 4, o % 4;
    assert l'.ByteAt(o) == l'.data[j].At(r) && l.ByteAt(o) == l.data[j].At(r);
  }

  lemma UpdatedWord(l: Line, l': Line, i: nat, data: Word, access: Width, va: nat)
    requires WordReplaced(l, l', i) && Merged(l.data[i], data, va, access, l'.data[i])
    ensures Updated(l, l', l.pa + 4 * i + FirstLane(va, access), BytesOf(data, access))
  {
    hide Merged, DataReplaced, FirstLane, BytesOf, Line.ByteAt;
    var k := 4 * i + FirstLane(va, access);
    var bs := BytesOf(data, access);
    SameLength(l, l', i);
    LanesIn(data, va, access);
    forall o | 0 <= o < l.Width() ensures l'.ByteAt(o) == if k <= o < k + |bs| then bs[o - k] else l.ByteAt(o) {
      UpdatedAt(l, l', i, data, access, va, o);
    }
  }

  lemma SameLength(l: Line, l': Line, i: nat)
    requires DataReplaced(l, l', i)
    ensures i < |l.data| == |l'.data|
  {
  }

  lemma LanesIn(data: Word, va: nat, access: Width)
    ensures |BytesOf(data, access)| == access.Bytes() && FirstLane(va, access) + access.Bytes() <= 4
  {
  }

  lemma AlignedAt(a: nat, n: nat, q: nat)
    requires (n == 16 || n == 32) && q == a / n
    ensures var b := AlignDown(a, n); b % n == 0 && b % 4 == 0 && b / n == q && AlignDown(b, n) == b && (a < SIZE ==> b + n <= SIZE)
  {
    Division(n * q, n, q, 0);
    Division(n * q, 4, n / 4 * q, 0);
  }

  lemma AlignedBlock(a: nat, n: nat)
    requires n == 16 || n == 32
    ensures BlockStart(a, n) % n == 0 && BlockStart(a, n) % 4 == 0
    ensures Block(BlockStart(a, n), n) == Block(a, n) && BlockStart(BlockStart(a, n), n) == BlockStart(a, n)
    ensures a < SIZE ==> BlockStart(a, n) + n <= SIZE
  {
    if n == 16 {
      AlignedAt(a, 16, a / 16);
    } else {
      AlignedAt(a, 32, a / 32);
    }
  }
}
