/** Bytes, 32-bit words and the flat byte memory they are stored in.

    Data words are bit-vectors, so every mask, shift and merge of the simulator is written as it
    stands there.  Addresses are natural numbers below SIZE, so a mask of an address becomes a
    quotient or a remainder.  Words are little-endian, as on the host that runs the simulator. */
module Words {

  import opened Arithmetic

  /** The 32-bit address space. */
  const SIZE: nat := 0x1_0000_0000

  type Memory = m: seq<bv8> | |m| == SIZE ghost witness seq(SIZE, i => 0)

  /** The access widths of `arm_data_type`. */
  datatype Width = ByteType | HalfwordType | WordType {
    function Bytes(): nat {
      match this case ByteType => 1 case HalfwordType => 2 case WordType => 4
    }

    function Mask(): bv32 {
      match this case ByteType => 0xff case HalfwordType => 0xffff case WordType => 0xffff_ffff
    }
  }

  function AlignDown(a: nat, n: nat): (r: nat)
    requires n > 0
    ensures r <= a
  {
    a - a % n
  }

  /** A word as the four bytes it occupies in memory. */
  datatype Word = Word(b0: bv8, b1: bv8, b2: bv8, b3: bv8) {
    function At(k: nat): bv8
      requires k < 4
    {
      if k == 0 then b0 else if k == 1 then b1 else if k == 2 then b2 else b3
    }

    function Value(): bv32 {
      (b0 as bv32) | ((b1 as bv32) << 8) | ((b2 as bv32) << 16) | ((b3 as bv32) << 24)
    }
  }

  function Lane(v: bv32, k: nat): bv8
    requires k < 4
  {
    if k == 0 then (v & 0xff) as bv8
    else if k == 1 then ((v >> 8) & 0xff) as bv8
    else if k == 2 then ((v >> 16) & 0xff) as bv8
    else ((v >> 24) & 0xff) as bv8
  }

  function Split(v: bv32): Word {
    Word(Lane(v, 0), Lane(v, 1), Lane(v, 2), Lane(v, 3))
  }

  lemma SplitValue(w: Word)
    ensures Split(w.Value()) == w
  {
  }

  /** The low-order bytes of a word, least significant first. */
  function BytesOf(w: Word, width: Width): (bs: seq<bv8>)
    ensures |bs| == width.Bytes()
    ensures forall k | 0 <= k < |bs| :: bs[k] == w.At(k)
  {
    match width
    case ByteType => [w.b0]
    case HalfwordType => [w.b0, w.b1]
    case WordType => [w.b0, w.b1, w.b2, w.b3]
  }

  function Overwrite(m: Memory, a: nat, bs: seq<bv8>): (r: Memory)
    requires a + |bs| <= SIZE
    ensures forall x | 0 <= x < SIZE :: r[x] == if a <= x < a + |bs| then bs[x - a] else m[x]
  {
    m[..a] + bs + m[a + |bs|..]
  }

  /** Two adjacent blocks written in order are one block. */
  lemma OverwriteSplit(m: Memory, a: nat, data: seq<bv8>, n: nat, i: nat)
    requires a + |data| <= SIZE && n + i <= |data|
    ensures Overwrite(Overwrite(m, a, data[..n]), a + n, data[n..n + i]) == Overwrite(m, a, data[..n + i])
  {
  }

  lemma OverwriteNone(m: Memory, a: nat, data: seq<bv8>)
    requires a <= SIZE
    ensures Overwrite(m, a, data[..0]) == m
  {
  }

  lemma OverwriteOne(m: Memory, a: nat, data: seq<bv8>, i: nat)
    requires a + |data| <= SIZE && i < |data|
    ensures Overwrite(Overwrite(m, a, data[..i]), a + i, [data[i]]) == Overwrite(m, a, data[..i + 1])
  {
    assert [data[i]] == data[i..i + 1];
    OverwriteSplit(m, a, data, i, 1);
  }

  /** The `width` bytes at `a`, zero-extended. */
  function Load(m: Memory, a: nat, width: Width): Word
    requires a + width.Bytes() <= SIZE
  {
    match width
    case ByteType => Word(m[a], 0, 0, 0)
    case HalfwordType => Word(m[a], m[a + 1], 0, 0)
    case WordType => Word(m[a], m[a + 1], m[a + 2], m[a + 3])
  }

  function Store(m: Memory, a: nat, d: Word, width: Width): Memory
    requires a + width.Bytes() <= SIZE
  {
    Overwrite(m, a, BytesOf(d, width))
  }

  /** Memory is little-endian: the lowest eight bits of a word are at its address. */
  lemma LittleEndian(m: Memory, a: nat, v: bv32)
    requires a + 4 <= SIZE
    ensures var m' := Store(m, a, Split(v), WordType);
            && m'[a] == (v & 0xff) as bv8 && m'[a + 1] == ((v >> 8) & 0xff) as bv8
            && m'[a + 2] == ((v >> 16) & 0xff) as bv8 && m'[a + 3] == ((v >> 24) & 0xff) as bv8
  {
  }

  /** First lane of its word that an access touches: `va & 3`, `va & 2` or 0. */
  function FirstLane(va: nat, width: Width): (k: nat)
    ensures k + width.Bytes() <= 4
  {
    match width case ByteType => va % 4 case HalfwordType => va % 4 / 2 * 2 case WordType => 0
  }

  /** Is an address aligned on the width of the access? */
  predicate Aligned(a: nat, width: Width) {
    match width case ByteType => true case HalfwordType => a % 2 == 0 case WordType => a % 4 == 0
  }

  /** Inside an aligned word, an access is aligned on its own width. */
  lemma LaneAligned(a: nat, va: nat, width: Width)
    requires a % 4 == 0
    ensures Aligned(a + FirstLane(va, width), width)
  {
    if width.HalfwordType? {
      Division(a + FirstLane(va, width), 2, 2 * (a / 4) + va % 4 / 2, 0);
    }
  }

  /** `w >> offset` and `w << offset` for the bit offset `k << 3` of lane `k`. */
  function ShiftRight(w: bv32, k: nat): bv32
    requires k < 4
  {
    if k == 0 then w else if k == 1 then w >> 8 else if k == 2 then w >> 16 else w >> 24
  }

  function ShiftLeft(w: bv32, k: nat): bv32
    requires k < 4
  {
    if k == 0 then w else if k == 1 then w << 8 else if k == 2 then w << 16 else w << 24
  }

  /** `(temp >> offset) & mask` */
  function Extract(temp: bv32, mask: bv32, k: nat): bv32
    requires k < 4
  {
    ShiftRight(temp, k) & mask
  }

  /** `(temp & ~(mask << offset)) | ((data & mask) << offset)` */
  function Merge(temp: bv32, data: bv32, mask: bv32, k: nat): bv32
    requires k < 4
  {
    (temp & !ShiftLeft(mask, k)) | ShiftLeft(data & mask, k)
  }

  /** The bytes, halfwords and words of a word, at their lanes. */
  lemma ExtractByte(t: bv32, k: nat, j: nat)
    requires k < 4 && j < 4
    ensures Lane(Extract(t, 0xff, k), j) == if j == 0 then Lane(t, k) else 0
  {
    if k == 0 {
      if j == 0 {} else if j == 1 {} else if j == 2 {} else {}
    } else if k == 1 {
      if j == 0 {} else if j == 1 {} else if j == 2 {} else {}
    } else if k == 2 {
      if j == 0 {} else if j == 1 {} else if j == 2 {} else {}
    } else {
      if j == 0 {} else if j == 1 {} else if j == 2 {} else {}
    }
  }

  lemma ExtractHalfword(t: bv32, k: nat, j: nat)
    requires (k == 0 || k == 2) && j < 4
    ensures Lane(Extract(t, 0xffff, k), j) == if j < 2 then Lane(t, j + k) else 0
  {
    if k == 0 {
      if j == 0 {} else if j == 1 {} else if j == 2 {} else {}
    } else {
      if j == 0 {} else if j == 1 {} else if j == 2 {} else {}
    }
  }

  lemma ExtractWord(t: bv32)
    ensures Extract(t, 0xffff_ffff, 0) == t
  {
  }

  /** A read selects the accessed lanes and zero-extends them. */
  lemma ExtractLanes(t: bv32, va: nat, width: Width, j: nat)
    requires j < 4
    ensures var k := FirstLane(va, width);
            Lane(Extract(t, width.Mask(), k), j) == if j < width.Bytes() then Lane(t, k + j) else 0
  {
    var k := FirstLane(va, width);
    match width
    case ByteType => ExtractByte(t, k, j);
    case HalfwordType => ExtractHalfword(t, k, j);
    case WordType => ExtractWord(t);
  }

  lemma MergeByteIn(t: bv32, d: bv32, k: nat)
    requires k < 4
    ensures Lane(Merge(t, d, 0xff, k), k) == Lane(d, 0)
  {
    if k == 0 {} else if k == 1 {} else if k == 2 {} else {}
  }

  lemma MergeLowByteOut(t: bv32, d: bv32, k: nat, j: nat)
    requires k < 2 && j < 4 && j != k
    ensures Lane(Merge(t, d, 0xff, k), j) == Lane(t, j)
  {
    if k == 0 {
      if j == 1 {} else if j == 2 {} else {}
    } else {
      if j == 0 {} else if j == 2 {} else {}
    }
  }

  lemma MergeHighByteOut(t: bv32, d: bv32, k: nat, j: nat)
    requires 2 <= k < 4 && j < 4 && j != k
    ensures Lane(Merge(t, d, 0xff, k), j) == Lane(t, j)
  {
    if k == 2 {
      if j == 0 {} else if j == 1 {} else {}
    } else {
      if j == 0 {} else if j == 1 {} else {}
    }
  }

  lemma MergeByteOut(t: bv32, d: bv32, k: nat, j: nat)
    requires k < 4 && j < 4 && j != k
    ensures Lane(Merge(t, d, 0xff, k), j) == Lane(t, j)
  {
    hide Lane, Merge;
    if k < 2 { MergeLowByteOut(t, d, k, j); } else { MergeHighByteOut(t, d, k, j); }
  }

  lemma MergeHalfword(t: bv32, d: bv32, k: nat, j: nat)
    requires (k == 0 || k == 2) && j < 4
    ensures Lane(Merge(t, d, 0xffff, k), j) == if k <= j < k + 2 then Lane(d, j - k) else Lane(t, j)
  {
    if k == 0 {
      if j == 0 {} else if j == 1 {} else if j == 2 {} else {}
    } else {
      if j == 0 {} else if j == 1 {} else if j == 2 {} else {}
    }
  }

  lemma MergeWord(t: bv32, d: bv32)
    ensures Merge(t, d, 0xffff_ffff, 0) == d
  {
  }

  /** A merge replaces the accessed lanes and keeps every other lane of the word. */
  lemma MergeLanes(t: bv32, d: bv32, va: nat, width: Width, j: nat)
    requires j < 4
    ensures var k := FirstLane(va, width);
            Lane(Merge(t, d, width.Mask(), k), j) == if k <= j < k + width.Bytes() then Lane(d, j - k) else Lane(t, j)
  {
    var k := FirstLane(va, width);
    match width
    case ByteType => if j == k { MergeByteIn(t, d, k); } else { MergeByteOut(t, d, k, j); }
    case HalfwordType => MergeHalfword(t, d, k, j);
    case WordType => MergeWord(t, d);
  }

  lemma SplitAt(v: bv32, j: nat)
    requires j < 4
    ensures Split(v).At(j) == Lane(v, j)
  {
    if j == 0 {} else if j == 1 {} else if j == 2 {} else {}
  }

  /** The lane selection at the end of mmu_read. */
  method SelectLanes(w: Word, va: nat, width: Width) returns (r: Word)
    ensures forall j | 0 <= j < 4 :: r.At(j) == if j < width.Bytes() then w.At(FirstLane(va, width) + j) else 0
  {
    var temp := w.Value();
    var value := Extract(temp, width.Mask(), FirstLane(va, width));
    r := Split(value);
    SplitValue(w);
    forall j | 0 <= j < 4 ensures r.At(j) == if j < width.Bytes() then w.At(FirstLane(va, width) + j) else 0 {
      ExtractLanes(temp, va, width, j);
      SplitAt(value, j);
      if j < width.Bytes() { SplitAt(temp, FirstLane(va, width) + j); }
    }
  }

  /** The lane merge of update_cache and of the write-through models. */
  method MergeIntoWord(w: Word, data: Word, va: nat, width: Width) returns (r: Word)
    ensures Merged(w, data, va, width, r)
  {
    var temp, d := w.Value(), data.Value();
    var value := Merge(temp, d, width.Mask(), FirstLane(va, width));
    r := Split(value);
    SplitValue(w);
    SplitValue(data);
    forall j | 0 <= j < 4
      ensures var k := FirstLane(va, width); r.At(j) == if k <= j < k + width.Bytes() then data.At(j - k) else w.At(j)
    {
      MergeLanes(temp, d, va, width, j);
      SplitAt(value, j);
      SplitAt(temp, j);
      if FirstLane(va, width) <= j < FirstLane(va, width) + width.Bytes() { SplitAt(d, j - FirstLane(va, width)); }
    }
  }

  /** Selecting the lanes of a word that agrees with memory loads from memory. */
  lemma SelectionLoads(m: Memory, a: nat, va: nat, width: Width, w: Word, r: Word)
    requires a + 4 <= SIZE && forall j | 0 <= j < 4 :: w.At(j) == m[a + j]
    requires forall j | 0 <= j < 4 :: r.At(j) == if j < width.Bytes() then w.At(FirstLane(va, width) + j) else 0
    ensures r == Load(m, a + FirstLane(va, width), width)
  {
    var k := FirstLane(va, width);
    assert r.b0 == r.At(0) && r.b1 == r.At(1) && r.b2 == r.At(2) && r.b3 == r.At(3);
    assert w.At(k) == m[a + k];
    if !width.ByteType? { assert w.At(k + 1) == m[a + (k + 1)]; }
    if width.WordType? { assert w.At(2) == m[a + 2] && w.At(3) == m[a + 3]; }
  }

  /** `r` is `w` with the accessed lanes replaced by those of `data`. */
  ghost predicate Merged(w: Word, data: Word, va: nat, width: Width, r: Word) {
    var k := FirstLane(va, width);
    forall j | 0 <= j < 4 :: r.At(j) == if k <= j < k + width.Bytes() then data.At(j - k) else w.At(j)
  }
}
