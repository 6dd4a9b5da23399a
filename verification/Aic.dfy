/** The interrupt controller of the AT91SAM9261 (Aic.cpp): 32 sources, each led to the FIQ or the IRQ line. */
module Aic {
  import opened Bits

  const COUNT := 128
  const SVR := 0x20
  const IVR := 0x40
  const FVR := 0x41
  const ISR := 0x42
  const IPR := 0x43
  const IMR := 0x44
  const CISR := 0x45
  const IECR := 0x48
  const IDCR := 0x49
  const FFER := 0x50
  const FFDR := 0x51
  const FFSR := 0x52
  const NFIQ_BIT := 1
  const NIRQ_BIT := 2

  type Register = r: nat | r < 0x1_0000_0000

  type Registers = m: seq<Register> | |m| == COUNT witness seq(COUNT, i => 0)

  lemma WordSize()
    ensures Pow2(32) == 0x1_0000_0000
  {
    hide Pow2;
    Sixteen();
    Pow2Sum(4, 4);
    Pow2Sum(8, 8);
    Pow2Sum(16, 16);
  }

  lemma Sixteen()
    ensures Pow2(4) == 16
  {
  }

  lemma {:induction false} PowersGrow(i: nat, n: nat)
    requires i < n
    ensures Pow2(i) < Pow2(n)
  {
    if i < n - 1 { PowersGrow(i, n - 1); }
  }

  lemma SourceBit(i: nat)
    requires i < 32
    ensures Pow2(i) < 0x1_0000_0000
  {
    hide Pow2;
    WordSize();
    PowersGrow(i, 32);
  }

  /** The masks of sources that are pending and enabled and led to each line; source 0 is always FIQ. */
  function FiqMask(m: Registers): nat {
    And(And(m[IPR], m[IMR]), OrOne(m[FFSR]))
  }

  function IrqMask(m: Registers): nat {
    AndNot(AndNot(And(m[IPR], m[IMR]), m[FFSR]), 1)
  }

  /** `x | 1` */
  function OrOne(x: nat): nat {
    if x % 2 == 1 then x else x + 1
  }

  predicate Fiq(m: Registers, i: nat) {
    Bit(m[IPR], i) && Bit(m[IMR], i) && (i == 0 || Bit(m[FFSR], i))
  }

  predicate Irq(m: Registers, i: nat) {
    Bit(m[IPR], i) && Bit(m[IMR], i) && i > 0 && !Bit(m[FFSR], i)
  }

  /** The lowest source from `i` up that drives a line, 32 if there is none. */
  function LowestFiq(m: Registers, i: nat): (n: nat)
    requires i <= 32
    ensures i <= n <= 32 && (n < 32 ==> Fiq(m, n)) && forall j | i <= j < n :: !Fiq(m, j)
    decreases 32 - i
  {
    if i == 32 || Fiq(m, i) then i else LowestFiq(m, i + 1)
  }

  function LowestIrq(m: Registers, i: nat): (n: nat)
    requires i <= 32
    ensures i <= n <= 32 && (n < 32 ==> Irq(m, n)) && forall j | i <= j < n :: !Irq(m, j)
    decreases 32 - i
  {
    if i == 32 || Irq(m, i) then i else LowestIrq(m, i + 1)
  }

  /** Every pending and enabled source drives exactly one of the lines. */
  lemma OneLine(m: Registers, i: nat)
    ensures Bit(m[IPR], i) && Bit(m[IMR], i) <==> Fiq(m, i) || Irq(m, i)
    ensures !(Fiq(m, i) && Irq(m, i))
  {
  }

  lemma OrOneBit(x: nat, k: nat)
    ensures Bit(OrOne(x), k) == (k == 0 || Bit(x, k))
  {
  }

  lemma FiqBits(m: Registers, k: nat)
    ensures Bit(FiqMask(m), k) == Fiq(m, k)
  {
    AndBit(m[IPR], m[IMR], k);
    AndBit(And(m[IPR], m[IMR]), OrOne(m[FFSR]), k);
    OrOneBit(m[FFSR], k);
  }

  lemma IrqBits(m: Registers, k: nat)
    ensures Bit(IrqMask(m), k) == Irq(m, k)
  {
    AndBit(m[IPR], m[IMR], k);
    AndNotBit(And(m[IPR], m[IMR]), m[FFSR], k);
    AndNotBit(AndNot(And(m[IPR], m[IMR]), m[FFSR]), 1, k);
    PowBit(0, k);
  }

  lemma HasSource(m: Registers, k: nat)
    requires Bit(m[IPR], k)
    ensures k < 32
  {
    WordSize();
    if k >= 32 { NoHighBit(m[IPR], 32, k); }
  }

  /** A mask is not zero exactly if the search for its lowest source finds one. */
  lemma MasksFound(m: Registers)
    ensures FiqMask(m) != 0 <==> LowestFiq(m, 0) < 32
    ensures IrqMask(m) != 0 <==> LowestIrq(m, 1) < 32
  {
    if FiqMask(m) != 0 {
      var k := SomeBit(FiqMask(m));
      FiqBits(m, k);
      HasSource(m, k);
    }
    if LowestFiq(m, 0) < 32 {
      FiqBits(m, LowestFiq(m, 0));
      ZeroBit(LowestFiq(m, 0));
    }
    if IrqMask(m) != 0 {
      var k := SomeBit(IrqMask(m));
      IrqBits(m, k);
      HasSource(m, k);
    }
    if LowestIrq(m, 1) < 32 {
      IrqBits(m, LowestIrq(m, 1));
      ZeroBit(LowestIrq(m, 1));
    }
  }

  /** The lines and status registers that belong to the sources. */
  ghost predicate Settled(m: Registers, fiq: bool, irq: bool) {
    && fiq == (FiqMask(m) != 0) && irq == (IrqMask(m) != 0)
    && m[CISR] == (if fiq then NFIQ_BIT else 0) + (if irq then NIRQ_BIT else 0)
    && (fiq ==> m[ISR] == LowestFiq(m, 0) < 32 && m[FVR] == m[SVR])
    && (irq ==> LowestIrq(m, 1) < 32 && m[IVR] == m[SVR + LowestIrq(m, 1)] && (!fiq ==> m[ISR] == LowestIrq(m, 1)))
  }

  /** What check_int may change. */
  predicate SameSources(m: Registers, m': Registers) {
    forall i | 0 <= i < COUNT && i !in {CISR, ISR, FVR, IVR} :: m'[i] == m[i]
  }

  lemma SameSearches(m: Registers, m': Registers, i: nat)
    requires SameSources(m, m') && i <= 32
    ensures LowestFiq(m', i) == LowestFiq(m, i) && LowestIrq(m', i) == LowestIrq(m, i)
    decreases 32 - i
  {
    if i < 32 { SameSearches(m, m', i + 1); }
  }

  lemma MasksFit(m: Registers, value: Register)
    ensures 0 <= Or(m[IMR], value) < 0x1_0000_0000 && AndNot(m[IMR], value) < 0x1_0000_0000
    ensures 0 <= Or(m[FFSR], value) < 0x1_0000_0000 && AndNot(m[FFSR], value) < 0x1_0000_0000
  {
    hide Or, AndNot, Pow2;
    WordSize();
    Bounded(m[IMR], value, 32);
    Bounded(m[FFSR], value, 32);
  }

  /** The registers with one of them replaced by the number that has the given bits. */
  function Written(m: Registers, index: nat, value: Register): Registers
    requires index < COUNT
  {
    MasksFit(m, value);
    if index == IECR then m[IMR := Or(m[IMR], value)]
    else if index == IDCR then m[IMR := AndNot(m[IMR], value)]
    else if index == FFER then m[FFSR := Or(m[FFSR], value)]
    else if index == FFDR then m[FFSR := AndNot(m[FFSR], value)]
    else if index == IMR || index == FFSR then m
    else m[index := value]
  }

  /** Every other register is stored as it is written. */
  lemma PlainWrite(m: Registers, index: nat, value: Register, m': Registers)
    requires index < COUNT && SameSources(Written(m, index, value), m')
    ensures index !in {IECR, IDCR, FFER, FFDR, IMR, FFSR, CISR, ISR, FVR, IVR} ==>
              m'[index] == value && forall i | 0 <= i < COUNT && i != index && i !in {CISR, ISR, FVR, IVR} :: m'[i] == m[i]
  {
    hide Or, AndNot, Pow2;
  }

  function Pended(m: Registers, id: nat, pending: bool): Registers
    requires id < 32
  {
    WordSize();
    SourceBit(id);
    Bounded(m[IPR], Pow2(id), 32);
    m[IPR := if pending then Or(m[IPR], Pow2(id)) else AndNot(m[IPR], Pow2(id))]
  }

  /** In terms of sources: enabling and forcing add the written sources, disabling and releasing take them
      away, and a source's own line decides whether it is pending. */
  lemma WrittenSources(m: Registers, index: nat, value: Register, k: nat)
    requires index < COUNT
    ensures var m' := Written(m, index, value);
            && Bit(m'[IMR], k) == (if index == IECR then Bit(m[IMR], k) || Bit(value, k)
                                   else if index == IDCR then Bit(m[IMR], k) && !Bit(value, k) else Bit(m[IMR], k))
            && Bit(m'[FFSR], k) == (if index == FFER then Bit(m[FFSR], k) || Bit(value, k)
                                    else if index == FFDR then Bit(m[FFSR], k) && !Bit(value, k) else Bit(m[FFSR], k))
            && Bit(m'[IPR], k) == Bit(if index == IPR then value else m[IPR], k)
  {
    OrBit(m[IMR], value, k);
    AndNotBit(m[IMR], value, k);
    OrBit(m[FFSR], value, k);
    AndNotBit(m[FFSR], value, k);
  }

  lemma PendedSources(m: Registers, id: nat, pending: bool, k: nat)
    requires id < 32
    ensures var m' := Pended(m, id, pending);
            && Bit(m'[IPR], k) == (if k == id then pending else Bit(m[IPR], k))
            && m'[IMR] == m[IMR] && m'[FFSR] == m[FFSR]
  {
    PowBit(id, k);
    OrBit(m[IPR], Pow2(id), k);
    AndNotBit(m[IPR], Pow2(id), k);
  }

  class Aic {
    var reg: Registers
    var fiq: bool
    var irq: bool

    constructor ()
      ensures Settled(reg, fiq, irq) && reg == seq(COUNT, i => 0)
    {
      reg := seq(COUNT, i => 0);
      fiq, irq := false, false;
      new;
      assert reg[IPR] == 0;
    }

    /** check_int */
    method CheckInt()
      modifies this
      ensures Settled(reg, fiq, irq) && SameSources(old(reg), reg)
    {
      ghost var m := reg;
      SameSearches(m, m, 0);
      reg := reg[CISR := 0];
      RaiseFiq(m);
      fiq := Bit(reg[CISR], 0);
      RaiseIrq(m);
      irq := Bit(reg[CISR], 1);
      MasksFound(m);
      SameSearches(m, reg, 0);
      SameSearches(m, reg, 1);
    }

    /** reg_wr.  The set and clear registers act on the masks, the masks themselves are read-only, and every
        other register takes the value, also those that the controller then works out again. */
    method RegWr(index: nat, value: Register)
      requires index < COUNT
      modifies this
      ensures Settled(reg, fiq, irq) && SameSources(Written(old(reg), index, value), reg)
      ensures index !in {IECR, IDCR, FFER, FFDR, IMR, FFSR, CISR, ISR, FVR, IVR} ==>
                reg[index] == value
                && forall i | 0 <= i < COUNT && i != index && i !in {CISR, ISR, FVR, IVR} :: reg[i] == old(reg)[i]
    {
      hide Settled, SameSources, Or, AndNot, Pow2;
      ghost var m := reg;
      MasksFit(reg, value);
      if index == IECR {
        reg := reg[IMR := Or(reg[IMR], value)];
      } else if index == IDCR {
        reg := reg[IMR := AndNot(reg[IMR], value)];
      } else if index == FFER {
        reg := reg[FFSR := Or(reg[FFSR], value)];
      } else if index == FFDR {
        reg := reg[FFSR := AndNot(reg[FFSR], value)];
      } else if index != IMR && index != FFSR {
        reg := reg[index := value];
      }
      CheckInt();
      PlainWrite(m, index, value, reg);
    }

    /** interrupt_set */
    method InterruptSet(id: nat)
      requires id < 32
      modifies this
      ensures Settled(reg, fiq, irq) && SameSources(Pended(old(reg), id, true), reg)
    {
      WordSize();
      SourceBit(id);
      Bounded(reg[IPR], Pow2(id), 32);
      reg := reg[IPR := Or(reg[IPR], Pow2(id))];
      CheckInt();
    }

    /** interrupt_clr */
    method InterruptClr(id: nat)
      requires id < 32
      modifies this
      ensures Settled(reg, fiq, irq) && SameSources(Pended(old(reg), id, false), reg)
    {
      WordSize();
      SourceBit(id);
      Bounded(reg[IPR], Pow2(id), 32);
      reg := reg[IPR := AndNot(reg[IPR], Pow2(id))];
      CheckInt();
    }

    /** The first loop of check_int. */
    method RaiseFiq(ghost m: Registers)
      requires SameSources(m, reg) && reg[CISR] == 0
      modifies this`reg
      ensures SameSources(m, reg) && reg[IVR] == old(reg)[IVR]
      ensures var n := LowestFiq(m, 0);
              if n < 32 then reg[CISR] == NFIQ_BIT && reg[ISR] == n && reg[FVR] == m[SVR] && Bit(reg[CISR], 0)
              else reg == old(reg) && !Bit(reg[CISR], 0)
    {
      var mask := And(reg[IPR], reg[IMR]);
      for i := 0 to 32
        invariant LowestFiq(m, i) == LowestFiq(m, 0) && reg == old(reg)
      {
        var bit := Pow2(i);
        FiqTest(reg, i);
        if (i == 0 && And(mask, 1) != 0) || And(And(reg[FFSR], mask), bit) != 0 {
          reg := reg[ISR := i];
          assert Or(0, NFIQ_BIT) == 1;
          reg := reg[CISR := Or(reg[CISR], NFIQ_BIT)];
          reg := reg[FVR := reg[SVR]];
          return;
        }
      }
    }

    /** The second loop of check_int. */
    method RaiseIrq(ghost m: Registers)
      requires SameSources(m, reg) && reg[CISR] in {0, NFIQ_BIT}
      modifies this`reg
      ensures SameSources(m, reg) && reg[FVR] == old(reg)[FVR]
      ensures var n := LowestIrq(m, 1);
              if n < 32 then
                && reg[CISR] == old(reg)[CISR] + NIRQ_BIT && reg[IVR] == m[SVR + n] && Bit(reg[CISR], 1)
                && reg[ISR] == if old(reg)[CISR] == 0 then n else old(reg)[ISR]
              else reg == old(reg) && !Bit(reg[CISR], 1)
    {
      var mask := And(reg[IPR], reg[IMR]);
      for i := 1 to 32
        invariant LowestIrq(m, i) == LowestIrq(m, 1) && reg == old(reg)
      {
        IrqTest(reg, i);
        if And(AndNot(mask, reg[FFSR]), Pow2(i)) != 0 {
          if !Bit(reg[CISR], 0) {
            reg := reg[ISR := i];
          }
          assert Or(0, NIRQ_BIT) == 2 && Or(NFIQ_BIT, NIRQ_BIT) == 3;
          reg := reg[CISR := Or(reg[CISR], NIRQ_BIT)];
          reg := reg[IVR := reg[SVR + i]];
          return;
        }
      }
    }
  }

  lemma FiqTest(m: Registers, i: nat)
    ensures var mask := And(m[IPR], m[IMR]);
            (i == 0 && And(mask, 1) != 0) || And(And(m[FFSR], mask), Pow2(i)) != 0 <==> Fiq(m, i)
  {
    var mask := And(m[IPR], m[IMR]);
    AndPow(mask, 0);
    AndPow(And(m[FFSR], mask), i);
    AndBit(m[FFSR], mask, i);
    AndBit(m[IPR], m[IMR], i);
  }

  lemma IrqTest(m: Registers, i: nat)
    requires i > 0
    ensures And(AndNot(And(m[IPR], m[IMR]), m[FFSR]), Pow2(i)) != 0 <==> Irq(m, i)
  {
    var mask := And(m[IPR], m[IMR]);
    AndPow(AndNot(mask, m[FFSR]), i);
    AndNotBit(mask, m[FFSR], i);
    AndBit(m[IPR], m[IMR], i);
  }

  datatype Op = Write(index: nat, value: Register) | Raise(id: nat) | Release(id: nat)

  predicate Legal(op: Op) {
    match op
    case Write(index, _) => index < COUNT
    case Raise(id) => id < 32
    case Release(id) => id < 32
  }

  function Applied(m: Registers, op: Op): Registers
    requires Legal(op)
  {
    match op
    case Write(index, value) => Written(m, index, value)
    case Raise(id) => Pended(m, id, true)
    case Release(id) => Pended(m, id, false)
  }

  predicate AllLegal(ops: seq<Op>) {
    forall i | 0 <= i < |ops| :: Legal(ops[i])
  }

  function AllApplied(m: Registers, ops: seq<Op>): Registers
    requires AllLegal(ops)
  {
    if ops == [] then m else Applied(AllApplied(m, ops[..|ops| - 1]), ops[|ops| - 1])
  }

  lemma AppliedSame(m: Registers, m': Registers, op: Op)
    requires Legal(op) && SameSources(m, m')
    ensures SameSources(Applied(m, op), Applied(m', op))
  {
  }

  /** The value that software last wrote to a register, or what was there before. */
  function LastWritten(ops: seq<Op>, index: nat, start: Register): Register {
    if ops == [] then start
    else
      match ops[|ops| - 1]
      case Write(i, value) => if i == index then value else LastWritten(ops[..|ops| - 1], index, start)
      case _ => LastWritten(ops[..|ops| - 1], index, start)
  }

  lemma VectorKept(m: Registers, op: Op, k: nat)
    requires Legal(op) && k < 32
    ensures Applied(m, op)[SVR + k] == if op.Write? && op.index == SVR + k then op.value else m[SVR + k]
  {
    hide Or, AndNot, Pow2;
  }

  /** The vector of a source is what was last written to it. */
  lemma {:induction false} VectorsLast(m: Registers, ops: seq<Op>, k: nat)
    requires AllLegal(ops) && k < 32
    ensures AllApplied(m, ops)[SVR + k] == LastWritten(ops, SVR + k, m[SVR + k])
  {
    hide Applied, Legal;
    if ops != [] {
      var n := |ops| - 1;
      VectorsLast(m, ops[..n], k);
      VectorKept(AllApplied(m, ops[..n]), ops[n], k);
    }
  }

  /** Is a source pending after an operation: by its own line, or by a write of IPR? */
  predicate Pends(op: Op, before: bool, k: nat) {
    match op
    case Write(index, value) => if index == IPR then Bit(value, k) else before
    case Raise(id) => id == k || before
    case Release(id) => id != k && before
  }

  /** What the last write to a set or clear register that names a source says of it. */
  predicate Latches(op: Op, before: bool, setter: nat, clearer: nat, k: nat) {
    if op.Write? && op.index == setter && Bit(op.value, k) then true
    else if op.Write? && op.index == clearer && Bit(op.value, k) then false
    else before
  }

  predicate PendingAfter(start: Registers, ops: seq<Op>, k: nat) {
    if ops == [] then Bit(start[IPR], k) else Pends(ops[|ops| - 1], PendingAfter(start, ops[..|ops| - 1], k), k)
  }

  predicate LatchedAfter(start: bool, ops: seq<Op>, setter: nat, clearer: nat, k: nat) {
    if ops == [] then start
    else Latches(ops[|ops| - 1], LatchedAfter(start, ops[..|ops| - 1], setter, clearer, k), setter, clearer, k)
  }

  /** Is a source, by what was done, pending, enabled, and led to FIQ (`fast`) or to IRQ?  Source 0 and the forced ones
      are led to FIQ. */
  predicate Driving(start: Registers, ops: seq<Op>, k: nat, fast: bool) {
    && PendingAfter(start, ops, k)
    && LatchedAfter(Bit(start[IMR], k), ops, IECR, IDCR, k)
    && fast == (k == 0 || LatchedAfter(Bit(start[FFSR], k), ops, FFER, FFDR, k))
  }

  ghost predicate FirstDriving(start: Registers, ops: seq<Op>, k: nat, fast: bool) {
    k < 32 && Driving(start, ops, k, fast) && forall j: nat | j < k :: !Driving(start, ops, j, fast)
  }

  lemma AppliedBits(m: Registers, op: Op, k: nat)
    requires Legal(op)
    ensures Bit(Applied(m, op)[IPR], k) == Pends(op, Bit(m[IPR], k), k)
    ensures Bit(Applied(m, op)[IMR], k) == Latches(op, Bit(m[IMR], k), IECR, IDCR, k)
    ensures Bit(Applied(m, op)[FFSR], k) == Latches(op, Bit(m[FFSR], k), FFER, FFDR, k)
  {
    hide Bit, Written, Pended;
    match op
    case Write(index, value) => WrittenSources(m, index, value, k);
    case Raise(id) => PendedSources(m, id, true, k);
    case Release(id) => PendedSources(m, id, false, k);
  }

  /** The source registers after a sequence are what its writes and source changes say, bit by bit. */
  lemma {:induction false} HistoryBits(m: Registers, ops: seq<Op>, k: nat)
    requires AllLegal(ops)
    ensures var m' := AllApplied(m, ops);
            && Bit(m'[IPR], k) == PendingAfter(m, ops, k)
            && Bit(m'[IMR], k) == LatchedAfter(Bit(m[IMR], k), ops, IECR, IDCR, k)
            && Bit(m'[FFSR], k) == LatchedAfter(Bit(m[FFSR], k), ops, FFER, FFDR, k)
  {
    hide Bit, Applied, Legal, Pends, Latches;
    if ops != [] {
      var n := |ops| - 1;
      HistoryBits(m, ops[..n], k);
      AppliedBits(AllApplied(m, ops[..n]), ops[n], k);
    }
  }

  lemma SourcesDriving(m: Registers, ops: seq<Op>, m': Registers, k: nat)
    requires AllLegal(ops) && SameSources(AllApplied(m, ops), m')
    ensures Fiq(m', k) <==> Driving(m, ops, k, true)
    ensures Irq(m', k) <==> Driving(m, ops, k, false)
  {
    hide AllLegal, AllApplied, Bit, PendingAfter, LatchedAfter;
    HistoryBits(m, ops, k);
    SameBits(AllApplied(m, ops), m');
  }

  lemma SameBits(m: Registers, m': Registers)
    requires SameSources(m, m')
    ensures m'[IPR] == m[IPR] && m'[IMR] == m[IMR] && m'[FFSR] == m[FFSR]
  {
  }

  lemma SameVector(m: Registers, m': Registers, k: nat)
    requires SameSources(m, m') && k < 32
    ensures m'[SVR + k] == m[SVR + k]
  {
  }

  /** What the lines, ISR and the vectors say of the sources that drive them. */
  ghost predicate Follows(start: Registers, ops: seq<Op>, m: Registers, fiq: bool, irq: bool) {
    && (fiq <==> exists k: nat :: k < 32 && Driving(start, ops, k, true))
    && (irq <==> exists k: nat :: k < 32 && Driving(start, ops, k, false))
    && m[CISR] == (if fiq then 1 else 0) + (if irq then 2 else 0)
    && (forall k: nat | FirstDriving(start, ops, k, true) :: m[ISR] == k && m[FVR] == LastWritten(ops, SVR, start[SVR]))
    && (forall k: nat | FirstDriving(start, ops, k, false) ::
          k < 32 && m[IVR] == LastWritten(ops, SVR + k, start[SVR + k]) && (!fiq ==> m[ISR] == k))
  }

  predicate Source(m: Registers, k: nat, fast: bool) {
    if fast then Fiq(m, k) else Irq(m, k)
  }

  ghost predicate FirstSource(m: Registers, k: nat, fast: bool) {
    k < 32 && Source(m, k, fast) && forall j: nat | j < k :: !Source(m, j, fast)
  }

  lemma LowestFirst(m: Registers, k: nat)
    ensures FirstSource(m, k, true) <==> k == LowestFiq(m, 0) < 32
    ensures FirstSource(m, k, false) <==> k == LowestIrq(m, 1) < 32
  {
    assert !Irq(m, 0);
    var n, l := LowestFiq(m, 0), LowestIrq(m, 1);
    hide Fiq, Irq;
    assert forall j | 0 <= j < n :: !Source(m, j, true);
    assert forall j | 0 <= j < l :: !Source(m, j, false);
    assert (n < 32 ==> Source(m, n, true)) && (l < 32 ==> Source(m, l, false));
  }

  lemma SomeFirst(m: Registers, k: nat, fast: bool) returns (n: nat)
    requires k < 32 && Source(m, k, fast)
    ensures FirstSource(m, n, fast)
  {
    hide Source;
    if j: nat :| j < k && Source(m, j, fast) {
      n := SomeFirst(m, j, fast);
    } else {
      n := k;
    }
  }

  /** A settled state in terms of its sources. */
  lemma SettledMeans(m: Registers, fiq: bool, irq: bool, k: nat)
    requires Settled(m, fiq, irq)
    ensures k < 32 && Source(m, k, true) ==> fiq
    ensures k < 32 && Source(m, k, false) ==> irq
    ensures fiq ==> LowestFiq(m, 0) < 32
    ensures irq ==> LowestIrq(m, 1) < 32
    ensures FirstSource(m, k, true) ==> m[ISR] == k && m[FVR] == m[SVR]
    ensures FirstSource(m, k, false) ==> k < 32 && m[IVR] == m[SVR + k] && (!fiq ==> m[ISR] == k)
  {
    hide FiqMask, IrqMask, LowestFiq, LowestIrq, FirstSource, Source;
    MasksFound(m);
    LowestFirst(m, k);
    if k < 32 && Source(m, k, true) {
      var n := SomeFirst(m, k, true);
      LowestFirst(m, n);
    }
    if k < 32 && Source(m, k, false) {
      var n := SomeFirst(m, k, false);
      LowestFirst(m, n);
    }
  }

  lemma FirstAlike(m: Registers, ops: seq<Op>, m': Registers, k: nat, fast: bool)
    requires forall j: nat :: Source(m', j, fast) <==> Driving(m, ops, j, fast)
    ensures FirstSource(m', k, fast) <==> FirstDriving(m, ops, k, fast)
  {
    hide Source, Driving;
  }

  lemma SourcesAlike(m: Registers, ops: seq<Op>, m': Registers, fast: bool)
    requires AllLegal(ops) && SameSources(AllApplied(m, ops), m')
    ensures forall j: nat :: Source(m', j, fast) <==> Driving(m, ops, j, fast)
  {
    hide AllLegal, AllApplied, SameSources, Driving, Fiq, Irq;
    forall j: nat ensures Source(m', j, fast) <==> Driving(m, ops, j, fast) { SourcesDriving(m, ops, m', j); }
  }

  lemma FirstFollows(m: Registers, ops: seq<Op>, m': Registers, fiq: bool, irq: bool, k: nat)
    requires AllLegal(ops) && SameSources(AllApplied(m, ops), m') && Settled(m', fiq, irq)
    ensures FirstDriving(m, ops, k, true) ==> m'[ISR] == k && m'[FVR] == LastWritten(ops, SVR, m[SVR])
    ensures FirstDriving(m, ops, k, false) ==>
              k < 32 && m'[IVR] == LastWritten(ops, SVR + k, m[SVR + k]) && (!fiq ==> m'[ISR] == k)
  {
    hide *;
    SettledMeans(m', fiq, irq, k);
    SourcesAlike(m, ops, m', true);
    SourcesAlike(m, ops, m', false);
    FirstAlike(m, ops, m', k, true);
    FirstAlike(m, ops, m', k, false);
    VectorsLast(m, ops, 0);
    SameVector(AllApplied(m, ops), m', 0);
    if k < 32 {
      VectorsLast(m, ops, k);
      SameVector(AllApplied(m, ops), m', k);
    }
  }

  lemma SettledFollows(m: Registers, ops: seq<Op>, m': Registers, fiq: bool, irq: bool)
    requires AllLegal(ops) && SameSources(AllApplied(m, ops), m') && Settled(m', fiq, irq)
    ensures Follows(m, ops, m', fiq, irq)
  {
    hide AllLegal, AllApplied, LastWritten, Source, Driving, Settled, SameSources, FirstSource, FirstDriving, LowestFiq, LowestIrq;
    SourcesAlike(m, ops, m', true);
    SourcesAlike(m, ops, m', false);
    forall k: nat
      ensures k < 32 && Driving(m, ops, k, true) ==> fiq
      ensures k < 32 && Driving(m, ops, k, false) ==> irq
      ensures FirstDriving(m, ops, k, true) ==> m'[ISR] == k && m'[FVR] == LastWritten(ops, SVR, m[SVR])
      ensures FirstDriving(m, ops, k, false) ==>
                k < 32 && m'[IVR] == LastWritten(ops, SVR + k, m[SVR + k]) && (!fiq ==> m'[ISR] == k)
    {
      SettledMeans(m', fiq, irq, k);
      FirstFollows(m, ops, m', fiq, irq, k);
    }
    SettledMeans(m', fiq, irq, 0);
    SettledStatus(m', fiq, irq);
    LowestSource(m');
    assert fiq ==> Driving(m, ops, LowestFiq(m', 0), true);
    assert irq ==> Driving(m, ops, LowestIrq(m', 1), false);
  }

  lemma SettledStatus(m: Registers, fiq: bool, irq: bool)
    requires Settled(m, fiq, irq)
    ensures m[CISR] == (if fiq then 1 else 0) + (if irq then 2 else 0)
  {
  }

  lemma LowestSource(m: Registers)
    ensures LowestFiq(m, 0) < 32 ==> Source(m, LowestFiq(m, 0), true)
    ensures LowestIrq(m, 1) < 32 ==> Source(m, LowestIrq(m, 1), false)
  {
  }

  /** After any sequence of register writes and source changes the lines, ISR and the vectors are those of the sources that
      the sequence leaves pending, enabled and forced, with the vectors that it wrote last. */
  method Run(aic: Aic, ops: seq<Op>)
    requires Settled(aic.reg, aic.fiq, aic.irq) && AllLegal(ops)
    modifies aic
    ensures Settled(aic.reg, aic.fiq, aic.irq) && SameSources(AllApplied(old(aic.reg), ops), aic.reg)
    ensures Follows(old(aic.reg), ops, aic.reg, aic.fiq, aic.irq)
  {
    hide Settled, SameSources, Applied, Follows, Legal;
    ghost var m := aic.reg;
    NoneApplied(m);
    for i := 0 to |ops|
      invariant Settled(aic.reg, aic.fiq, aic.irq) && SameSources(AllApplied(m, ops[..i]), aic.reg)
    {
      assert ops[..i + 1][..i] == ops[..i];
      ghost var before := aic.reg;
      AppliedSame(AllApplied(m, ops[..i]), before, ops[i]);
      Step(aic, ops[i]);
      SameSourcesOn(AllApplied(m, ops[..i + 1]), Applied(before, ops[i]), aic.reg);
    }
    assert ops[..|ops|] == ops;
    SettledFollows(m, ops, aic.reg, aic.fiq, aic.irq);
  }

  lemma NoneApplied(m: Registers)
    ensures AllApplied(m, []) == m && SameSources(m, m)
  {
  }

  lemma SameSourcesOn(m: Registers, m': Registers, m'': Registers)
    requires SameSources(m, m') && SameSources(m', m'')
    ensures SameSources(m, m'')
  {
  }

  method Step(aic: Aic, op: Op)
    requires Settled(aic.reg, aic.fiq, aic.irq) && Legal(op)
    modifies aic
    ensures Settled(aic.reg, aic.fiq, aic.irq) && SameSources(Applied(old(aic.reg), op), aic.reg)
  {
    hide Settled, SameSources;
    match op {
      case Write(index, value) => aic.RegWr(index, value);
      case Raise(id) => aic.InterruptSet(id);
      case Release(id) => aic.InterruptClr(id);
    }
  }
}
