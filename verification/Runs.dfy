/** Runs of the ARM926 data side refine runs of one flat byte memory. */
module Runs {
  import opened Arithmetic
  import Bits
  import Tables
  import opened Words
  import opened Tlb
  import opened WriteBuffer
  import opened Coherence
  import opened Arm926

  /** What a program can ask of the data side.  `buffer` is what a read finds in its result variable. */
  datatype Op =
    | Read(va: nat, width: Width, buffer: Word)
    | Write(va: nat, width: Width, data: Word)
    | CacheOp(opc2: nat, crm: nat, value: nat)
    | TlbOp(opc2: nat, crm: nat, value: nat)

  datatype Answer = Answer(fault: Fault, data: Word)

  const SILENT := Answer(NoFault, Word(0, 0, 0, 0))

  /** The operations within the scope of the model. */
  predicate Legal(cpu: Arm926, op: Op) {
    match op
    case Read(va, width, _) => va < SIZE && (cpu.dcacheEnabled || cpu.alignCheck || Aligned(cpu.Mva(va), width))
    case Write(va, width, _) => va < SIZE && (cpu.dcacheEnabled || cpu.alignCheck || Aligned(cpu.Mva(va), width))
    case CacheOp(opc2, crm, value) => Arm926.DataOp(opc2, crm) && value < SIZE
    case TlbOp(opc2, crm, _) => crm == 5 || crm == 6 || (crm == 7 && opc2 < 2)
  }

  predicate AllLegal(cpu: Arm926, ops: seq<Op>) {
    forall i | 0 <= i < |ops| :: Legal(cpu, ops[i])
  }

  /** An access that meets no fault acts on bytes of the address space. */
  lemma TargetFits(cpu: Arm926, va: nat, width: Width, read: bool)
    requires cpu.Configured() && va < SIZE
    requires cpu.dcacheEnabled || cpu.alignCheck || Aligned(cpu.Mva(va), width)
    requires cpu.Outcome(va, width, read) == NoFault
    ensures cpu.Target(va, width) + width.Bytes() <= SIZE
  {
    cpu.MvaFits(va);
    if cpu.dcacheEnabled {
      var word := AlignDown(cpu.Mva(va), 4);
      assert MapsAs(cpu.am, cpu.tr, word);
      Division(word, 4, cpu.Mva(va) / 4, 0);
      WordBytes(cpu.am, word, 3);
    } else {
      AlignedFits(cpu.Mva(va), width);
    }
  }

  /** The reference machine: one operation on a flat memory, with no cache, buffer or lookaside buffer. */
  ghost function FlatStep(cpu: Arm926, op: Op, m: Memory): (Answer, Memory)
    requires cpu.Configured() && Legal(cpu, op)
  {
    match op
    case Read(va, width, buffer) =>
      var fault := cpu.Outcome(va, width, true);
      if fault != NoFault || cpu.Refused(va) then (Answer(fault, buffer), m)
      else
        TargetFits(cpu, va, width, true);
        (Answer(NoFault, Load(m, cpu.Target(va, width), width)), m)
    case Write(va, width, data) =>
      var fault := cpu.Outcome(va, width, false);
      if fault != NoFault then (Answer(fault, SILENT.data), m)
      else
        TargetFits(cpu, va, width, false);
        (SILENT, Store(m, cpu.Target(va, width), data, width))
    case CacheOp(_, _, _) => (SILENT, m)
    case TlbOp(_, _, _) => (SILENT, m)
  }

  ghost function FlatRun(cpu: Arm926, ops: seq<Op>, m: Memory): (r: (seq<Answer>, Memory))
    requires cpu.Configured() && AllLegal(cpu, ops)
    ensures |r.0| == |ops|
  {
    if ops == [] then ([], m)
    else
      var n := |ops| - 1;
      var (answers, m') := FlatRun(cpu, ops[..n], m);
      var (answer, m'') := FlatStep(cpu, ops[n], m');
      (answers + [answer], m'')
  }

  method Step(cpu: Arm926, op: Op) returns (answer: Answer)
    requires cpu.Valid() && Legal(cpu, op)
    modifies cpu`flat, cpu.tlb, cpu.tlb.entries, cpu.icache`lines, cpu.dcache, cpu.wb, cpu.wb.entries, cpu.wb.bus
    ensures cpu.Valid() && (answer, cpu.flat) == FlatStep(cpu, op, old(cpu.flat))
  {
    hide Coherent, Injective, BlocksMapped, Replicated, AllFit, WriteBuffer.Queue, CheckAccess;
    answer := SILENT;
    match op {
      case Read(va, width, buffer) =>
        var fault, data := cpu.MmuRead(va, width, buffer);
        answer := Answer(fault, data);
      case Write(va, width, data) =>
        var fault := cpu.MmuWrite(va, width, data);
        answer := Answer(fault, SILENT.data);
      case CacheOp(opc2, crm, value) =>
        cpu.CacheOps(opc2, crm, value);
      case TlbOp(opc2, crm, value) =>
        cpu.TlbOps(opc2, crm, value);
    }
  }

  /** Every run of accesses and maintenance operations answers as the flat memory does. */
  method Run(cpu: Arm926, ops: seq<Op>) returns (answers: seq<Answer>)
    requires cpu.Valid() && AllLegal(cpu, ops)
    modifies cpu`flat, cpu.tlb, cpu.tlb.entries, cpu.icache`lines, cpu.dcache, cpu.wb, cpu.wb.entries, cpu.wb.bus
    ensures cpu.Valid() && (answers, cpu.flat) == FlatRun(cpu, ops, old(cpu.flat))
  {
    hide Coherent, Injective, BlocksMapped, Replicated, AllFit, WriteBuffer.Queue, FlatStep;
    answers := [];
    for i := 0 to |ops|
      invariant cpu.Valid() && (answers, cpu.flat) == FlatRun(cpu, ops[..i], old(cpu.flat))
    {
      assert ops[..i + 1][..i] == ops[..i];
      var answer := Step(cpu, ops[i]);
      answers := answers + [answer];
    }
    assert ops[..|ops|] == ops;
  }

  /** The value a read of `width` bytes gives after those bytes of `d` were written. */
  function ZeroExtended(d: Word, width: Width): Word {
    match width
    case ByteType => Word(d.b0, 0, 0, 0)
    case HalfwordType => Word(d.b0, d.b1, 0, 0)
    case WordType => d
  }

  lemma LoadStore(m: Memory, a: nat, d: Word, width: Width, b: nat, width': Width)
    requires a + width.Bytes() <= SIZE && b + width'.Bytes() <= SIZE
    ensures a == b && width == width' ==> Load(Store(m, a, d, width), b, width') == ZeroExtended(d, width)
    ensures a + width.Bytes() <= b || b + width'.Bytes() <= a ==> Load(Store(m, a, d, width), b, width') == Load(m, b, width')
  {
  }

  /** Does an operation store into the `n` bytes at `a`? */
  ghost predicate StoresInto(cpu: Arm926, op: Op, a: nat, n: nat)
    requires cpu.Configured()
  {
    && op.Write? && cpu.Outcome(op.va, op.width, false) == NoFault
    && a < cpu.Target(op.va, op.width) + op.width.Bytes() && cpu.Target(op.va, op.width) < a + n
  }

  /** An operation that stores elsewhere leaves a location as it is. */
  lemma {:induction false} LocationKept(cpu: Arm926, ops: seq<Op>, i: nat, m: Memory, a: nat, width: Width)
    requires cpu.Configured() && AllLegal(cpu, ops) && i <= |ops| && a + width.Bytes() <= SIZE
    requires forall j | i <= j < |ops| :: !StoresInto(cpu, ops[j], a, width.Bytes())
    ensures Load(FlatRun(cpu, ops, m).1, a, width) == Load(FlatRun(cpu, ops[..i], m).1, a, width)
  {
    var n := |ops| - 1;
    if i <= n {
      var shorter := ops[..n];
      assert shorter[..i] == ops[..i];
      LocationKept(cpu, shorter, i, m, a, width);
      var op, m' := ops[n], FlatRun(cpu, shorter, m).1;
      if op.Write? && cpu.Outcome(op.va, op.width, false) == NoFault {
        TargetFits(cpu, op.va, op.width, false);
        assert !StoresInto(cpu, op, a, width.Bytes());
        LoadStore(m', cpu.Target(op.va, op.width), op.data, op.width, a, width);
      }
    } else {
      assert ops[..i] == ops;
    }
  }

  lemma WriteStored(cpu: Arm926, ops: seq<Op>, i: nat, m: Memory)
    requires cpu.Configured() && AllLegal(cpu, ops) && i < |ops|
    requires ops[i].Write? && cpu.Outcome(ops[i].va, ops[i].width, false) == NoFault
    ensures var a, width := cpu.Target(ops[i].va, ops[i].width), ops[i].width;
            a + width.Bytes() <= SIZE && Load(FlatRun(cpu, ops[..i + 1], m).1, a, width) == ZeroExtended(ops[i].data, width)
  {
    var a, width := cpu.Target(ops[i].va, ops[i].width), ops[i].width;
    TargetFits(cpu, ops[i].va, width, false);
    assert ops[..i + 1][..i] == ops[..i];
    LoadStore(FlatRun(cpu, ops[..i], m).1, a, ops[i].data, width, a, width);
  }

  lemma LastAnswer(cpu: Arm926, ops: seq<Op>, k: nat, m: Memory)
    requires cpu.Configured() && AllLegal(cpu, ops) && k < |ops|
    ensures FlatRun(cpu, ops[..k + 1], m).0[k] == FlatStep(cpu, ops[k], FlatRun(cpu, ops[..k], m).1).0
  {
    hide FlatStep;
    assert ops[..k + 1][..k] == ops[..k];
  }

  /** In any run, a read returns the data of the last write to its address: whatever was done in between
      to other locations, to the caches, the buffer or the lookaside buffer. */
  lemma ReadLastWrite(cpu: Arm926, ops: seq<Op>, i: nat, k: nat, m: Memory)
    requires cpu.Configured() && AllLegal(cpu, ops) && i < k < |ops|
    requires ops[i].Write? && ops[k].Read? && ops[i].va == ops[k].va && ops[i].width == ops[k].width
    requires cpu.Outcome(ops[i].va, ops[i].width, false) == NoFault && cpu.Outcome(ops[k].va, ops[k].width, true) == NoFault
    requires !cpu.Refused(ops[k].va)
    requires forall j | i < j < k :: !StoresInto(cpu, ops[j], cpu.Target(ops[i].va, ops[i].width), ops[i].width.Bytes())
    ensures FlatRun(cpu, ops[..k + 1], m).0[k] == Answer(NoFault, ZeroExtended(ops[i].data, ops[i].width))
  {
    hide CheckAccess, Injective, BlocksMapped, Replicated, MapOf, FlatRun;
    WriteStored(cpu, ops, i, m);
    assert ops[..k][..i + 1] == ops[..i + 1];
    LocationKept(cpu, ops[..k], i + 1, m, cpu.Target(ops[i].va, ops[i].width), ops[i].width);
    LastAnswer(cpu, ops, k, m);
  }

  /** The processor that `cpu` would be with process identifier 0. */
  ghost predicate Unrelocated(cpu: Arm926, cpu0: Arm926) {
    && cpu0.fcse == 0 && cpu0.tr == cpu.tr && cpu0.am == cpu.am && cpu0.ac == cpu.ac
    && cpu0.alignCheck == cpu.alignCheck && cpu0.dcacheEnabled == cpu.dcacheEnabled
  }

  /** Where the process identifier moves an address: within the lowest 32 megabytes to its own block of 32 megabytes. */
  function Relocated(fcse: nat, va: nat): nat {
    if va < 0x200_0000 then va + fcse else va
  }

  lemma RelocatedFits(fcse: nat, va: nat)
    requires fcse % 0x200_0000 == 0 && fcse < SIZE && va < SIZE
    ensures Relocated(fcse, va) < SIZE && Relocated(fcse, va) % 4 == va % 4
  {
    assert fcse == 0x200_0000 * (fcse / 0x200_0000);
    if va < 0x200_0000 { Division(va + fcse, 4, 0x80_0000 * (fcse / 0x200_0000) + va / 4, va % 4); }
  }

  lemma SameLane(va: nat, x: nat, width: Width)
    requires va % 4 == x % 4
    ensures FirstLane(va, width) == FirstLane(x, width) && Aligned(va, width) == Aligned(x, width)
  {
    Division(va, 2, 2 * (va / 4) + va % 4 / 2, va % 4 % 2);
    Division(x, 2, 2 * (x / 4) + x % 4 / 2, x % 4 % 2);
  }

  /** An access is the same access, at the relocated address, of a processor without process identifier. */
  lemma Relocation(cpu: Arm926, cpu0: Arm926, va: nat, width: Width)
    requires cpu.Configured() && cpu0.Configured() && Unrelocated(cpu, cpu0) && va < SIZE
    ensures var x := Relocated(cpu.fcse, va);
            && x < SIZE && Aligned(cpu.Mva(va), width) == Aligned(cpu0.Mva(x), width)
            && (forall read :: cpu.Outcome(va, width, read) == cpu0.Outcome(x, width, read))
            && cpu.Target(va, width) == cpu0.Target(x, width) && cpu.Refused(va) == cpu0.Refused(x)
  {
    hide CheckAccess, Injective, BlocksMapped, Replicated, MapOf, FirstLane, Aligned;
    var x := Relocated(cpu.fcse, va);
    RelocatedFits(cpu.fcse, va);
    SameLane(va, x, width);
    assert cpu.Mva(va) == x == cpu0.Mva(x);
  }

  function RelocatedOp(fcse: nat, op: Op): Op {
    match op
    case Read(va, width, buffer) => Read(Relocated(fcse, va), width, buffer)
    case Write(va, width, data) => Write(Relocated(fcse, va), width, data)
    case CacheOp(_, _, _) => op
    case TlbOp(_, _, _) => op
  }

  function RelocatedOps(fcse: nat, ops: seq<Op>): (r: seq<Op>)
    ensures |r| == |ops| && forall i | 0 <= i < |ops| :: r[i] == RelocatedOp(fcse, ops[i])
  {
    seq(|ops|, i requires 0 <= i < |ops| => RelocatedOp(fcse, ops[i]))
  }

  lemma RelocatedStep(cpu: Arm926, cpu0: Arm926, op: Op, m: Memory)
    requires cpu.Configured() && cpu0.Configured() && Unrelocated(cpu, cpu0) && Legal(cpu, op)
    ensures Legal(cpu0, RelocatedOp(cpu.fcse, op))
    ensures FlatStep(cpu, op, m) == FlatStep(cpu0, RelocatedOp(cpu.fcse, op), m)
  {
    hide Relocated, Injective, BlocksMapped, Replicated, MapOf, CheckAccess, Aligned, Arm926.Mva, Arm926.Outcome, Arm926.Target,
      Arm926.Refused, Arm926.Configured, Load, Store;
    if op.Read? || op.Write? {
      Relocation(cpu, cpu0, op.va, op.width);
    }
  }

  /** A program runs under a process identifier as its relocated copy runs without. */
  lemma {:induction false} RelocatedRun(cpu: Arm926, cpu0: Arm926, ops: seq<Op>, m: Memory)
    requires cpu.Configured() && cpu0.Configured() && Unrelocated(cpu, cpu0) && AllLegal(cpu, ops)
    ensures AllLegal(cpu0, RelocatedOps(cpu.fcse, ops))
    ensures FlatRun(cpu, ops, m) == FlatRun(cpu0, RelocatedOps(cpu.fcse, ops), m)
  {
    hide FlatStep, Legal, RelocatedOp, Arm926.Configured, Unrelocated;
    var moved := RelocatedOps(cpu.fcse, ops);
    forall i | 0 <= i < |ops| ensures Legal(cpu0, moved[i]) {
      RelocatedStep(cpu, cpu0, ops[i], m);
    }
    if ops != [] {
      var n := |ops| - 1;
      RelocatedRun(cpu, cpu0, ops[..n], m);
      assert moved[..n] == RelocatedOps(cpu.fcse, ops[..n]);
      RelocatedStep(cpu, cpu0, ops[n], FlatRun(cpu, ops[..n], m).1);
    }
  }

  /** The source forms `va | fcse_id`. */
  lemma MvaIsOr(cpu: Arm926, va: nat)
    requires cpu.Configured() && va < 0x200_0000
    ensures cpu.Mva(va) == Bits.Or(va, cpu.fcse)
  {
    hide Bits.Or, Bits.Pow2, Injective, BlocksMapped, Replicated, MapOf;
    Bits.PowMegabytes();
    assert cpu.fcse == 0x200_0000 * (cpu.fcse / 0x200_0000);
    Bits.OrApart(va, cpu.fcse / 0x200_0000, 25);
  }

  /** An aligned access acts on the bytes that its own modified addresses are translated to. */
  lemma TargetBytes(cpu: Arm926, va: nat, width: Width, read: bool, j: nat)
    requires cpu.Configured() && va < SIZE && Aligned(va, width) && j < width.Bytes()
    requires cpu.Outcome(va, width, read) == NoFault
    ensures var x := Relocated(cpu.fcse, va) + j;
            x < SIZE && cpu.Target(va, width) + j == if cpu.dcacheEnabled then cpu.am.pa(x) else x
  {
    hide CheckAccess, Injective, BlocksMapped, Replicated, MapOf, FirstLane, Aligned, AlignDown, Relocated;
    RelocatedFits(cpu.fcse, va);
    RelocatedMva(cpu, va);
    var x := Relocated(cpu.fcse, va);
    AlignedLane(va, width, j);
    LaneFits(x, va % 4 + j);
    if cpu.dcacheEnabled {
      AccessMapped(cpu, va, width, read);
      cpu.MappingAt(AlignDown(x, 4));
      WordBytes(cpu.am, AlignDown(x, 4), va % 4 + j);
    }
  }

  lemma RelocatedMva(cpu: Arm926, va: nat)
    ensures cpu.Mva(va) == Relocated(cpu.fcse, va)
  {
  }

  lemma LaneFits(x: nat, k: nat)
    requires x < SIZE && x % 4 <= k < 4
    ensures AlignDown(x, 4) % 4 == 0 && x == AlignDown(x, 4) + x % 4 && AlignDown(x, 4) + k < SIZE
  {
    Division(x - x % 4, 4, x / 4, 0);
  }

  /** The word of an access that meets no fault is mapped. */
  lemma AccessMapped(cpu: Arm926, va: nat, width: Width, read: bool)
    requires cpu.Configured() && va < SIZE && cpu.dcacheEnabled && cpu.Outcome(va, width, read) == NoFault
    ensures Mapped(cpu.am, AlignDown(cpu.Mva(va), 4))
  {
    hide CheckAccess, Injective, BlocksMapped, Replicated, MapOf, Aligned, Arm926.Mva;
    cpu.MvaFits(va);
    cpu.MappingAt(AlignDown(cpu.Mva(va), 4));
  }

  lemma AlignedLane(va: nat, width: Width, j: nat)
    requires Aligned(va, width) && j < width.Bytes()
    ensures FirstLane(va, width) == va % 4 && va % 4 + j < 4
  {
    Division(va, 2, 2 * (va / 4) + va % 4 / 2, va % 4 % 2);
  }

  /** An address with the bits below the width of an access left out. */
  function Place(x: nat, width: Width): nat {
    match width case ByteType => x case HalfwordType => x - x % 2 case WordType => x - x % 4
  }

  /** An access acts there. */
  lemma AccessAddress(x: nat, width: Width)
    ensures Aligned(x, width) == (x == Place(x, width)) && AlignDown(x, 4) + FirstLane(x, width) == Place(x, width)
    ensures FirstLane(x, width) == Place(x, width) % 4 && AlignDown(Place(x, width), 4) == AlignDown(x, 4)
  {
    Division(x, 2, 2 * (x / 4) + x % 4 / 2, x % 4 % 2);
    Division(Place(x, width), 4, x / 4, x % 4 - (x - Place(x, width)));
  }

  /** What tables in memory make of an access at the relocated address `x`. */
  ghost predicate AccessOf(cpu: Arm926, space: Tables.Space, x: nat, width: Width, read: bool, fault: Fault, target: nat)
    requires cpu.Configured()
  {
    var place := Place(x, width);
    if cpu.alignCheck && x != place then fault == AlignmentFault
    else if !cpu.dcacheEnabled then fault == NoFault && target == x
    else
      match Tables.PageOf(space, x - x % 4)
      case None => fault == PageTranslationFault
      case Some(p) =>
        && p.domain < |cpu.ac.domains| && fault == Tables.Admitted(cpu.ac, p, x - x % 4, read)
        && target == p.page.Base(p.mapping) + p.mapping.Offset(place)
  }

  lemma Unchecked(cpu: Arm926, va: nat, width: Width, read: bool)
    requires cpu.Configured() && ((cpu.alignCheck && !Aligned(cpu.Mva(va), width)) || !cpu.dcacheEnabled)
    ensures cpu.Outcome(va, width, read) == if cpu.alignCheck && !Aligned(cpu.Mva(va), width) then AlignmentFault else NoFault
    ensures !cpu.dcacheEnabled ==> cpu.Target(va, width) == cpu.Mva(va)
  {
    hide CheckAccess, Injective, BlocksMapped, Replicated, MapOf, FirstLane, Aligned, AlignDown, Arm926.Mva;
  }

  /** Walk, check and offset in the page for the word of an access. */
  lemma EncodedWord(cpu: Arm926, pt: PageTables, space: Tables.Space, x: nat, width: Width, read: bool)
    requires cpu.Configured() && cpu.tr == Walker(pt) && Tables.Encodes(pt, space) && x < SIZE
    ensures var word := AlignDown(x, 4); var e := cpu.tr(word);
            match Tables.PageOf(space, x - x % 4)
            case None => e.None?
            case Some(p) =>
              && e.Some? && e.value.domain == p.domain < |cpu.ac.domains| && cpu.am.pa(word) == e.value.Pa(word)
              && CheckAccess(cpu.ac, word, e.value, read) == Tables.Admitted(cpu.ac, p, x - x % 4, read)
              && e.value.Pa(word) + FirstLane(x, width) == p.page.Base(p.mapping) + p.mapping.Offset(Place(x, width))
  {
    hide CheckAccess, Injective, BlocksMapped, Replicated, MapOf, FirstLane, Walk, Tables.Encodes, Tables.PageOf, Tables.Admitted;
    var word := x - x % 4;
    AccessAddress(x, width);
    cpu.MappingAt(word);
    cpu.DomainsChecked(word);
    Tables.WalkEncoded(pt, space, word);
    if Walk(pt, word).Some? {
      Tables.AccessEncoded(pt, space, cpu.ac, word, read);
      WalkEntry(pt, word);
      EntryBlock(Walk(pt, word).value, Place(x, width), 4);
    }
  }

  /** From tables in memory to the access: process identifier, alignment, walk, check and offset in the page together. */
  lemma EncodedAccess(cpu: Arm926, pt: PageTables, space: Tables.Space, va: nat, width: Width, read: bool)
    requires cpu.Configured() && cpu.tr == Walker(pt) && Tables.Encodes(pt, space) && va < SIZE
    ensures AccessOf(cpu, space, Relocated(cpu.fcse, va), width, read, cpu.Outcome(va, width, read), cpu.Target(va, width))
  {
    hide CheckAccess, Injective, BlocksMapped, Replicated, MapOf, FirstLane, Aligned, Relocated, Walk, Tables.Encodes,
      Tables.PageOf, Tables.Admitted, Arm926.Mva, TlbEntry.Pa, AlignDown;
    RelocatedFits(cpu.fcse, va);
    RelocatedMva(cpu, va);
    var x := Relocated(cpu.fcse, va);
    AccessAddress(x, width);
    SameLane(va, x, width);
    if (cpu.alignCheck && !Aligned(x, width)) || !cpu.dcacheEnabled {
      Unchecked(cpu, va, width, read);
    } else {
      EncodedWord(cpu, pt, space, x, width, read);
    }
  }
}
