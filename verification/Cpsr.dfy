/** The program status register of the ARM model (Arm32.h), which is kept in many fields. */
module Cpsr {

  const CPSR_M: bv32 := 0x1f
  const CPSR_T: bv32 := 0x20
  const CPSR_E: bv32 := 0x200
  const CPSR_IT_7_2: bv32 := 0xfc00
  const CPSR_GE: bv32 := 0xf_0000
  const CPSR_RESERVED: bv32 := 0xf0_0000
  const CPSR_IT_1_0: bv32 := 0x600_0000
  const CPSR_IT: bv32 := 0x600_fc00
  const CPSR_EXEC: bv32 := 0x700_fc20
  const CPSR_Q: bv32 := 0x800_0000
  const CPSR_NZCV: bv32 := 0xf000_0000
  const CPSR_USER: bv32 := 0xf80f_0000
  const CPSR_CACHED: bv32 := 0xfe0f_fc3f
  const MODE_USR: bv32 := 0x10

  /** The groups of bits that set_cpsr moves together; the last one is the raw word. */
  const GROUPS: set<bv32> := SPLIT + {CPSR_Q, CPSR_T, CPSR_M, !CPSR_CACHED}

  /** Those of more than one bit that it takes whole, whatever part of them the mask has. */
  const SPLIT: set<bv32> := {CPSR_NZCV, CPSR_IT_1_0, CPSR_IT_7_2, CPSR_GE}

  /** Does a mask take a group of bits whole or not at all? */
  predicate Whole(mask: bv32, group: bv32) {
    mask & group == 0 || mask & group == group
  }

  /** The masks under which set_cpsr is a masked update: groups of flags that it moves together are taken
      together, and the mode is left alone. */
  predicate Regular(mask: bv32) {
    && Whole(mask, CPSR_NZCV) && Whole(mask, CPSR_IT_1_0) && Whole(mask, CPSR_IT_7_2) && Whole(mask, CPSR_GE)
    && mask & CPSR_M == 0
  }

  /** `(old & ~mask) | (val & mask)` */
  function Update(old_: bv32, val: bv32, mask: bv32): bv32 {
    (old_ & !mask) | (val & mask)
  }

  /** The fields of the register. */
  datatype Fields = Fields(raw: bv32, n: bv32, z: bv32, c: bv32, v: bv32, q: bv32, t: bv32, it: bv32, ge: bv32, m: bv32) {
    /** Every field within its bits, and none of the bits that have a field in the raw word. */
    predicate Valid() {
      && raw & CPSR_CACHED == 0
      && n <= 1 && z <= 1 && c <= 1 && v <= 1 && q <= 1 && t <= 1 && it <= 0xff && ge <= 0xf && m <= 0x1f
    }

    /** get_cpsr */
    function Word(): bv32 {
      raw | (n << 31) | (z << 30) | (c << 29) | (v << 28) | (q << 27) | (t << 5) | ((it & 3) << 25)
      | (ge << 16) | ((it & 0xfc) << 8) | m
    }
  }

  /** Where the architecture has the fields in the register. */
  lemma FlagBits(f: Fields)
    requires f.Valid()
    ensures var w := f.Word(); w >> 31 == f.n && (w >> 30) & 1 == f.z && (w >> 29) & 1 == f.c && (w >> 28) & 1 == f.v
  {
  }

  lemma StateBits(f: Fields)
    requires f.Valid()
    ensures var w := f.Word(); (w >> 27) & 1 == f.q && (w >> 5) & 1 == f.t && (w >> 16) & 0xf == f.ge && w & 0x1f == f.m
  {
  }

  /** The two low bits of the if-then state are bits 25 and 26, the others bits 10 to 15. */
  lemma IfThenBits(f: Fields)
    requires f.Valid()
    ensures var w := f.Word(); (w >> 25) & 3 == f.it & 3 && (w >> 10) & 0x3f == f.it >> 2
  {
  }

  /** Words that agree on every group are equal. */
  lemma SameGroups(x: bv32, y: bv32)
    requires Agree(x, y, CPSR_NZCV) && Agree(x, y, CPSR_Q) && Agree(x, y, CPSR_T) && Agree(x, y, CPSR_IT_1_0)
    requires Agree(x, y, CPSR_IT_7_2) && Agree(x, y, CPSR_GE) && Agree(x, y, CPSR_M) && Agree(x, y, !CPSR_CACHED)
    ensures x == y
  {
  }

  /** Does a mask reach a group of bits? */
  predicate Touches(mask: bv32, group: bv32) {
    mask & group != 0
  }

  /** The values set_cpsr takes from its argument. */
  function Negative(val: bv32): bv32 { (val >> 31) & 1 }

  function Zero(val: bv32): bv32 { (val >> 30) & 1 }

  function Carry(val: bv32): bv32 { (val >> 29) & 1 }

  function Overflow(val: bv32): bv32 { (val >> 28) & 1 }

  function Flag(val: bv32, bit: bv32): bv32 { if val & bit != 0 then 1 else 0 }

  function LowIt(it: bv32, val: bv32): bv32 { (it & !3) | ((val >> 25) & 3) }

  function HighIt(it: bv32, val: bv32): bv32 { (it & 3) | ((val >> 8) & 0xfc) }

  function GreaterEqual(val: bv32): bv32 { (val >> 16) & 0xf }

  /** The new value of a field if the mask reaches its group, the old one otherwise. */
  function Taken(mask: bv32, group: bv32, new_: bv32, old_: bv32): bv32 {
    if Touches(mask, group) then new_ else old_
  }

  /** What set_cpsr stores in each field. */
  function Written(f: Fields, val: bv32, mask: bv32): Fields {
    var it := Taken(mask, CPSR_IT_1_0, LowIt(f.it, val), f.it);
    Fields(
      Update(f.raw, val, mask & !CPSR_CACHED),
      Taken(mask, CPSR_NZCV, Negative(val), f.n),
      Taken(mask, CPSR_NZCV, Zero(val), f.z),
      Taken(mask, CPSR_NZCV, Carry(val), f.c),
      Taken(mask, CPSR_NZCV, Overflow(val), f.v),
      Taken(mask, CPSR_Q, Flag(val, CPSR_Q), f.q),
      Taken(mask, CPSR_T, Flag(val, CPSR_T), f.t),
      Taken(mask, CPSR_IT_7_2, HighIt(it, val), it),
      Taken(mask, CPSR_GE, GreaterEqual(val), f.ge),
      f.m)
  }

  lemma RawBits(raw: bv32, val: bv32, mask: bv32)
    requires raw & CPSR_CACHED == 0
    ensures Update(raw, val, mask & !CPSR_CACHED) & CPSR_CACHED == 0
  {
  }

  lemma WrittenValid(f: Fields, val: bv32, mask: bv32)
    requires f.Valid()
    ensures Written(f, val, mask).Valid()
  {
    RawBits(f.raw, val, mask);
  }

  /** Does set_cpsr go on to switch_mode?  The mode bits of the raw word are always 0. */
  predicate WritesMode(val: bv32, mask: bv32) {
    val & mask & CPSR_M != 0
  }

  /** Do two words agree on a group of bits? */
  predicate Agree(x: bv32, y: bv32, group: bv32) {
    x & group == y & group
  }

  /** The bits of a group. */
  function In(x: bv32, group: bv32): bv32 {
    x & group
  }

  function Flags(f: Fields): bv32 {
    (f.n << 31) | (f.z << 30) | (f.c << 29) | (f.v << 28)
  }

  lemma WordFlags(f: Fields)
    requires f.Valid()
    ensures In(f.Word(), CPSR_NZCV) == Flags(f)
  {
  }

  lemma UpdateFlags(w: bv32, val: bv32, mask: bv32)
    ensures In(Update(w, val, mask), CPSR_NZCV) == Update(In(w, CPSR_NZCV), In(val, CPSR_NZCV), In(mask, CPSR_NZCV))
  {
  }

  lemma SameIn(x: bv32, y: bv32, group: bv32)
    requires In(x, group) == In(y, group)
    ensures Agree(x, y, group)
  {
  }

  lemma FlagsTaken(f: Fields, val: bv32, mask: bv32)
    requires f.Valid() && Regular(mask)
    ensures Flags(Written(f, val, mask)) == Update(Flags(f), In(val, CPSR_NZCV), In(mask, CPSR_NZCV))
  {
  }

  lemma FlagsWritten(f: Fields, val: bv32, mask: bv32)
    requires f.Valid() && Regular(mask)
    ensures Agree(Written(f, val, mask).Word(), Update(f.Word(), val, mask), CPSR_NZCV)
  {
    hide Written, Fields.Word, Fields.Valid, Update, Regular, Flags, In, Agree;
    WrittenValid(f, val, mask);
    WordFlags(f);
    WordFlags(Written(f, val, mask));
    UpdateFlags(f.Word(), val, mask);
    FlagsTaken(f, val, mask);
    SameIn(Written(f, val, mask).Word(), Update(f.Word(), val, mask), CPSR_NZCV);
  }

  lemma ItWritten(f: Fields, val: bv32, mask: bv32, group: bv32)
    requires f.Valid() && Regular(mask) && (group == CPSR_IT_1_0 || group == CPSR_IT_7_2)
    ensures Agree(Written(f, val, mask).Word(), Update(f.Word(), val, mask), group)
  {
    if group == CPSR_IT_1_0 {
    } else {
    }
  }

  lemma FieldWritten(f: Fields, val: bv32, mask: bv32, group: bv32)
    requires f.Valid() && Regular(mask) && (group == CPSR_Q || group == CPSR_T || group == CPSR_M)
    ensures Agree(Written(f, val, mask).Word(), Update(f.Word(), val, mask), group)
  {
    if group == CPSR_Q {
    } else if group == CPSR_T {
    } else {
    }
  }

  lemma RestWritten(f: Fields, val: bv32, mask: bv32, group: bv32)
    requires f.Valid() && Regular(mask) && (group == CPSR_GE || group == !CPSR_CACHED)
    ensures Agree(Written(f, val, mask).Word(), Update(f.Word(), val, mask), group)
  {
    if group == CPSR_GE {
    } else {
    }
  }

  /** set_cpsr moves every group of bits as the masked update does. */
  lemma GroupWritten(f: Fields, val: bv32, mask: bv32, group: bv32)
    requires f.Valid() && Regular(mask) && group in GROUPS
    ensures Agree(Written(f, val, mask).Word(), Update(f.Word(), val, mask), group)
  {
    hide Written, Fields.Word, Fields.Valid, Update, Regular, Agree;
    if group == CPSR_NZCV {
      FlagsWritten(f, val, mask);
    } else if group == CPSR_IT_1_0 || group == CPSR_IT_7_2 {
      ItWritten(f, val, mask, group);
    } else if group == CPSR_Q || group == CPSR_T || group == CPSR_M {
      FieldWritten(f, val, mask, group);
    } else {
      RestWritten(f, val, mask, group);
    }
  }

  /** The register read back after set_cpsr is the masked update of the register read before. */
  lemma WrittenWord(f: Fields, val: bv32, mask: bv32)
    requires f.Valid() && Regular(mask)
    ensures Written(f, val, mask).Valid() && Written(f, val, mask).Word() == Update(f.Word(), val, mask)
  {
    hide Written, Fields.Word, Update, Agree, Fields.Valid, Regular;
    WrittenValid(f, val, mask);
    forall group | group in GROUPS ensures Agree(Written(f, val, mask).Word(), Update(f.Word(), val, mask), group) {
      GroupWritten(f, val, mask, group);
    }
    SameGroups(Written(f, val, mask).Word(), Update(f.Word(), val, mask));
  }

  lemma WrittenRegister(f: Fields, val: bv32, mask: bv32)
    requires f.Valid()
    ensures Written(f, val, mask).Valid()
    ensures Regular(mask) ==> Written(f, val, mask).Word() == Update(f.Word(), val, mask)
  {
    hide Written, Fields.Word, Update, Fields.Valid, Regular;
    WrittenValid(f, val, mask);
    if Regular(mask) { WrittenWord(f, val, mask); }
  }

  lemma PartFlags(f: Fields, mask: bv32, group: bv32)
    requires f.Valid() && !Whole(mask, group) && (group == CPSR_NZCV || group == CPSR_GE)
    ensures !Agree(Written(f, !f.Word(), mask).Word(), Update(f.Word(), !f.Word(), mask), group)
  {
    if group == CPSR_NZCV {
    } else {
    }
  }

  lemma PartIt(f: Fields, mask: bv32, group: bv32)
    requires f.Valid() && !Whole(mask, group) && (group == CPSR_IT_1_0 || group == CPSR_IT_7_2)
    ensures !Agree(Written(f, !f.Word(), mask).Word(), Update(f.Word(), !f.Word(), mask), group)
  {
    if group == CPSR_IT_1_0 {
    } else {
    }
  }

  /** A group that a mask takes in part comes out wrong when every bit of the register is complemented. */
  lemma PartWritten(f: Fields, mask: bv32, group: bv32)
    requires f.Valid() && group in SPLIT && !Whole(mask, group)
    ensures !Agree(Written(f, !f.Word(), mask).Word(), Update(f.Word(), !f.Word(), mask), group)
  {
    hide Written, Fields.Word, Fields.Valid, Update, Whole, Agree;
    if group == CPSR_NZCV || group == CPSR_GE {
      PartFlags(f, mask, group);
    } else {
      PartIt(f, mask, group);
    }
  }

  /** A mask that takes a group in part is no masked update: complementing the register then changes bits
      that the mask leaves out. */
  lemma IrregularMask(f: Fields, mask: bv32)
    requires f.Valid() && mask & CPSR_M == 0 && !Regular(mask)
    ensures Written(f, !f.Word(), mask).Word() != Update(f.Word(), !f.Word(), mask)
  {
    hide Written, Fields.Word, Update, Fields.Valid, Whole;
    var group :| group in SPLIT && !Whole(mask, group);
    PartWritten(f, mask, group);
  }

  /** msr_mask; `flags` has one bit for each byte of the register. */
  function MsrMask(has6: bool, has6T2: bool, m: bv32, flags: bv32, spsr: bool): bv32 {
    var bytes := (if flags & 1 != 0 then 0xff else 0) | (if flags & 2 != 0 then 0xff00 else 0)
                 | (if flags & 4 != 0 then 0xff_0000 else 0) | (if flags & 8 != 0 then 0xff00_0000 else 0);
    var defined := bytes & !CPSR_RESERVED;
    var versioned := if has6 then defined else defined & !(CPSR_E | CPSR_GE);
    var ifThen := if has6T2 then versioned else versioned & !CPSR_IT;
    var state := if spsr then ifThen else ifThen & !CPSR_EXEC;
    if m == MODE_USR then state & CPSR_USER else state
  }

  /** The application's bits in the bytes that an MSR selects. */
  function UserBits(has6: bool, flags: bv32): bv32 {
    (if flags & 8 != 0 then CPSR_NZCV | CPSR_Q else 0) | (if has6 && flags & 4 != 0 then CPSR_GE else 0)
  }

  /** In user mode an MSR can reach the condition flags and Q, with byte 3, and on version 6 the GE bits, with
      byte 2: nothing else, and each group whole. */
  lemma UserMask(has6: bool, has6T2: bool, flags: bv32, spsr: bool)
    ensures var mask := MsrMask(has6, has6T2, MODE_USR, flags, spsr);
            && Regular(mask)
            && mask == UserBits(has6, flags)
  {
  }

  /** The mask byte by byte: reserved bits never, E and GE from version 6 on, the if-then bits with the extension, and
      the execution state (if-then, J and T) in a saved register only. */
  lemma MaskBytes(has6: bool, has6T2: bool, m: bv32, flags: bv32, spsr: bool)
    requires m != MODE_USR
    ensures MsrMask(has6, has6T2, m, flags, spsr) ==
              (if flags & 1 != 0 then (if spsr then 0xff else 0xdf) else 0)
              | (if flags & 2 != 0 then 0x100 | (if has6 then 0x200 else 0) | (if has6T2 && spsr then 0xfc00 else 0) else 0)
              | (if flags & 4 != 0 && has6 then 0xf_0000 else 0)
              | (if flags & 8 != 0 then 0xf800_0000 | (if spsr then 0x100_0000 else 0) | (if has6T2 && spsr then 0x600_0000 else 0) else 0)
  {
  }

  class Psr {
    const has6: bool
    const has6T2: bool
    var fields: Fields
    var spsr: bv32

    constructor (has6: bool, has6T2: bool)
      ensures this.has6 == has6 && this.has6T2 == has6T2 && fields.Valid() && fields.m == MODE_USR
    {
      this.has6, this.has6T2 := has6, has6T2;
      fields, spsr := Fields(0, 0, 0, 0, 0, 0, 0, 0, 0, MODE_USR), 0;
    }

    /** The steps of set_cpsr: the condition flags, */
    method SetFlags(val: bv32, mask: bv32)
      modifies this`fields
      ensures fields == old(fields).(n := Taken(mask, CPSR_NZCV, Negative(val), old(fields).n),
                                     z := Taken(mask, CPSR_NZCV, Zero(val), old(fields).z),
                                     c := Taken(mask, CPSR_NZCV, Carry(val), old(fields).c),
                                     v := Taken(mask, CPSR_NZCV, Overflow(val), old(fields).v))
    {
      hide Touches, Negative, Zero, Carry, Overflow;
      if Touches(mask, CPSR_NZCV) {
        fields := fields.(n := Negative(val), z := Zero(val), c := Carry(val), v := Overflow(val));
      }
    }

    /** saturation and instruction set, */
    method SetState(val: bv32, mask: bv32)
      modifies this`fields
      ensures fields == old(fields).(q := Taken(mask, CPSR_Q, Flag(val, CPSR_Q), old(fields).q),
                                     t := Taken(mask, CPSR_T, Flag(val, CPSR_T), old(fields).t))
    {
      hide Touches, Flag;
      if Touches(mask, CPSR_Q) {
        fields := fields.(q := Flag(val, CPSR_Q));
      }
      if Touches(mask, CPSR_T) {
        fields := fields.(t := Flag(val, CPSR_T));
      }
    }

    /** and the two parts of the if-then state. */
    method SetIt(val: bv32, mask: bv32)
      modifies this`fields
      ensures var it := Taken(mask, CPSR_IT_1_0, LowIt(old(fields).it, val), old(fields).it);
              fields == old(fields).(it := Taken(mask, CPSR_IT_7_2, HighIt(it, val), it))
    {
      hide Touches, LowIt, HighIt;
      if Touches(mask, CPSR_IT_1_0) {
        fields := fields.(it := LowIt(fields.it, val));
      }
      if Touches(mask, CPSR_IT_7_2) {
        fields := fields.(it := HighIt(fields.it, val));
      }
    }

    method SetGe(val: bv32, mask: bv32)
      modifies this`fields
      ensures fields == old(fields).(ge := Taken(mask, CPSR_GE, GreaterEqual(val), old(fields).ge))
    {
      hide Touches, GreaterEqual;
      if Touches(mask, CPSR_GE) {
        fields := fields.(ge := GreaterEqual(val));
      }
    }

    /** set_cpsr.  Mode bits to be written end in switch_mode, which is not part of this model. */
    method SetCpsr(val: bv32, mask: bv32)
      requires fields.Valid() && !WritesMode(val, mask)
      modifies this`fields
      ensures fields.Valid() && fields == Written(old(fields), val, mask)
      ensures Regular(mask) ==> fields.Word() == Update(old(fields).Word(), val, mask)
    {
      hide Fields.Word, Regular, Fields.Valid, Update, WritesMode, Taken;
      hide Negative, Zero, Carry, Overflow, Flag, LowIt, HighIt, GreaterEqual;
      WrittenRegister(fields, val, mask);
      SetFlags(val, mask);
      SetState(val, mask);
      SetIt(val, mask);
      SetGe(val, mask);
      fields := fields.(raw := Update(fields.raw, val, mask & !CPSR_CACHED));
    }

    /** set_psr after msr_mask, in user mode: the flags change as the mask says, mode, state and control bits
        stay, and an access to the saved register is refused. */
    method UserMsr(flags: bv32, toSpsr: bool, val: bv32) returns (refused: bool)
      requires fields.Valid() && fields.m == MODE_USR
      modifies this
      ensures fields.Valid() && fields.m == MODE_USR && spsr == old(spsr) && refused == toSpsr
      ensures toSpsr ==> fields == old(fields)
      ensures !toSpsr ==> fields.Word() == Update(old(fields).Word(), val, UserBits(has6, flags))
      ensures fields.Word() & !CPSR_USER == old(fields).Word() & !CPSR_USER
    {
      hide Fields.Word, Fields.Valid, Regular, MsrMask;
      var mask := MsrMask(has6, has6T2, fields.m, flags, toSpsr);
      UserMask(has6, has6T2, flags, toSpsr);
      if toSpsr {
        return true;
      }
      Outside(fields.Word(), val, mask);
      UserKeepsMode(val, mask);
      SetCpsr(val, mask);
      return false;
    }
  }

  lemma UserKeepsMode(val: bv32, mask: bv32)
    requires mask & !CPSR_USER == 0
    ensures !WritesMode(val, mask)
  {
  }

  lemma Outside(w: bv32, val: bv32, mask: bv32)
    requires mask & !CPSR_USER == 0
    ensures Update(w, val, mask) & !CPSR_USER == w & !CPSR_USER
  {
  }
}
