/** The saturating additions of the ARM decoder (Arm32.h), described in section A4.1 of the ARM
    Architecture Reference Manual (ARM DDI 0100) under QADD, QDADD, QDSUB and QSUB. */
module Saturate {

  const MODULUS := 0x1_0000_0000

  /** A 32-bit register. */
  type Word = w: int | 0 <= w < MODULUS

  const MAX_INT := 0x7fff_ffff
  const MIN_INT := -0x8000_0000

  /** `(w & SIGNBIT) != 0`, and the value as a signed number. */
  predicate Negative(w: Word) {
    w >= 0x8000_0000
  }

  function Signed(w: Word): int {
    if Negative(w) then w - MODULUS else w
  }

  function Wrap(x: int): Word {
    x % MODULUS
  }

  function Clamp(x: int): int {
    if x > MAX_INT then MAX_INT else if x < MIN_INT then MIN_INT else x
  }

  predicate Fits(x: int) {
    MIN_INT <= x <= MAX_INT
  }

  /** The architecture: the second operand, doubled and clamped when asked for, is added to or subtracted
      from the first and clamped; a clamp at either stage is remembered in Q, which nothing clears. */
  function Doubled(op1: nat, n: int): int {
    if op1 / 2 % 2 == 1 then 2 * n else n
  }

  function Combined(op1: nat, m: int, d: int): int {
    if op1 % 2 == 1 then m - d else m + d
  }

  function Expected(op1: nat, m: int, n: int): int {
    Clamp(Combined(op1, m, Clamp(Doubled(op1, n))))
  }

  predicate Saturates(op1: nat, m: int, n: int) {
    !Fits(Doubled(op1, n)) || !Fits(Combined(op1, m, Clamp(Doubled(op1, n))))
  }

  /** QADD, QSUB, QDADD and QDSUB, in the order of their encodings. */
  lemma Operations(m: int, n: int)
    requires Fits(n)
    ensures Expected(0, m, n) == Clamp(m + n) && Expected(1, m, n) == Clamp(m - n)
    ensures Expected(2, m, n) == Clamp(m + Clamp(2 * n)) && Expected(3, m, n) == Clamp(m - Clamp(2 * n))
    ensures (Saturates(0, m, n) <==> !Fits(m + n)) && (Saturates(1, m, n) <==> !Fits(m - n))
    ensures (Saturates(2, m, n) <==> !Fits(2 * n) || !Fits(m + 2 * n)) && (Saturates(3, m, n) <==> !Fits(2 * n) || !Fits(m - 2 * n))
  {
  }

  function Distance(x: int, y: int): nat {
    if x <= y then y - x else x - y
  }

  /** Clamping gives the nearest number that fits. */
  lemma Nearest(x: int, y: int)
    requires Fits(y)
    ensures Fits(Clamp(x)) && Distance(Clamp(x), x) <= Distance(y, x)
  {
  }

  /** The operand that the strict comparison of the source lets through undoubled in sign. */
  predicate Exceptional(op1: nat, n: int) {
    op1 / 2 % 2 == 1 && n == 0x4000_0000
  }

  class Arm32 {
    var regs: seq<Word>
    var qf: bool

    constructor (regs: seq<Word>, qf: bool)
      ensures this.regs == regs && this.qf == qf
    {
      this.regs, this.qf := regs, qf;
    }

    /** The doubling of the second operand. */
    method Double(tmp2: Word) returns (r: Word)
      modifies this`qf
      ensures Signed(r) == if Signed(tmp2) == 0x4000_0000 then MIN_INT else Clamp(2 * Signed(tmp2))
      ensures qf == (old(qf) || (Signed(tmp2) != 0x4000_0000 && !Fits(2 * Signed(tmp2))))
    {
      if Signed(tmp2) > 0x4000_0000 {
        r := 0x7fff_ffff;
        qf := true;
      } else if Signed(tmp2) < -0x4000_0000 {
        r := 0x8000_0000;
        qf := true;
      } else {
        r := Wrap(2 * tmp2);
        TwiceWraps(tmp2);
      }
    }

    /** `res = tmp - tmp2` or `tmp + tmp2`, replaced by the bound on the side of `tmp` when the signs tell of
        an overflow. */
    method Combine(op1: nat, tmp: Word, tmp2: Word) returns (r: Word)
      modifies this`qf
      ensures Signed(r) == Clamp(Combined(op1, Signed(tmp), Signed(tmp2)))
      ensures qf == (old(qf) || !Fits(Combined(op1, Signed(tmp), Signed(tmp2))))
    {
      CombineWraps(op1, tmp, tmp2);
      if op1 % 2 == 1 {
        r := Wrap(tmp - tmp2);
        if Negative(r) != Negative(tmp) && Negative(tmp) != Negative(tmp2) {
          qf := true;
          r := if Negative(tmp) then 0x8000_0000 else 0x7fff_ffff;
        }
      } else {
        r := Wrap(tmp + tmp2);
        if Negative(r) != Negative(tmp) && Negative(tmp) == Negative(tmp2) {
          qf := true;
          r := if Negative(tmp) then 0x8000_0000 else 0x7fff_ffff;
        }
      }
    }

    /** The QADD, QSUB, QDADD and QDSUB case of decode_arm.  The destination gets the architecture's result,
        and Q the architecture's flag, for all operands but one.  For that one the result is always wrong, and Q
        is set only if the sum or difference with the least number does not fit. */
    method SaturatingInsn(op1: nat, rd: nat, rn: nat, rm: nat)
      requires op1 < 4 && rd < |regs| && rn < |regs| && rm < |regs|
      modifies this
      ensures |regs| == old(|regs|) && forall i | 0 <= i < |regs| && i != rd :: regs[i] == old(regs)[i]
      ensures var m, n := Signed(old(regs)[rm]), Signed(old(regs)[rn]);
              && (Signed(regs[rd]) == Expected(op1, m, n) <==> !Exceptional(op1, n))
              && qf == (old(qf) || if Exceptional(op1, n) then !Fits(Combined(op1, m, MIN_INT)) else Saturates(op1, m, n))
    {
      var tmp, tmp2 := regs[rm], regs[rn];
      if op1 / 2 % 2 == 1 {
        tmp2 := Double(tmp2);
      }
      tmp := Combine(op1, tmp, tmp2);
      regs := regs[rd := tmp];
    }
  }

  lemma TwiceWraps(w: Word)
    requires -0x4000_0000 <= Signed(w) <= 0x4000_0000
    ensures Signed(Wrap(2 * w)) == if Signed(w) == 0x4000_0000 then MIN_INT else 2 * Signed(w)
  {
    if Negative(w) {
      assert 2 * w == MODULUS + (2 * w - MODULUS);
    }
  }

  /** The sign tests of the source find exactly the overflows. */
  lemma CombineWraps(op1: nat, tmp: Word, tmp2: Word)
    ensures var x, r := Combined(op1, Signed(tmp), Signed(tmp2)), Wrap(Combined(op1, tmp, tmp2));
            && (Fits(x) ==> Signed(r) == x)
            && (!Fits(x) <==> Negative(r) != Negative(tmp) && (Negative(tmp) == Negative(tmp2) <==> op1 % 2 == 0))
            && (!Fits(x) ==> (x < 0 <==> Negative(tmp)))
  {
    var y := Combined(op1, tmp, tmp2);
    if y < 0 {
      assert Wrap(y) == y + MODULUS;
    } else if y >= MODULUS {
      assert Wrap(y) == y - MODULUS;
    } else {
      assert Wrap(y) == y;
    }
  }

  /** The operand let through: doubling it gives the least number instead of the greatest, without Q. */
  method StrictComparison() returns (cpu: Arm32)
    ensures |cpu.regs| == 3 && Expected(2, 0, 0x4000_0000) == MAX_INT && Signed(cpu.regs[0]) != MAX_INT
  {
    cpu := new Arm32([0, 0, 0x4000_0000], false);
    cpu.SaturatingInsn(2, 0, 2, 1);
  }
}
