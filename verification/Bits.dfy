/** Bits of unbounded integers, as Python's `<<`, `|` and `**` see them. */
module Bits {
  import opened Arithmetic

  function Pow2(n: nat): (p: nat)
    ensures p > 0
  {
    if n == 0 then 1 else 2 * Pow2(n - 1)
  }

  lemma {:induction false} Pow2Sum(m: nat, n: nat)
    ensures Pow2(m + n) == Pow2(m) * Pow2(n)
  {
    if m > 0 {
      Pow2Sum(m - 1, n);
      PowTwice(m - 1, Pow2(n));
    }
  }

  /** Bit `k` of a two's complement integer. */
  predicate Bit(x: int, k: nat)
    decreases k
  {
    if k == 0 then x % 2 == 1 else Bit(x / 2, k - 1)
  }

  function Magnitude(x: int): nat {
    if x >= 0 then x else -x - 1
  }

  /** `a | b` on two's complement integers of any size. */
  function Or(a: int, b: int): int
    decreases Magnitude(a) + Magnitude(b)
  {
    if a in {0, -1} && b in {0, -1} then
      if a == 0 then b else -1
    else
      2 * Or(a / 2, b / 2) + if a % 2 == 1 || b % 2 == 1 then 1 else 0
  }

  /** `a & b` on natural numbers. */
  function And(a: nat, b: nat): nat
    decreases a
  {
    if a == 0 then 0 else 2 * And(a / 2, b / 2) + if a % 2 == 1 && b % 2 == 1 then 1 else 0
  }

  /** `a & ~b` on natural numbers. */
  function AndNot(a: nat, b: nat): nat
    decreases a
  {
    if a == 0 then 0 else 2 * AndNot(a / 2, b / 2) + if a % 2 == 1 && b % 2 == 0 then 1 else 0
  }

  lemma {:induction false} AndBit(a: nat, b: nat, k: nat)
    ensures Bit(And(a, b), k) == (Bit(a, k) && Bit(b, k))
    decreases k
  {
    if a == 0 {
      ZeroBit(k);
    } else {
      assert And(a, b) / 2 == And(a / 2, b / 2);
      if k > 0 { AndBit(a / 2, b / 2, k - 1); }
    }
  }

  lemma {:induction false} AndNotBit(a: nat, b: nat, k: nat)
    ensures Bit(AndNot(a, b), k) == (Bit(a, k) && !Bit(b, k))
    decreases k
  {
    if a == 0 {
      ZeroBit(k);
    } else {
      assert AndNot(a, b) / 2 == AndNot(a / 2, b / 2);
      if k > 0 { AndNotBit(a / 2, b / 2, k - 1); }
    }
  }

  /** `1 << i` has one bit. */
  lemma {:induction false} PowBit(i: nat, k: nat)
    ensures Bit(Pow2(i), k) == (k == i)
    decreases k
  {
    if i == 0 {
      assert Pow2(0) / 2 == 0;
      if k > 0 { ZeroBit(k - 1); }
    } else {
      assert Pow2(i) == 2 * Pow2(i - 1);
      if k > 0 { PowBit(i - 1, k - 1); }
    }
  }

  lemma AndEven(x: nat, b: nat)
    ensures And(x, 2 * b) == 2 * And(x / 2, b)
  {
    assert 2 * b / 2 == b && 2 * b % 2 == 0;
  }

  lemma AndOne(x: nat)
    ensures And(x, 1) == x % 2
  {
    AndNothing(x / 2);
  }

  lemma HalfBit(x: int, k: nat)
    ensures Bit(x, k) == if k == 0 then x % 2 == 1 else Bit(x / 2, k - 1)
  {
  }

  /** `x & (1 << i)` is not zero exactly if bit `i` is set. */
  lemma {:induction false} AndPow(x: nat, i: nat)
    ensures And(x, Pow2(i)) != 0 <==> Bit(x, i)
    decreases i
  {
    hide And, Bit;
    HalfBit(x, i);
    if i == 0 {
      AndOne(x);
    } else {
      AndEven(x, Pow2(i - 1));
      AndPow(x / 2, i - 1);
    }
  }

  lemma {:induction false} AndNothing(x: nat)
    ensures And(x, 0) == 0
  {
    if x > 0 { AndNothing(x / 2); }
  }

  /** `x & (2^n - 1)` and `x & ~(2^n - 1)` are the remainder by 2^n and the rest. */
  lemma {:induction false} AndLow(x: nat, n: nat)
    ensures And(x, Pow2(n) - 1) == x % Pow2(n) && AndNot(x, Pow2(n) - 1) == x - x % Pow2(n)
    decreases n
  {
    hide And, AndNot;
    if n == 0 {
      AndNothing(x);
      AndNotNothing(x);
    } else {
      var p := Pow2(n - 1);
      AndLow(x / 2, n - 1);
      AndOdd(x, p - 1);
      DoubleRemainder(x, p);
    }
  }

  lemma AndOdd(x: nat, b: nat)
    ensures And(x, 2 * b + 1) == 2 * And(x / 2, b) + x % 2 && AndNot(x, 2 * b + 1) == 2 * AndNot(x / 2, b)
  {
    assert (2 * b + 1) / 2 == b && (2 * b + 1) % 2 == 1;
  }

  lemma DoubleRemainder(x: nat, p: nat)
    requires p > 0
    ensures x % (2 * p) == 2 * (x / 2 % p) + x % 2
  {
    var q, r := x / 2 / p, x / 2 % p;
    assert x / 2 == p * q + r;
    Product(2 * p, q);
    Division(x, 2 * p, q, 2 * r + x % 2);
  }

  lemma {:induction false} AndNotNothing(x: nat)
    ensures AndNot(x, 0) == x
  {
    if x > 0 { AndNotNothing(x / 2); }
  }

  /** A natural number that is not zero has a bit. */
  lemma {:induction false} SomeBit(x: nat) returns (k: nat)
    requires x != 0
    ensures Bit(x, k)
  {
    if x % 2 == 1 {
      k := 0;
    } else {
      k := SomeBit(x / 2);
      k := k + 1;
    }
  }

  lemma {:induction false} Bounded(a: nat, b: nat, n: nat)
    requires a < Pow2(n) && b < Pow2(n)
    ensures 0 <= Or(a, b) < Pow2(n) && And(a, b) < Pow2(n) && AndNot(a, b) < Pow2(n)
  {
    if n > 0 {
      Bounded(a / 2, b / 2, n - 1);
    }
  }

  /** A number below `2 ** n` has no bit from `n` up. */
  lemma {:induction false} NoHighBit(x: nat, n: nat, k: nat)
    requires x < Pow2(n) && n <= k
    ensures !Bit(x, k)
    decreases n
  {
    if n == 0 {
      ZeroBit(k);
    } else {
      NoHighBit(x / 2, n - 1, k - 1);
    }
  }

  lemma {:induction false} OrBit(a: int, b: int, k: nat)
    ensures Bit(Or(a, b), k) == (Bit(a, k) || Bit(b, k))
    decreases k
  {
    var o := Or(a, b);
    if !(a in {0, -1} && b in {0, -1}) {
      assert o / 2 == Or(a / 2, b / 2);
      if k > 0 { OrBit(a / 2, b / 2, k - 1); }
    } else if k > 0 {
      assert a / 2 == a && b / 2 == b && o / 2 == o;
      OrBit(a, b, k - 1);
    }
  }

  lemma {:induction false} OrZero(a: nat)
    ensures Or(a, 0) == a
  {
    if a > 0 {
      OrZero(a / 2);
    }
  }

  lemma OrEven(a: nat, b: nat)
    ensures Or(2 * a, 2 * b) == 2 * Or(a, b)
  {
    assert 2 * a / 2 == a && 2 * b / 2 == b;
  }

  lemma PowTwice(k: nat, m: nat)
    ensures Pow2(k + 1) * m == 2 * (Pow2(k) * m)
  {
  }

  /** `|` adds numbers whose bits lie apart. */
  lemma {:induction false} OrApart(a: nat, b: nat, n: nat)
    requires a < Pow2(n)
    ensures Or(a, Pow2(n) * b) == a + Pow2(n) * b
  {
    if n == 0 {
      OrZeroLeft(b);
    } else {
      PowTwice(n - 1, b);
      OrNext(a, Pow2(n - 1) * b);
      OrApart(a / 2, b, n - 1);
    }
  }

  lemma OrNext(a: nat, c: nat)
    ensures Or(a, 2 * c) == 2 * Or(a / 2, c) + a % 2
  {
    assert 2 * c / 2 == c && 2 * c % 2 == 0;
  }

  lemma {:induction false} OrZeroLeft(b: nat)
    ensures Or(0, b) == b
  {
    if b > 0 { OrZeroLeft(b / 2); }
  }

  lemma PowMegabytes()
    ensures Pow2(25) == 0x200_0000
  {
    assert Pow2(5) == 32;
    Pow2Sum(5, 5);
    Pow2Sum(10, 10);
    Pow2Sum(20, 5);
  }

  /** A bit that lies below every bit of a number is added by `|`. */
  lemma {:induction false} OrLowBit(m: nat, r: nat, k: nat)
    requires r < 2
    ensures Or(Pow2(k + 1) * m, Pow2(k) * r) == Pow2(k) * (2 * m + r)
  {
    PowTwice(k, m);
    if k == 0 {
      OrZero(m);
      assert Or(2 * m, r) == 2 * m + r;
    } else {
      PowTwice(k - 1, r);
      PowTwice(k - 1, 2 * m + r);
      OrEven(Pow2(k) * m, Pow2(k - 1) * r);
      OrLowBit(m, r, k - 1);
    }
  }

  /** `((2 ** width) - 1) << low` */
  function Mask(width: nat, low: nat): int {
    (Pow2(width) - 1) * Pow2(low)
  }

  lemma MaskLow(width: nat, low: nat)
    requires low > 0
    ensures Mask(width, low) == 2 * Mask(width, low - 1)
  {
    var p, q := Pow2(width) - 1, Pow2(low - 1);
    assert Pow2(low) == 2 * q;
    hide Pow2;
    Swap(p, 2, q);
  }

  lemma MaskWide(width: nat)
    ensures Mask(width, 0) == if width == 0 then 0 else 2 * Mask(width - 1, 0) + 1
  {
  }

  lemma DoubleBit(x: int, k: nat)
    ensures Bit(2 * x, k) == (k > 0 && Bit(x, k - 1))
    ensures Bit(2 * x + 1, k) == (k == 0 || Bit(x, k - 1))
  {
    assert 2 * x / 2 == x && (2 * x + 1) / 2 == x;
  }

  lemma {:induction false} MaskBit(width: nat, low: nat, k: nat)
    ensures Bit(Mask(width, low), k) == (low <= k < low + width)
    decreases k + low
  {
    hide Mask, Pow2, Bit;
    if low > 0 {
      MaskLow(width, low);
      DoubleBit(Mask(width, low - 1), k);
      if k > 0 { MaskBit(width, low - 1, k - 1); }
    } else if width > 0 {
      MaskWide(width);
      DoubleBit(Mask(width - 1, 0), k);
      if k > 0 { MaskBit(width - 1, 0, k - 1); }
    } else {
      MaskWide(0);
      ZeroBit(k);
    }
  }

  lemma {:induction false} ZeroBit(k: nat)
    ensures !Bit(0, k)
  {
    if k > 0 { ZeroBit(k - 1); }
  }

  /** The number whose bits, lowest first, are `bits`. */
  function Value(bits: seq<bool>): nat {
    if bits == [] then 0 else (if bits[0] then 1 else 0) + 2 * Value(bits[1..])
  }

  lemma {:induction false} ValueBit(bits: seq<bool>, k: nat)
    ensures Bit(Value(bits), k) == (k < |bits| && bits[k])
    decreases k
  {
    if bits == [] {
      ZeroBit(k);
    } else {
      assert Value(bits) / 2 == Value(bits[1..]);
      if k > 0 { ValueBit(bits[1..], k - 1); }
    }
  }

  /** The part of a number from bit `n` up. */
  function Upper(bits: seq<bool>, n: nat): nat
    requires n <= |bits|
  {
    Pow2(n) * Value(bits[n..])
  }

  /** The part of a number made of bits `low` to `high - 1`. */
  function Span(bits: seq<bool>, low: nat, high: nat): nat
    requires low <= high <= |bits|
  {
    Pow2(low) * Value(bits[low..high])
  }

  lemma {:induction false} ValueConcat(a: seq<bool>, b: seq<bool>)
    ensures Value(a + b) == Value(a) + Pow2(|a|) * Value(b)
  {
    if a == [] {
      assert a + b == b;
    } else {
      assert (a + b)[1..] == a[1..] + b;
      ValueConcat(a[1..], b);
      PowTwice(|a| - 1, Value(b));
    }
  }

  lemma Spread(p: nat, q: nat, u: nat, v: nat)
    ensures p * (u + q * v) == p * u + p * q * v
  {
  }

  lemma UpperSplit(bits: seq<bool>, n: nat, m: nat)
    requires n <= m <= |bits|
    ensures Upper(bits, n) == Span(bits, n, m) + Upper(bits, m)
  {
    assert bits[n..] == bits[n..m] + bits[m..];
    ValueConcat(bits[n..m], bits[m..]);
    Pow2Sum(n, m - n);
    Spread(Pow2(n), Pow2(m - n), Value(bits[n..m]), Value(bits[m..]));
  }

  lemma {:induction false} ValueClear(bits: seq<bool>)
    requires forall i | 0 <= i < |bits| :: !bits[i]
    ensures Value(bits) == 0
  {
    if bits != [] { ValueClear(bits[1..]); }
  }

  lemma {:induction false} ValueFull(bits: seq<bool>)
    requires forall i | 0 <= i < |bits| :: bits[i]
    ensures Value(bits) == Pow2(|bits|) - 1
  {
    if bits != [] { ValueFull(bits[1..]); }
  }

  lemma {:induction false} ValuePositive(bits: seq<bool>, i: nat)
    requires i < |bits| && bits[i]
    ensures Value(bits) > 0
  {
    if i > 0 { ValuePositive(bits[1..], i - 1); }
  }

  lemma Product(a: int, b: int)
    ensures a * b == b * a
  {
  }

  lemma Swap(a: int, b: int, v: int)
    ensures a * (b * v) == b * (a * v)
  {
  }

  lemma Growth(p: nat, x: nat)
    requires p > 0
    ensures p * x >= x && (p * x == x <==> x == 0 || p == 1)
  {
    if x > 0 && p > 1 {
      assert p * x == x + (p - 1) * x;
    }
  }

  lemma PowerGrows(k: nat, x: nat)
    ensures Pow2(k) * x >= x && (Pow2(k) * x == x <==> x == 0 || k == 0)
  {
    assert Pow2(k) == 1 <==> k == 0;
    hide Pow2;
    Growth(Pow2(k), x);
  }

  lemma TimesPower(k: nat, x: nat)
    ensures Pow2(k) * x == 0 <==> x == 0
  {
    PowerGrows(k, x);
  }

  /** A stretch of bits that are all set is a mask. */
  lemma SpanFull(bits: seq<bool>, low: nat, high: nat)
    requires low <= high <= |bits| && forall i | low <= i < high :: bits[i]
    ensures Span(bits, low, high) == Mask(high - low, low)
  {
    hide Pow2, Value;
    assert forall i | 0 <= i < high - low :: bits[low..high][i];
    ValueFull(bits[low..high]);
    Product(Pow2(low), Pow2(high - low) - 1);
  }
}
