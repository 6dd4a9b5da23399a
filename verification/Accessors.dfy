/** The C accessors that reg_xls2h_h.py emits for the fields of a compiled register.

    A C `uint32_t` is a sequence of 32 bits, lowest first, so shifts drop what leaves the word. */
module Accessors {
  import opened Bits
  import opened RegMap
  import opened Wrappers

  type Word = w: seq<bool> | |w| == WIDTH witness seq(WIDTH, k => false)

  function Both(a: Word, b: Word): Word {
    seq(WIDTH, k requires 0 <= k < WIDTH => a[k] && b[k])
  }

  function Join(a: Word, b: Word): Word {
    seq(WIDTH, k requires 0 <= k < WIDTH => a[k] || b[k])
  }

  function Not(a: Word): Word {
    seq(WIDTH, k requires 0 <= k < WIDTH => !a[k])
  }

  function ShiftLeft(a: Word, n: nat): Word {
    seq(WIDTH, k requires 0 <= k < WIDTH => k >= n && a[k - n])
  }

  function ShiftRight(a: Word, n: nat): Word {
    seq(WIDTH, k requires 0 <= k < WIDTH => k + n < WIDTH && a[k + n])
  }

  /** The literal `0x%08X` of a number. */
  function Literal(x: int): Word {
    LowBits(x, WIDTH)
  }

  function LowBits(x: int, n: nat): (bits: seq<bool>)
    ensures |bits| == n && forall k | 0 <= k < n :: bits[k] == Bit(x, k)
  {
    if n == 0 then [] else LowBits(x, n - 1) + [Bit(x, n - 1)]
  }

  function Zero(): (z: Word)
    ensures forall k | 0 <= k < WIDTH :: !z[k]
  {
    ZeroBits();
    Literal(0)
  }

  lemma ZeroBits()
    ensures forall k: nat :: !Bit(0, k)
  {
    forall k: nat ensures !Bit(0, k) { ZeroBit(k); }
  }

  /** Size of the C type `field.type`, and conversion to it. */
  function TypeBits(f: Field): nat {
    if f.width <= 8 then 8 else if f.width <= 16 then 16 else 32
  }

  function Convert(a: Word, bits: nat): Word {
    seq(WIDTH, k requires 0 <= k < WIDTH => k < bits && a[k])
  }

  predicate Fits(a: Word, bits: nat) {
    forall k | bits <= k < WIDTH :: !a[k]
  }

  predicate Writable(sw: string) {
    sw in {"X", "R/W", "W", "S", "C"}
  }

  datatype Register = Register(fields: seq<Field>, sw: string) {
    /** `filter(lambda x: x.writable, fields)`, empty in a register that is not writable */
    function WritableFields(): seq<Field> {
      if Writable(sw) then Selected(fields) else []
    }

    /** Does the generator emit a direct write instead of a read-modify-write? */
    predicate Direct() {
      sw in {"S", "C"} || |WritableFields()| == 1
    }
  }

  function Selected(fields: seq<Field>): seq<Field> {
    if fields == [] then []
    else Selected(fields[..|fields| - 1]) + if Writable(fields[|fields| - 1].sw) then [fields[|fields| - 1]] else []
  }

  predicate Disjoint(f: Field, g: Field) {
    f.high < g.low || g.high < f.low
  }

  /** What the compiler promises of a field list: intervals of the word that do not meet, with their masks. */
  ghost predicate Laid(f: Field) {
    f.low <= f.high < WIDTH && f.width == f.high - f.low + 1 && f.mask == Mask(f.width, f.low)
  }

  ghost predicate Layout(fields: seq<Field>) {
    && (forall i | 0 <= i < |fields| :: Laid(fields[i]))
    && (forall i, j | 0 <= i < j < |fields| :: Disjoint(fields[i], fields[j]))
  }

  lemma CompiledLayout(row: Row)
    requires Compile(row, 0).Ok?
    ensures Layout(Compile(row, 0).value.fields)
  {
    CompileTiled(row, 0);
    var fields := Compile(row, 0).value.fields;
    forall i | 0 <= i < |fields| ensures Laid(fields[i]) {
      assert Finished(row, fields[i]);
    }
  }

  lemma MaskLiteral(f: Field, k: nat)
    requires Laid(f) && k < WIDTH
    ensures Literal(f.mask)[k] == f.Covers(k)
  {
    MaskBit(f.width, f.low, k);
  }

  /** The argument of `ASSERT_ERR` in setf and pack: `((value << low) & ~mask) == 0` */
  predicate Guard(f: Field, v: Word) {
    Both(ShiftLeft(v, f.low), Not(Literal(f.mask))) == Zero()
  }

  /** Does the value, shifted to its field, reach no bit outside the field? */
  predicate Narrow(f: Field, v: Word) {
    forall k | f.width <= k < WIDTH - f.low :: !v[k]
  }

  lemma GuardBit(f: Field, v: Word, k: nat)
    requires Laid(f) && k < WIDTH
    ensures Both(ShiftLeft(v, f.low), Not(Literal(f.mask)))[k] == (f.high < k && v[k - f.low])
  {
    hide Literal;
    MaskLiteral(f, k);
  }

  /** The guard sees only the bits that the shift keeps: a value that passes fits its field exactly if it
      has no bit that the shift drops. */
  lemma GuardMeans(f: Field, v: Word)
    requires Laid(f)
    ensures Guard(f, v) <==> Narrow(f, v)
    ensures Fits(v, f.width) <==> Guard(f, v) && forall k | WIDTH - f.low <= k < WIDTH :: !v[k]
  {
    hide Both, ShiftLeft, Not, Literal;
    var rest := Both(ShiftLeft(v, f.low), Not(Literal(f.mask)));
    forall k | 0 <= k < WIDTH ensures rest[k] == (f.high < k && v[k - f.low]) {
      GuardBit(f, v, k);
    }
    if Guard(f, v) {
      forall k | f.width <= k < WIDTH - f.low ensures !v[k] {
        assert !rest[k + f.low];
      }
    }
    if Narrow(f, v) {
      forall k | 0 <= k < WIDTH ensures !rest[k] {
        if f.high < k { assert !v[k - f.low]; }
      }
      assert rest == Zero();
    }
  }

  /** What a field holds: its bits of the word. */
  function Content(f: Field, w: Word): Word {
    seq(WIDTH, k requires 0 <= k < WIDTH => k + f.low <= f.high && k + f.low < WIDTH && w[k + f.low])
  }

  /** The word with a field replaced. */
  function Replaced(f: Field, w: Word, v: Word): Word {
    seq(WIDTH, k requires 0 <= k < WIDTH => if f.low <= k <= f.high then v[k - f.low] else w[k])
  }

  lemma LaidAt(fields: seq<Field>, i: nat)
    requires Layout(fields) && i < |fields|
    ensures Laid(fields[i])
  {
  }

  lemma ReadMasked(f: Field, w: Word)
    requires Laid(f)
    ensures Convert(ShiftRight(Both(w, Literal(f.mask)), f.low), TypeBits(f)) == Content(f, w)
  {
    hide Literal;
    var r := Convert(ShiftRight(Both(w, Literal(f.mask)), f.low), TypeBits(f));
    forall k | 0 <= k < WIDTH ensures r[k] == Content(f, w)[k] {
      if k + f.low < WIDTH { MaskLiteral(f, k + f.low); }
    }
  }

  /** Has a word no bit outside a field? */
  predicate Alone(f: Field, w: Word) {
    forall k | 0 <= k < WIDTH && !f.Covers(k) :: !w[k]
  }

  lemma AloneMeans(f: Field, w: Word)
    requires Laid(f)
    ensures Both(w, Not(Literal(f.mask))) == Zero() <==> Alone(f, w)
  {
    hide Literal;
    var rest := Both(w, Not(Literal(f.mask)));
    forall k | 0 <= k < WIDTH ensures rest[k] == (w[k] && !f.Covers(k)) { MaskLiteral(f, k); }
    if Alone(f, w) { assert rest == Zero(); }
  }

  lemma ReadAlone(f: Field, w: Word)
    requires Laid(f) && Alone(f, w)
    ensures Convert(ShiftRight(w, f.low), TypeBits(f)) == Content(f, w)
  {
    var r := Convert(ShiftRight(w, f.low), TypeBits(f));
    forall k | 0 <= k < WIDTH ensures r[k] == Content(f, w)[k] {
      if k + f.low < WIDTH && !f.Covers(k + f.low) { assert !w[k + f.low]; }
    }
  }

  lemma ReplacedDirect(f: Field, v: Word)
    requires Laid(f) && Narrow(f, v)
    ensures ShiftLeft(v, f.low) == Replaced(f, Zero(), v)
  {
    var a, b := ShiftLeft(v, f.low), Replaced(f, Zero(), v);
    forall k | 0 <= k < WIDTH ensures a[k] == b[k] {}
  }

  lemma ReplacedInPlace(f: Field, w: Word, v: Word)
    requires Laid(f) && Narrow(f, v)
    ensures Join(Both(w, Not(Literal(f.mask))), ShiftLeft(v, f.low)) == Replaced(f, w, v)
  {
    var a, b := Join(Both(w, Not(Literal(f.mask))), ShiftLeft(v, f.low)), Replaced(f, w, v);
    forall k: nat | k < WIDTH ensures Literal(f.mask)[k] == f.Covers(k) { MaskLiteral(f, k); }
    hide Literal;
    forall k | 0 <= k < WIDTH ensures a[k] == b[k] {}
  }

  /** A register and the accessors emitted for it. */
  class Device {
    const layout: Register
    var reg: Word

    constructor (layout: Register, reg: Word)
      ensures this.layout == layout && this.reg == reg
    {
      this.layout, this.reg := layout, reg;
    }

    /** `_getf`: the mask is left out for a single field, whose guard then demands that nothing else is set. */
    method GetF(f: Field) returns (r: Word)
      requires f in layout.fields && Laid(f)
      requires |layout.fields| == 1 ==> Both(reg, Not(Literal(f.mask))) == Zero()
      ensures r == Content(f, reg)
    {
      hide *;
      var localVal := reg;
      ReadMasked(f, reg);
      if |layout.fields| == 1 {
        AloneMeans(f, reg);
        ReadAlone(f, reg);
        r := Convert(ShiftRight(localVal, f.low), TypeBits(f));
      } else {
        r := Convert(ShiftRight(Both(localVal, Literal(f.mask)), f.low), TypeBits(f));
      }
    }

    /** `_setf`, or `_clearf`, for a value of the C type that passes the assertion. */
    method SetF(f: Field, v: Word)
      requires f in layout.fields && Laid(f) && Writable(f.sw)
      requires Fits(v, TypeBits(f)) && Narrow(f, v)
      modifies this
      ensures reg == Replaced(f, if layout.Direct() then Zero() else old(reg), v)
    {
      hide Guard, Narrow, Laid, Both, Not, Join, ShiftLeft, Literal, Replaced, Zero, Writable, TypeBits, Fits;
      assert Guard(f, v) by { GuardMeans(f, v); }
      ReplacedDirect(f, v);
      ReplacedInPlace(f, reg, v);
      if layout.Direct() {
        reg := ShiftLeft(v, f.low);
      } else {
        reg := Join(Both(reg, Not(Literal(f.mask))), ShiftLeft(v, f.low));
      }
    }

    /** `_pack`, one argument for each writable field */
    method Pack(values: seq<Word>)
      requires Layout(layout.fields) && |values| == |layout.WritableFields()| > 1
      requires forall i | 0 <= i < |values| :: Guard(layout.WritableFields()[i], values[i])
      modifies this
      ensures reg == Packed(layout.WritableFields(), values)
    {
      var fields := layout.WritableFields();
      reg := Zero();
      PackedFirst(fields, values);
      hide *;
      for i := 0 to |fields|
        invariant reg == Packed(fields[..i], values[..i])
      {
        PackedMore(fields, values, i);
        reg := Join(reg, ShiftLeft(values[i], fields[i].low));
      }
      assert fields[..|fields|] == fields && values[..|fields|] == values;
    }

    /** `_unpack` */
    method Unpack() returns (values: seq<Word>)
      requires Layout(layout.fields) && |layout.fields| > 1
      ensures |values| == |layout.fields| && forall i | 0 <= i < |values| :: values[i] == Content(layout.fields[i], reg)
    {
      hide *;
      var localVal := reg;
      values := [];
      for i := 0 to |layout.fields|
        invariant |values| == i && forall j | 0 <= j < i :: values[j] == Content(layout.fields[j], reg)
      {
        var f := layout.fields[i];
        var value := Convert(ShiftRight(Both(localVal, Literal(f.mask)), f.low), TypeBits(f));
        LaidAt(layout.fields, i);
        ReadMasked(f, reg);
        values := values + [value];
      }
    }
  }

  /** The `|` of the shifted arguments of pack. */
  function Packed(fields: seq<Field>, values: seq<Word>): Word
    requires |fields| == |values|
  {
    if fields == [] then Zero()
    else
      var n := |fields| - 1;
      Join(Packed(fields[..n], values[..n]), ShiftLeft(values[n], fields[n].low))
  }

  lemma PackedFirst(fields: seq<Field>, values: seq<Word>)
    ensures Packed(fields[..0], values[..0]) == Zero()
  {
  }

  lemma PackedMore(fields: seq<Field>, values: seq<Word>, i: nat)
    requires i < |fields| == |values|
    ensures Packed(fields[..i + 1], values[..i + 1]) ==
            Join(Packed(fields[..i], values[..i]), ShiftLeft(values[i], fields[i].low))
  {
    hide Join, ShiftLeft;
    assert fields[..i + 1][..i] == fields[..i] && values[..i + 1][..i] == values[..i];
  }

  /** A field set is read back, exactly if the value fits the field. */
  lemma SetThenGet(f: Field, w: Word, v: Word)
    requires Laid(f)
    ensures Content(f, Replaced(f, w, v)) == Convert(v, f.width)
    ensures Content(f, Replaced(f, w, v)) == v <==> Fits(v, f.width)
  {
    var r := Content(f, Replaced(f, w, v));
    forall k | 0 <= k < WIDTH ensures r[k] == (k < f.width && v[k]) {}
    SameBits(f, v, r);
  }

  /** Setting a field changes no other field and no unassigned bit. */
  lemma SetKeeps(f: Field, g: Field, w: Word, v: Word)
    requires Laid(f) && Laid(g) && Disjoint(f, g)
    ensures Content(g, Replaced(f, w, v)) == Content(g, w)
    ensures forall k: nat | k < WIDTH && !f.Covers(k) :: Replaced(f, w, v)[k] == w[k]
  {
  }

  /** Settings of different fields commute. */
  lemma SetsCommute(f: Field, g: Field, w: Word, u: Word, v: Word)
    requires Laid(f) && Laid(g) && Disjoint(f, g)
    ensures Replaced(g, Replaced(f, w, u), v) == Replaced(f, Replaced(g, w, v), u)
  {
    var a, b := Replaced(g, Replaced(f, w, u), v), Replaced(f, Replaced(g, w, v), u);
    forall k | 0 <= k < WIDTH ensures a[k] == b[k] {}
  }

  /** A direct write keeps another field exactly if that field was 0 already. */
  lemma DirectWriteClears(f: Field, g: Field, w: Word, v: Word)
    requires Laid(f) && Laid(g) && Disjoint(f, g)
    ensures Content(g, Replaced(f, Zero(), v)) == Content(g, w) <==> Content(g, w) == Zero()
  {
    var r := Content(g, Replaced(f, Zero(), v));
    forall k | 0 <= k < WIDTH ensures r[k] == Zero()[k] {}
    assert r == Zero();
  }

  ghost predicate AllNarrow(fields: seq<Field>, values: seq<Word>) {
    |fields| == |values| && forall i | 0 <= i < |fields| :: Laid(fields[i]) && Narrow(fields[i], values[i])
  }

  lemma OutsideField(f: Field, v: Word, k: nat)
    requires Laid(f) && Narrow(f, v) && k < WIDTH && !f.Covers(k)
    ensures !ShiftLeft(v, f.low)[k]
  {
  }

  lemma InsideField(f: Field, v: Word, k: nat)
    requires k < WIDTH && f.Covers(k)
    ensures ShiftLeft(v, f.low)[k] == v[k - f.low]
  {
  }

  lemma PackedNext(fields: seq<Field>, values: seq<Word>, k: nat)
    requires |fields| == |values| > 0 && k < WIDTH
    ensures var n := |fields| - 1;
            Packed(fields, values)[k] == (Packed(fields[..n], values[..n])[k] || ShiftLeft(values[n], fields[n].low)[k])
  {
    hide Join, ShiftLeft, Zero;
    var n := |fields| - 1;
    JoinBit(Packed(fields[..n], values[..n]), ShiftLeft(values[n], fields[n].low), k);
  }

  lemma JoinBit(a: Word, b: Word, k: nat)
    requires k < WIDTH
    ensures Join(a, b)[k] == (a[k] || b[k])
  {
  }

  lemma NarrowRest(fields: seq<Field>, values: seq<Word>)
    requires AllNarrow(fields, values) && fields != []
    ensures var n := |fields| - 1;
            AllNarrow(fields[..n], values[..n]) && Laid(fields[n]) && Narrow(fields[n], values[n])
  {
    hide Laid, Narrow;
  }

  lemma {:induction false} PackedClear(fields: seq<Field>, values: seq<Word>, k: nat)
    requires AllNarrow(fields, values) && k < WIDTH && forall i | 0 <= i < |fields| :: !fields[i].Covers(k)
    ensures !Packed(fields, values)[k]
  {
    if fields != [] {
      hide *;
      var n := |fields| - 1;
      NarrowRest(fields, values);
      SameLength(fields, values);
      PackedClear(fields[..n], values[..n], k);
      OutsideField(fields[n], values[n], k);
      PackedNext(fields, values, k);
    }
  }

  lemma SameLength(fields: seq<Field>, values: seq<Word>)
    requires AllNarrow(fields, values)
    ensures |fields| == |values|
  {
  }

  /** Bit `k` of a packed word comes from the field that covers it. */
  lemma {:induction false} PackedBit(fields: seq<Field>, values: seq<Word>, k: nat, i: nat)
    requires AllNarrow(fields, values) && k < WIDTH && i < |fields| && fields[i].Covers(k)
    requires forall j | 0 <= j < |fields| && j != i :: !fields[j].Covers(k)
    ensures Packed(fields, values)[k] == values[i][k - fields[i].low]
  {
    hide *;
    var n := |fields| - 1;
    NarrowRest(fields, values);
    SameLength(fields, values);
    PackedNext(fields, values, k);
    if i == n {
      PackedClear(fields[..n], values[..n], k);
      InsideField(fields[n], values[n], k);
    } else {
      PackedBit(fields[..n], values[..n], k, i);
      OutsideField(fields[n], values[n], k);
    }
  }

  lemma {:induction false} SelectedMembers(fields: seq<Field>)
    ensures forall g :: g in Selected(fields) <==> g in fields && Writable(g.sw)
  {
    if fields != [] {
      SelectedMembers(fields[..|fields| - 1]);
      hide Writable;
      assert fields == fields[..|fields| - 1] + [fields[|fields| - 1]];
    }
  }

  lemma LayoutLast(fields: seq<Field>, f: Field)
    requires Layout(fields) && Laid(f) && forall i | 0 <= i < |fields| :: Disjoint(fields[i], f)
    ensures Layout(fields + [f])
  {
    hide Laid, Disjoint;
  }

  lemma LayoutRest(fields: seq<Field>)
    requires Layout(fields) && fields != []
    ensures var n := |fields| - 1;
            Layout(fields[..n]) && Laid(fields[n]) && forall i | 0 <= i < n :: Disjoint(fields[i], fields[n])
  {
    hide Laid, Disjoint;
  }

  lemma {:induction false} SelectedLayout(fields: seq<Field>)
    requires Layout(fields)
    ensures Layout(Selected(fields))
  {
    if fields != [] {
      hide Layout, Laid, Disjoint, Writable;
      var start, f := fields[..|fields| - 1], fields[|fields| - 1];
      LayoutRest(fields);
      SelectedLayout(start);
      SelectedMembers(start);
      forall i | 0 <= i < |Selected(start)| ensures Disjoint(Selected(start)[i], f) {
        assert Selected(start)[i] in start;
      }
      LayoutLast(Selected(start), f);
    } else {
      assert Selected(fields) == fields;
    }
  }

  lemma SelectedFields(fields: seq<Field>)
    requires Layout(fields)
    ensures Layout(Selected(fields))
    ensures forall g :: g in Selected(fields) <==> g in fields && Writable(g.sw)
  {
    SelectedLayout(fields);
    SelectedMembers(fields);
  }

  lemma GuardedNarrow(fields: seq<Field>, values: seq<Word>)
    requires Layout(fields) && |fields| == |values| && forall j | 0 <= j < |values| :: Guard(fields[j], values[j])
    ensures AllNarrow(fields, values)
  {
    forall j | 0 <= j < |fields| ensures Laid(fields[j]) && Narrow(fields[j], values[j]) {
      GuardMeans(fields[j], values[j]);
    }
  }

  lemma PackedContent(fields: seq<Field>, values: seq<Word>, i: nat)
    requires Layout(fields) && AllNarrow(fields, values) && i < |fields|
    ensures Content(fields[i], Packed(fields, values)) == Convert(values[i], fields[i].width)
    ensures Content(fields[i], Packed(fields, values)) == values[i] <==> Fits(values[i], fields[i].width)
  {
    hide Packed;
    var g, r := fields[i], Content(fields[i], Packed(fields, values));
    forall k | 0 <= k < WIDTH ensures r[k] == (k < g.width && values[i][k]) {
      if k < g.width {
        OneCover(fields, i, k + g.low);
        PackedBit(fields, values, k + g.low, i);
      }
    }
    SameBits(g, values[i], r);
  }

  /** unpack after pack gives back an argument that passed the guard exactly if it fits its field. */
  lemma PackThenUnpack(layout: Register, values: seq<Word>, i: nat)
    requires Layout(layout.fields) && |values| == |layout.WritableFields()|
    requires forall j | 0 <= j < |values| :: Guard(layout.WritableFields()[j], values[j])
    requires i < |values|
    ensures var g := layout.WritableFields()[i];
            g in layout.fields && Laid(g)
            && Content(g, Packed(layout.WritableFields(), values)) == Convert(values[i], g.width)
            && (Content(g, Packed(layout.WritableFields(), values)) == values[i] <==> Fits(values[i], g.width))
  {
    hide Packed, Guard, Content;
    var fields := layout.WritableFields();
    SelectedFields(layout.fields);
    assert fields[i] in fields;
    GuardedNarrow(fields, values);
    PackedContent(fields, values, i);
  }

  lemma OneCover(fields: seq<Field>, i: nat, k: nat)
    requires Layout(fields) && i < |fields| && fields[i].Covers(k)
    ensures forall j | 0 <= j < |fields| && j != i :: !fields[j].Covers(k)
  {
    forall j | 0 <= j < |fields| && j != i ensures !fields[j].Covers(k) {
      assert if i < j then Disjoint(fields[i], fields[j]) else Disjoint(fields[j], fields[i]);
    }
  }

  lemma SameBits(f: Field, v: Word, r: Word)
    requires forall k | 0 <= k < WIDTH :: r[k] == (k < f.width && v[k])
    ensures r == Convert(v, f.width) && (r == v <==> Fits(v, f.width))
  {
    assert r == Convert(v, f.width);
    if r == v {
      forall k | f.width <= k < WIDTH ensures !v[k] { assert !r[k]; }
    }
    if Fits(v, f.width) {
      forall k | 0 <= k < WIDTH ensures r[k] == v[k] {}
    }
  }

  lemma PackedElsewhere(fields: seq<Field>, values: seq<Word>, g: Field)
    requires AllNarrow(fields, values) && Laid(g)
    requires forall i | 0 <= i < |fields| :: Disjoint(fields[i], g)
    ensures Content(g, Packed(fields, values)) == Zero()
  {
    hide Packed;
    var r := Content(g, Packed(fields, values));
    forall k | 0 <= k < WIDTH ensures !r[k] {
      if k + g.low <= g.high {
        assert forall i | 0 <= i < |fields| :: Disjoint(fields[i], g) && !fields[i].Covers(k + g.low);
        PackedClear(fields, values, k + g.low);
      }
    }
  }

  lemma ReadOnlyApart(fields: seq<Field>, g: Field)
    requires Layout(fields) && g in fields && !Writable(g.sw)
    ensures Laid(g) && forall i | 0 <= i < |Selected(fields)| :: Disjoint(Selected(fields)[i], g)
  {
    SelectedFields(fields);
    var b :| 0 <= b < |fields| && fields[b] == g;
    forall i | 0 <= i < |Selected(fields)| ensures Disjoint(Selected(fields)[i], g) {
      var f := Selected(fields)[i];
      assert f in Selected(fields);
      var a :| 0 <= a < |fields| && fields[a] == f;
      assert if a < b then Disjoint(fields[a], fields[b]) else Disjoint(fields[b], fields[a]);
    }
  }

  /** And 0 for a field that is not writable. */
  lemma PackClearsOthers(layout: Register, values: seq<Word>, g: Field)
    requires Layout(layout.fields) && g in layout.fields && !Writable(g.sw)
    requires |values| == |layout.WritableFields()|
    requires forall j | 0 <= j < |values| :: Guard(layout.WritableFields()[j], values[j])
    ensures Content(g, Packed(layout.WritableFields(), values)) == Zero()
  {
    hide Packed, Guard, Content, Zero;
    var fields := layout.WritableFields();
    SelectedFields(layout.fields);
    ReadOnlyApart(layout.fields, g);
    GuardedNarrow(fields, values);
    PackedElsewhere(fields, values, g);
  }

  /** Compiler and generator together: whatever row was accepted, setting a field `f` of its register is read
      back exactly if the value fits, is not seen by any other field `g`, leaves every bit outside `f` as it
      was, and commutes with setting `g`. */
  lemma CompiledSetF(row: Row, i: nat, j: nat, w: Word, u: Word, v: Word)
    requires Compile(row, 0).Ok?
    requires i < |Compile(row, 0).value.fields| && j < |Compile(row, 0).value.fields| && i != j
    ensures var f, g := Compile(row, 0).value.fields[i], Compile(row, 0).value.fields[j];
            && (Content(f, Replaced(f, w, u)) == u <==> Fits(u, f.width))
            && Content(g, Replaced(f, w, u)) == Content(g, w)
            && (forall k: nat | k < WIDTH && !Literal(f.mask)[k] :: Replaced(f, w, u)[k] == w[k])
            && Replaced(g, Replaced(f, w, u), v) == Replaced(f, Replaced(g, w, v), u)
  {
    hide Content, Replaced, Literal, Compile, Fits;
    CompiledLayout(row);
    var fields := Compile(row, 0).value.fields;
    assert if i < j then Disjoint(fields[i], fields[j]) else Disjoint(fields[j], fields[i]);
    SetThenGet(fields[i], w, u);
    SetKeeps(fields[i], fields[j], w, u);
    SetsCommute(fields[i], fields[j], w, u, v);
    forall k: nat | k < WIDTH ensures Literal(fields[i].mask)[k] == fields[i].Covers(k) { MaskLiteral(fields[i], k); }
  }

  /** Every value of the C type that passes the guard is read back exactly if the field's type, shifted to the
      field, stays within the word. */
  lemma GuardSuffices(f: Field, w: Word)
    requires Laid(f)
    ensures (forall v: Word | Fits(v, TypeBits(f)) && Guard(f, v) :: Content(f, Replaced(f, w, v)) == v) <==>
            f.low + TypeBits(f) <= WIDTH
  {
    forall v: Word
      ensures Guard(f, v) <==> Narrow(f, v)
      ensures Content(f, Replaced(f, w, v)) == v <==> Fits(v, f.width)
    {
      GuardMeans(f, v);
      SetThenGet(f, w, v);
    }
    hide Guard, Content, Replaced;
    if f.low + TypeBits(f) > WIDTH {
      var v: Word := seq(WIDTH, k => k == WIDTH - f.low);
      assert v[WIDTH - f.low] && Fits(v, TypeBits(f)) && Guard(f, v);
    }
  }

  /** A field of one bit, at bit 31. */
  const TOP: Row := seq(31, b => Blank) + [Named("a", 0, 0, "R/W", "R/W")]

  lemma {:induction false} TrailingBlanks(row: Row, n: nat)
    requires n <= WIDTH && Compile(row, n).Ok? && Compile(row, n).value.cur.None? && forall b | 0 <= b < n :: row[b].Blank?
    ensures Compile(row, 0) == Compile(row, n)
  {
    if n > 0 {
      assert Compile(row, n - 1) == Add(Compile(row, n).value, row[n - 1], n - 1);
      TrailingBlanks(row, n - 1);
    }
  }

  lemma TopField()
    ensures Compile(TOP, 0).Ok? && |Compile(TOP, 0).value.fields| == 1
    ensures var f := Compile(TOP, 0).value.fields[0]; f.low == 31 && f.width == 1
  {
    assert Compile(TOP, 32) == Ok(State([], None));
    assert TOP[31] == Named("a", 0, 0, "R/W", "R/W") && forall b | 0 <= b < 31 :: TOP[b].Blank?;
    assert Compile(TOP, 31) == Add(State([], None), TOP[31], 31);
    TrailingBlanks(TOP, 31);
  }

  lemma OneBit(v: Word)
    requires v == seq(WIDTH, k => k == 1)
    ensures Convert(v, 1) == Zero() != v
  {
    assert v[1];
  }

  /** There, the guard lets 2 through, and 0 is read back. */
  lemma GuardLetsThrough(w: Word)
    ensures Compile(TOP, 0).Ok? && |Compile(TOP, 0).value.fields| == 1
    ensures var f := Compile(TOP, 0).value.fields[0];
            var v: Word := seq(WIDTH, k => k == 1);
            Laid(f) && Fits(v, TypeBits(f)) && Guard(f, v) && Content(f, Replaced(f, w, v)) == Zero() != v
  {
    hide Compile;
    TopField();
    CompiledLayout(TOP);
    TopPasses(Compile(TOP, 0).value.fields[0], w);
  }

  lemma TopPasses(f: Field, w: Word)
    requires Laid(f) && f.low == 31 && f.width == 1
    ensures var v: Word := seq(WIDTH, k => k == 1);
            Fits(v, TypeBits(f)) && Guard(f, v) && Content(f, Replaced(f, w, v)) == Zero() != v
  {
    hide Guard, Content, Replaced, Zero, Convert;
    var v: Word := seq(WIDTH, k => k == 1);
    assert TypeBits(f) == 8;
    GuardMeans(f, v);
    SetThenGet(f, w, v);
    OneBit(v);
  }

  /** What a field holds after settings of fields, given by their numbers: the last value set, as far as it fits,
      or what was there before. */
  function Left(fields: seq<Field>, sets: seq<(nat, Word)>, i: nat, start: Word): Word
    requires i < |fields|
  {
    if sets == [] then Content(fields[i], start)
    else
      var (j, v) := sets[|sets| - 1];
      if j == i then Convert(v, fields[i].width) else Left(fields, sets[..|sets| - 1], i, start)
  }

  lemma {:induction false} LeftLast(fields: seq<Field>, sets: seq<(nat, Word)>, k: nat, i: nat, start: Word)
    requires i < |fields| && k < |sets| && sets[k].0 == i && forall l | k < l < |sets| :: sets[l].0 != i
    ensures Left(fields, sets, i, start) == sets[k].1 <==> Fits(sets[k].1, fields[i].width)
  {
    if k == |sets| - 1 {
      SameBits(fields[i], sets[k].1, Convert(sets[k].1, fields[i].width));
    } else {
      LeftLast(fields, sets[..|sets| - 1], k, i, start);
    }
  }

  /** May setf be called for the field and value? */
  predicate Settable(fields: seq<Field>, s: (nat, Word)) {
    s.0 < |fields| && Writable(fields[s.0].sw) && Fits(s.1, TypeBits(fields[s.0])) && Guard(fields[s.0], s.1)
  }

  lemma SettableMeans(fields: seq<Field>, s: (nat, Word))
    requires Layout(fields)
    ensures Settable(fields, s) ==>
              && s.0 < |fields| && Laid(fields[s.0]) && Writable(fields[s.0].sw)
              && Fits(s.1, TypeBits(fields[s.0])) && Narrow(fields[s.0], s.1)
  {
    hide Guard, Narrow, Writable, Fits, TypeBits;
    if s.0 < |fields| { GuardMeans(fields[s.0], s.1); }
  }

  /** Every field holds what the settings left, and every bit outside the fields what was there before. */
  ghost predicate Settled(fields: seq<Field>, sets: seq<(nat, Word)>, w: Word, start: Word) {
    && (forall i | 0 <= i < |fields| :: Content(fields[i], w) == Left(fields, sets, i, start))
    && forall b: nat | b < WIDTH && forall i | 0 <= i < |fields| :: !fields[i].Covers(b) :: w[b] == start[b]
  }

  lemma SettledMeans(fields: seq<Field>, sets: seq<(nat, Word)>, w: Word, start: Word)
    requires Settled(fields, sets, w, start)
    ensures forall i | 0 <= i < |fields| :: Content(fields[i], w) == Left(fields, sets, i, start)
    ensures forall b: nat | b < WIDTH && forall i | 0 <= i < |fields| :: !fields[i].Covers(b) :: w[b] == start[b]
  {
    hide Content, Left;
  }

  lemma SettledOn(fields: seq<Field>, sets: seq<(nat, Word)>, w: Word, start: Word, j: nat, v: Word)
    requires Layout(fields) && Settled(fields, sets, w, start) && j < |fields|
    ensures Settled(fields, sets + [(j, v)], Replaced(fields[j], w, v), start)
  {
    var more, w' := sets + [(j, v)], Replaced(fields[j], w, v);
    assert more[..|sets|] == sets;
    SetThenGet(fields[j], w, v);
    forall i | 0 <= i < |fields| && i != j ensures Content(fields[i], w') == Content(fields[i], w) {
      assert if i < j then Disjoint(fields[i], fields[j]) else Disjoint(fields[j], fields[i]);
      SetKeeps(fields[j], fields[i], w, v);
    }
    hide Content;
    assert forall b: nat | b < WIDTH && !fields[j].Covers(b) :: w'[b] == w[b];
  }

  lemma BlankOutside(row: Row, b: nat)
    requires Compile(row, 0).Ok? && b < WIDTH && !row[b].Named?
    ensures forall i | 0 <= i < |Compile(row, 0).value.fields| :: !Compile(row, 0).value.fields[i].Covers(b)
  {
    CompileTiled(row, 0);
    var fields := Compile(row, 0).value.fields;
    forall i | 0 <= i < |fields| ensures !fields[i].Covers(b) {
      assert Finished(row, fields[i]);
    }
  }

  /** The register of an accepted row, written by read-modify-write: after any settings every getf returns what
      the last setting of its field left, and no bit outside the fields has changed. */
  method SetThenGetAll(row: Row, sw: string, start: Word, sets: seq<(nat, Word)>) returns (device: Device, values: seq<Word>)
    requires Compile(row, 0).Ok?
    requires var layout := Register(Compile(row, 0).value.fields, sw); |layout.fields| > 1 && !layout.Direct()
    requires forall k | 0 <= k < |sets| :: Settable(Compile(row, 0).value.fields, sets[k])
    ensures device.layout.fields == Compile(row, 0).value.fields && |values| == |device.layout.fields|
    ensures forall i | 0 <= i < |values| :: values[i] == Left(device.layout.fields, sets, i, start)
    ensures forall b | 0 <= b < WIDTH && !row[b].Named? :: device.reg[b] == start[b]
  {
    hide Compile, Content, Left, Guard, Layout, Settled;
    CompiledLayout(row);
    forall b: nat | b < WIDTH && !row[b].Named?
      ensures forall i | 0 <= i < |Compile(row, 0).value.fields| :: !Compile(row, 0).value.fields[i].Covers(b)
    {
      BlankOutside(row, b);
    }
    device := new Device(Register(Compile(row, 0).value.fields, sw), start);
    SetAll(device, sets);
    values := GetAll(device);
    SettledMeans(device.layout.fields, sets, device.reg, start);
  }

  method SetAll(device: Device, sets: seq<(nat, Word)>)
    requires Layout(device.layout.fields) && !device.layout.Direct()
    requires forall k | 0 <= k < |sets| :: Settable(device.layout.fields, sets[k])
    modifies device
    ensures Settled(device.layout.fields, sets, device.reg, old(device.reg))
  {
    hide Content, Replaced, Guard, Left, Settled, Settable, Layout, Laid, Narrow, Writable, TypeBits, Fits, Zero;
    ghost var fields, start := device.layout.fields, device.reg;
    NoneSet(fields, start);
    for k := 0 to |sets|
      invariant Settled(fields, sets[..k], device.reg, start)
    {
      var (j, v) := sets[k];
      SettableMeans(fields, sets[k]);
      SettledOn(fields, sets[..k], device.reg, start, j, v);
      assert sets[..k] + [(j, v)] == sets[..k + 1];
      device.SetF(device.layout.fields[j], v);
    }
    assert sets[..|sets|] == sets;
  }

  method GetAll(device: Device) returns (values: seq<Word>)
    requires Layout(device.layout.fields) && |device.layout.fields| > 1
    ensures |values| == |device.layout.fields|
    ensures forall i | 0 <= i < |values| :: values[i] == Content(device.layout.fields[i], device.reg)
  {
    hide Content, Layout, Laid, Both, Not, Literal, Zero;
    values := [];
    for i := 0 to |device.layout.fields|
      invariant |values| == i && forall j | 0 <= j < i :: values[j] == Content(device.layout.fields[j], device.reg)
    {
      LaidAt(device.layout.fields, i);
      var value := device.GetF(device.layout.fields[i]);
      values := values + [value];
    }
  }

  lemma NoneSet(fields: seq<Field>, start: Word)
    ensures Settled(fields, [], start, start)
  {
  }

  /** The register of an accepted row: unpack after pack gives each argument, as far as it fits, to its field, and
      0 for a field that is not writable. */
  method PackThenUnpackAll(row: Row, sw: string, start: Word, values: seq<Word>) returns (device: Device, out: seq<Word>)
    requires Compile(row, 0).Ok?
    requires var layout := Register(Compile(row, 0).value.fields, sw);
             |values| == |layout.WritableFields()| > 1
             && forall i | 0 <= i < |values| :: Guard(layout.WritableFields()[i], values[i])
    ensures device.layout == Register(Compile(row, 0).value.fields, sw) && |out| == |device.layout.fields|
    ensures forall i, j | 0 <= i < |out| && 0 <= j < |values| && device.layout.fields[i] == device.layout.WritableFields()[j] ::
              out[i] == Convert(values[j], device.layout.fields[i].width)
    ensures forall i | 0 <= i < |out| && !Writable(device.layout.fields[i].sw) :: out[i] == Zero()
  {
    hide Compile, Content, Guard, Packed;
    CompiledLayout(row);
    var layout := Register(Compile(row, 0).value.fields, sw);
    ManyFields(layout.fields);
    device := new Device(layout, start);
    device.Pack(values);
    out := device.Unpack();
    forall j | 0 <= j < |values| ensures var g := layout.WritableFields()[j]; Content(g, device.reg) == Convert(values[j], g.width) {
      PackThenUnpack(layout, values, j);
    }
    forall i | 0 <= i < |out| && !Writable(layout.fields[i].sw) ensures out[i] == Zero() {
      PackClearsOthers(layout, values, layout.fields[i]);
    }
  }

  lemma {:induction false} ManyFields(fields: seq<Field>)
    ensures |Selected(fields)| <= |fields|
  {
    if fields != [] { ManyFields(fields[..|fields| - 1]); }
  }

  /** The type of the parameters is the smallest of the three C types that holds the field. */
  lemma TypeHolds(f: Field, bits: nat)
    requires Laid(f)
    ensures TypeBits(f) in {8, 16, 32} && f.width <= TypeBits(f)
    ensures bits in {8, 16, 32} && f.width <= bits ==> TypeBits(f) <= bits
  {
    hide Mask;
  }

  /** The writable fields of a compiled register are those whose top column, in a register that is writable itself, has
      a right other than reading. */
  lemma CompiledWritable(row: Row, sw: string, i: nat)
    requires Compile(row, 0).Ok? && i < |Compile(row, 0).value.fields|
    ensures var f := Compile(row, 0).value.fields[i];
            && f.high < WIDTH && row[f.high].Named?
            && (f in Register(Compile(row, 0).value.fields, sw).WritableFields() <==>
                sw in {"R/W", "W", "S", "C", "X"} && row[f.high].sw in {"R/W", "W", "S", "C", "X"})
  {
    hide Compile, Selected;
    CompiledRights(row, i);
    SelectedMembers(Compile(row, 0).value.fields);
  }

  /** The register after setf. */
  function AfterSet(layout: Register, f: Field, w: Word, v: Word): Word {
    Replaced(f, if layout.Direct() then Zero() else w, v)
  }

  predicate OtherWritable(fields: seq<Field>, f: Field) {
    exists h :: h in fields && h != f && Writable(h.sw)
  }

  lemma DistinctFields(fields: seq<Field>, i: nat, j: nat)
    requires Layout(fields) && i < j < |fields|
    ensures fields[i] != fields[j]
  {
    assert Laid(fields[i]) && Disjoint(fields[i], fields[j]);
  }

  /** A field of a writable register is its only writable one exactly if no other has a writable right. */
  lemma OnlyWritable(fields: seq<Field>, f: Field)
    requires Layout(fields) && f in fields && Writable(f.sw)
    ensures |Selected(fields)| == 1 <==> !OtherWritable(fields, f)
  {
    hide Layout, Writable, Selected;
    SelectedFields(fields);
    var some := Selected(fields);
    var a :| 0 <= a < |some| && some[a] == f;
    if OtherWritable(fields, f) {
      var h :| h in fields && h != f && Writable(h.sw);
      assert h in some;
    }
    if |some| > 1 {
      var b := if a == 0 then 1 else 0;
      DistinctFields(some, if a < b then a else b, if a < b then b else a);
      assert some[b] in some;
    }
  }

  function Ones(): Word {
    seq(WIDTH, k => true)
  }

  lemma OnesShow(g: Field)
    requires Laid(g)
    ensures Content(g, Ones()) != Zero()
  {
    assert Content(g, Ones())[0];
  }

  /** setf keeps the other fields, whatever the register holds, exactly if the register is no set or clear register and
      the field is not its only writable one. */
  lemma SetFKeepsOthers(layout: Register, f: Field, g: Field, v: Word)
    requires Layout(layout.fields) && f in layout.fields && g in layout.fields && Disjoint(f, g) && Writable(f.sw)
    ensures (forall w: Word :: Content(g, AfterSet(layout, f, w, v)) == Content(g, w)) <==>
            layout.sw !in {"S", "C"} && (Writable(layout.sw) ==> OtherWritable(layout.fields, f))
  {
    hide Content, Replaced, Zero, Layout, Disjoint, Writable, Selected, OtherWritable;
    InLayout(layout.fields, f);
    InLayout(layout.fields, g);
    OnlyWritable(layout.fields, f);
    SetOrClear();
    if layout.Direct() {
      OnesShow(g);
      DirectWriteClears(f, g, Ones(), v);
      assert Content(g, AfterSet(layout, f, Ones(), v)) != Content(g, Ones());
    } else {
      forall w: Word ensures Content(g, AfterSet(layout, f, w, v)) == Content(g, w) {
        SetKeeps(f, g, w, v);
      }
    }
  }

  lemma SetOrClear()
    ensures Writable("S") && Writable("C")
  {
  }

  lemma InLayout(fields: seq<Field>, f: Field)
    requires Layout(fields) && f in fields
    ensures Laid(f)
  {
  }
}
