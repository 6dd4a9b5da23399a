/** The register-map compiler (reg_xls2h_xls.py): the columns of a spreadsheet row, bit 31 first, become
    the bit fields of a register. */
module RegMap {
  import opened Bits
  import opened Wrappers

  const WIDTH := 32

  /** One column of a row.  `reset` is the integer the reset cell denotes, 0 when it denotes none. */
  datatype Column = Blank | Unparsable | Named(name: string, index: nat, reset: int, hw: string, sw: string)

  datatype Error = NameNotParsable | IndexNotInOrder | FieldExists

  /** The attributes of an xls_field; those that `end` assigns are 0 before. */
  datatype Field = Field(name: string, hw: string, sw: string, high: nat, highIndex: nat, lowIndex: int,
                         reset: int, low: nat, width: nat, mask: int) {
    predicate Covers(b: int) {
      low <= b <= high
    }
  }

  function Opened(c: Column, bitpos: nat): Field
    requires c.Named?
  {
    Field(c.name, c.hw, c.sw, bitpos, c.index, c.index, 0, 0, 0, 0)
  }

  /** xls_field.add */
  function Extended(f: Field, index: nat, reset: int): Field {
    f.(reset := Or(f.reset, Pow2(index) * reset), lowIndex := if index < f.lowIndex then index else f.lowIndex)
  }

  /** xls_field.end */
  function Closed(f: Field, low: nat): Field
    requires low <= f.high + 1
  {
    f.(low := low, width := f.high - low + 1, mask := Mask(f.high - low + 1, low))
  }

  /** The fields finished so far and the one that is being entered. */
  datatype State = State(fields: seq<Field>, cur: Option<Field>)

  /** The field being entered joins the finished ones. */
  function Close(st: State, low: nat): (r: State)
    requires st.cur.Some? && low <= st.cur.value.high + 1
    ensures r.cur.None?
  {
    State(st.fields + [Closed(st.cur.value, low)], None)
  }

  predicate HasName(fields: seq<Field>, name: string) {
    exists i | 0 <= i < |fields| :: fields[i].name == name
  }

  /** xls_register.add_bit, first part: put a named column in the field it belongs to. */
  function Enter(st: State, c: Column, bitpos: nat): (r: Result<State, Error>)
    requires c.Named? && (st.cur.Some? ==> bitpos < st.cur.value.high)
    ensures r.Ok? ==> r.value.cur.Some? && bitpos <= r.value.cur.value.high && r.value.cur.value.name == c.name
  {
    var started := Extended(Opened(c, bitpos), c.index, c.reset);
    match st.cur
    case Some(f) =>
      if f.name != c.name then Ok(Close(st, bitpos + 1).(cur := Some(started)))
      else if c.index != f.lowIndex - 1 then Err(IndexNotInOrder)
      else Ok(st.(cur := Some(Extended(f, c.index, c.reset))))
    case None =>
      if HasName(st.fields, c.name) then Err(FieldExists) else Ok(st.(cur := Some(started)))
  }

  /** xls_register.add_bit */
  function Add(st: State, c: Column, bitpos: nat): Result<State, Error>
    requires st.cur.Some? ==> bitpos < st.cur.value.high
  {
    match c
    case Blank => Ok(if st.cur.Some? then Close(st, bitpos + 1) else st)
    case Unparsable => Err(NameNotParsable)
    case Named(_, index, _, _, _) =>
      var entered := Enter(st, c, bitpos);
      if entered.Ok? && (index == 0 || bitpos == 0) then
        Ok(Close(entered.value, bitpos))
      else entered
  }

  type Row = row: seq<Column> | |row| == WIDTH witness seq(WIDTH, i => Blank)

  /** The columns of bit 31 down to bit `n`, entered in that order. */
  function Compile(row: Row, n: nat): (r: Result<State, Error>)
    requires n <= WIDTH
    ensures r.Ok? && r.value.cur.Some? ==> n <= r.value.cur.value.high
    decreases WIDTH - n
  {
    if n == WIDTH then Ok(State([], None))
    else
      var before := Compile(row, n + 1);
      if before.Err? then before else Add(before.value, row[n], n)
  }

  lemma CompileNone(row: Row)
    ensures Compile(row, WIDTH) == Ok(State([], None))
  {
  }

  lemma CompileNext(row: Row, n: nat)
    requires n < WIDTH
    ensures Compile(row, n + 1).Err? ==> Compile(row, n) == Compile(row, n + 1)
    ensures Compile(row, n + 1).Ok? ==>
              var st := Compile(row, n + 1).value;
              (st.cur.Some? ==> n < st.cur.value.high) && Compile(row, n) == Add(st, row[n], n)
  {
  }

  function NamedBits(row: Row): seq<bool> {
    seq(WIDTH, b requires 0 <= b < WIDTH => row[b].Named?)
  }

  function ResetBits(row: Row): seq<bool> {
    seq(WIDTH, b requires 0 <= b < WIDTH => row[b].Named? && row[b].reset == 1)
  }

  /** A field from bit `low` up, whose columns carry its name and consecutive indices. */
  ghost predicate Placed(row: Row, f: Field, low: nat) {
    && low <= f.high < WIDTH
    && 0 <= f.lowIndex && f.highIndex - f.lowIndex == f.high - low
    && forall b | low <= b <= f.high ::
         row[b].Named? && row[b].name == f.name && row[b].index == f.lowIndex + b - low
  }

  ghost predicate Finished(row: Row, f: Field) {
    Placed(row, f, f.low) && f.width == f.high - f.low + 1 && f.mask == Mask(f.width, f.low)
  }

  predicate InField(st: State, b: nat) {
    || (exists i :: 0 <= i < |st.fields| && st.fields[i].Covers(b))
    || (st.cur.Some? && b <= st.cur.value.high)
  }

  /** The fields lie side by side, from high to low, on exactly the named columns seen so far. */
  ghost predicate Tiling(row: Row, st: State, n: nat)
    requires n <= WIDTH
  {
    && (forall i | 0 <= i < |st.fields| :: Finished(row, st.fields[i]) && n <= st.fields[i].low)
    && (forall i, j | 0 <= i < j < |st.fields| :: st.fields[j].high < st.fields[i].low)
    && (st.cur.Some? ==>
          Placed(row, st.cur.value, n) && forall i | 0 <= i < |st.fields| :: st.cur.value.high < st.fields[i].low)
    && (forall b | n <= b < WIDTH && row[b].Named? :: InField(st, b))
  }

  /** Between two columns, a field is still being entered only if its index has not come down to 0. */
  ghost predicate Tiled(row: Row, st: State, n: nat)
    requires n <= WIDTH
  {
    Tiling(row, st, n) && (st.cur.Some? ==> 0 < n && 0 < st.cur.value.lowIndex)
  }

  lemma CloseTiling(row: Row, st: State, n: nat)
    requires n <= WIDTH && st.cur.Some? && Tiling(row, st, n)
    ensures Tiling(row, Close(st, n), n)
  {
    var st' := Close(st, n);
    forall b | n <= b < WIDTH && row[b].Named? ensures InField(st', b) {
      assert InField(st, b);
      if i :| 0 <= i < |st.fields| && st.fields[i].Covers(b) {
        assert st'.fields[i].Covers(b);
      } else {
        assert st'.fields[|st.fields|].Covers(b);
      }
    }
  }

  lemma BlankTiling(row: Row, st: State, n: nat)
    requires n < WIDTH && st.cur.None? && Tiling(row, st, n + 1) && !row[n].Named?
    ensures Tiling(row, st, n)
  {
  }

  lemma StartTiling(row: Row, st: State, n: nat)
    requires n < WIDTH && st.cur.None? && Tiling(row, st, n + 1) && row[n].Named?
    ensures Tiling(row, st.(cur := Some(Extended(Opened(row[n], n), row[n].index, row[n].reset))), n)
  {
    var st' := st.(cur := Some(Extended(Opened(row[n], n), row[n].index, row[n].reset)));
    forall b | n <= b < WIDTH && row[b].Named? ensures InField(st', b) {
      if b > n { assert InField(st, b); }
    }
  }

  lemma ContinueTiling(row: Row, st: State, n: nat)
    requires n < WIDTH && st.cur.Some? && Tiling(row, st, n + 1) && row[n].Named?
    requires row[n].name == st.cur.value.name && row[n].index == st.cur.value.lowIndex - 1
    ensures Tiling(row, st.(cur := Some(Extended(st.cur.value, row[n].index, row[n].reset))), n)
  {
    var st' := st.(cur := Some(Extended(st.cur.value, row[n].index, row[n].reset)));
    forall b | n <= b < WIDTH && row[b].Named? ensures InField(st', b) {
      if b > n { assert InField(st, b); }
    }
  }

  lemma EnterTiling(row: Row, st: State, n: nat)
    requires n < WIDTH && Tiling(row, st, n + 1) && row[n].Named? && Enter(st, row[n], n).Ok?
    ensures var st' := Enter(st, row[n], n).value;
            Tiling(row, st', n) && st'.cur.Some? && st'.cur.value.lowIndex == row[n].index
  {
    if st.cur.None? {
      StartTiling(row, st, n);
    } else if st.cur.value.name != row[n].name {
      CloseTiling(row, st, n + 1);
      StartTiling(row, Close(st, n + 1), n);
    } else {
      ContinueTiling(row, st, n);
    }
  }

  lemma OpenAbove(row: Row, st: State, n: nat)
    requires n < WIDTH && Tiled(row, st, n + 1)
    ensures st.cur.Some? ==> n < st.cur.value.high
  {
  }

  lemma AddTiled(row: Row, st: State, n: nat)
    requires n < WIDTH && Tiled(row, st, n + 1) && Add(st, row[n], n).Ok?
    ensures Tiled(row, Add(st, row[n], n).value, n)
  {
    hide Tiling, Placed, Finished, Enter, Extended, Opened, Closed;
    OpenAbove(row, st, n);
    if row[n].Blank? {
      if st.cur.Some? { CloseTiling(row, st, n + 1); }
      BlankTiling(row, Add(st, row[n], n).value, n);
    } else {
      EnterTiling(row, st, n);
      if row[n].index == 0 || n == 0 {
        CloseTiling(row, Enter(st, row[n], n).value, n);
      }
    }
  }

  lemma {:induction false} CompileTiled(row: Row, n: nat)
    requires n <= WIDTH && Compile(row, n).Ok?
    ensures Tiled(row, Compile(row, n).value, n)
    decreases WIDTH - n
  {
    hide *;
    if n == WIDTH {
      CompileNone(row);
      NothingTiled(row);
    } else {
      CompileNext(row, n);
      CompileTiled(row, n + 1);
      AddTiled(row, Compile(row, n + 1).value, n);
    }
  }

  lemma NothingTiled(row: Row)
    ensures Tiled(row, State([], None), WIDTH)
  {
  }

  /** The sum `reduce` forms of the masks, of the shifted reset values, and of the columns of the fields. */
  function MaskSum(fields: seq<Field>): int {
    if fields == [] then 0 else MaskSum(fields[..|fields| - 1]) + fields[|fields| - 1].mask
  }

  function ResetSum(fields: seq<Field>): int {
    if fields == [] then 0
    else ResetSum(fields[..|fields| - 1]) + Pow2(fields[|fields| - 1].low) * fields[|fields| - 1].reset
  }

  predicate Within(fields: seq<Field>) {
    forall i | 0 <= i < |fields| :: fields[i].low <= fields[i].high < WIDTH
  }

  function SpanSum(bits: seq<bool>, fields: seq<Field>): nat
    requires |bits| == WIDTH && Within(fields)
  {
    if fields == [] then 0
    else
      var f := fields[|fields| - 1];
      SpanSum(bits, fields[..|fields| - 1]) + Span(bits, f.low, f.high + 1)
  }

  /** No named column lies between two neighbouring fields. */
  lemma Gap(row: Row, st: State, i: nat, b: nat)
    requires Tiled(row, st, 0) && i <= |st.fields|
    requires if i < |st.fields| then st.fields[i].high < b else 0 <= b
    requires if i > 0 then b < st.fields[i - 1].low else b < WIDTH
    ensures !row[b].Named?
  {
    forall j | 0 <= j < |st.fields| ensures !st.fields[j].Covers(b) {
      assert 0 <= j < i - 1 ==> st.fields[i - 1].high < st.fields[j].low;
      assert i < j ==> st.fields[j].high < st.fields[i].low;
    }
    assert row[b].Named? ==> InField(st, b);
  }

  /** The lowest bit of the `i` highest fields. */
  function Boundary(st: State, i: nat): nat
    requires i <= |st.fields|
  {
    if i == 0 then WIDTH else st.fields[i - 1].low
  }

  lemma SpanStep(row: Row, st: State, bits: seq<bool>, i: nat)
    requires Tiled(row, st, 0) && |bits| == WIDTH && (forall b | 0 <= b < WIDTH :: bits[b] ==> row[b].Named?)
    requires i < |st.fields|
    ensures var f := st.fields[i];
            && f.low <= f.high < Boundary(st, i) <= WIDTH
            && Upper(bits, f.low) == Span(bits, f.low, f.high + 1) + Upper(bits, Boundary(st, i))
  {
    hide Upper, Span;
    var f := st.fields[i];
    assert i > 0 ==> Finished(row, st.fields[i - 1]) && f.high < st.fields[i - 1].low;
    assert Finished(row, f);
    UpperSplit(bits, f.low, f.high + 1);
    ClearSpan(row, st, bits, i, f.high + 1, Boundary(st, i));
  }

  /** The fields, each taken over its own columns, make up any bits that only named columns have set. */
  lemma {:induction false} SpansAddUp(row: Row, st: State, bits: seq<bool>, i: nat)
    requires Tiled(row, st, 0) && |bits| == WIDTH && (forall b | 0 <= b < WIDTH :: bits[b] ==> row[b].Named?)
    requires i <= |st.fields|
    ensures Within(st.fields[..i]) && Boundary(st, i) <= WIDTH
    ensures SpanSum(bits, st.fields[..i]) == Upper(bits, Boundary(st, i))
  {
    hide *;
    if i == 0 {
      NoSpans(st, bits);
    } else {
      SpansAddUp(row, st, bits, i - 1);
      SpanStep(row, st, bits, i - 1);
      SpanLast(bits, st.fields, i);
      BoundaryAt(st, i);
    }
  }

  lemma NoSpans(st: State, bits: seq<bool>)
    requires |bits| == WIDTH
    ensures Boundary(st, 0) == WIDTH && Within(st.fields[..0]) && SpanSum(bits, st.fields[..0]) == Upper(bits, WIDTH)
  {
    assert bits[WIDTH..] == [];
  }

  lemma BoundaryAt(st: State, i: nat)
    requires 0 < i <= |st.fields|
    ensures Boundary(st, i) == st.fields[i - 1].low
  {
  }

  lemma SpanLast(bits: seq<bool>, fields: seq<Field>, i: nat)
    requires |bits| == WIDTH && 0 < i <= |fields| && Within(fields[..i - 1]) && fields[i - 1].low <= fields[i - 1].high < WIDTH
    ensures Within(fields[..i])
    ensures SpanSum(bits, fields[..i]) == SpanSum(bits, fields[..i - 1]) + Span(bits, fields[i - 1].low, fields[i - 1].high + 1)
  {
    hide Span;
    assert fields[..i][..i - 1] == fields[..i - 1];
  }

  lemma ClearSpan(row: Row, st: State, bits: seq<bool>, i: nat, low: nat, high: nat)
    requires Tiled(row, st, 0) && |bits| == WIDTH && (forall b | 0 <= b < WIDTH :: bits[b] ==> row[b].Named?)
    requires i <= |st.fields| && low <= high <= WIDTH
    requires if i < |st.fields| then st.fields[i].high < low else true
    requires if i > 0 then high <= st.fields[i - 1].low else true
    ensures Upper(bits, low) == Upper(bits, high)
  {
    forall k | 0 <= k < high - low ensures !bits[low..high][k] {
      Gap(row, st, i, low + k);
    }
    ValueClear(bits[low..high]);
    UpperSplit(bits, low, high);
  }

  lemma AllSpans(row: Row, st: State, bits: seq<bool>)
    requires Tiled(row, st, 0) && |bits| == WIDTH && (forall b | 0 <= b < WIDTH :: bits[b] ==> row[b].Named?)
    ensures Within(st.fields) && SpanSum(bits, st.fields) == Value(bits)
  {
    var n := |st.fields|;
    assert st.fields[..n] == st.fields;
    SpansAddUp(row, st, bits, n);
    ClearSpan(row, st, bits, n, 0, Boundary(st, n));
    assert bits[0..] == bits;
  }

  /** The mask of a field is the number of its columns. */
  lemma FieldMask(row: Row, f: Field)
    requires Finished(row, f)
    ensures f.mask == Span(NamedBits(row), f.low, f.high + 1)
    ensures forall k: nat :: Bit(f.mask, k) == f.Covers(k)
  {
    hide Mask, Span, Bit, Finished, Field.Covers;
    FieldBits(row, f);
    SpanFull(NamedBits(row), f.low, f.high + 1);
    forall k: nat ensures Bit(f.mask, k) == f.Covers(k) {
      MaskBit(f.width, f.low, k);
      CoversMeans(f, k);
    }
  }

  lemma CoversMeans(f: Field, k: nat)
    ensures f.Covers(k) <==> f.low <= k <= f.high
  {
  }

  lemma FieldBits(row: Row, f: Field)
    requires Finished(row, f)
    ensures f.low <= f.high < WIDTH && f.width == f.high - f.low + 1 && f.mask == Mask(f.width, f.low)
    ensures forall b | f.low <= b <= f.high :: NamedBits(row)[b]
  {
    hide Mask;
  }

  lemma {:induction false} MaskSumIsSpanSum(row: Row, fields: seq<Field>)
    requires forall i | 0 <= i < |fields| :: Finished(row, fields[i])
    ensures Within(fields) && MaskSum(fields) == SpanSum(NamedBits(row), fields)
  {
    if fields != [] {
      MaskSumIsSpanSum(row, fields[..|fields| - 1]);
      FieldMask(row, fields[|fields| - 1]);
    }
  }

  /** Is a bit set in the bitwise or of the masks? */
  predicate InSomeMask(fields: seq<Field>, b: nat) {
    exists i :: 0 <= i < |fields| && Bit(fields[i].mask, b)
  }

  /** Compilation closes the last field, and gives each named bit to exactly one field, of its name, and each
      other bit to none. */
  lemma CompiledMasks(row: Row)
    requires Compile(row, 0).Ok?
    ensures var st := Compile(row, 0).value;
            && st.cur.None?
            && (forall b: nat, i | 0 <= i < |st.fields| && Bit(st.fields[i].mask, b) :: b < WIDTH && row[b].Named? && row[b].name == st.fields[i].name)
            && (forall b: nat | b < WIDTH && row[b].Named? :: InSomeMask(st.fields, b))
            && (forall b: nat, i, j | 0 <= i < |st.fields| && 0 <= j < |st.fields| && Bit(st.fields[i].mask, b) && Bit(st.fields[j].mask, b) :: i == j)
  {
    hide Compile;
    CompileTiled(row, 0);
    var st := Compile(row, 0).value;
    forall i | 0 <= i < |st.fields| ensures forall k: nat :: Bit(st.fields[i].mask, k) == st.fields[i].Covers(k) {
      FieldMask(row, st.fields[i]);
    }
    hide Bit;
    forall b: nat | b < WIDTH && row[b].Named? ensures InSomeMask(st.fields, b) {
      assert InField(st, b);
      var i :| 0 <= i < |st.fields| && st.fields[i].Covers(b);
      assert Bit(st.fields[i].mask, b);
    }
  }

  lemma OnlyNamed(row: Row, i: nat, b: nat)
    requires Compile(row, 0).Ok? && i < |Compile(row, 0).value.fields| && Bit(Compile(row, 0).value.fields[i].mask, b)
    ensures b < WIDTH && row[b].Named?
  {
    hide Compile;
    CompileTiled(row, 0);
    var st := Compile(row, 0).value;
    FieldMask(row, st.fields[i]);
    assert st.fields[i].Covers(b);
  }

  lemma MaskSumValue(row: Row)
    requires Compile(row, 0).Ok?
    ensures MaskSum(Compile(row, 0).value.fields) == Value(NamedBits(row))
  {
    hide Compile;
    CompileTiled(row, 0);
    var st := Compile(row, 0).value;
    MaskSumIsSpanSum(row, st.fields);
    AllSpans(row, st, NamedBits(row));
  }

  /** The masks being disjoint, the sum that the register stores as its mask is their bitwise or. */
  lemma CompiledMaskSum(row: Row, b: nat)
    requires Compile(row, 0).Ok?
    ensures var fields := Compile(row, 0).value.fields;
            Bit(MaskSum(fields), b) <==> InSomeMask(fields, b)
  {
    var fields := Compile(row, 0).value.fields;
    hide Compile, MaskSum, Value;
    CompiledMasks(row);
    MaskSumValue(row);
    ValueBit(NamedBits(row), b);
    assert Bit(MaskSum(fields), b) <==> b < WIDTH && row[b].Named?;
    assert b < WIDTH && row[b].Named? ==> InSomeMask(fields, b);
    if InSomeMask(fields, b) {
      var i :| 0 <= i < |fields| && Bit(fields[i].mask, b);
      OnlyNamed(row, i, b);
    }
  }

  /** Are all resets of named columns 0 or 1? */
  predicate BinaryResets(row: Row) {
    forall b | 0 <= b < WIDTH && row[b].Named? :: row[b].reset in {0, 1}
  }

  /** The reset value of a field from bit `low` up: its columns' resets, at their indices. */
  ghost predicate ResetOk(row: Row, f: Field, low: nat) {
    && low <= f.high < WIDTH && f.lowIndex >= 0
    && f.reset == Pow2(f.lowIndex) * Value(ResetBits(row)[low..f.high + 1])
  }

  ghost predicate ResetsOk(row: Row, st: State, n: nat) {
    && (forall i | 0 <= i < |st.fields| :: ResetOk(row, st.fields[i], st.fields[i].low))
    && (st.cur.Some? ==> ResetOk(row, st.cur.value, n))
  }

  /** One more column: its reset goes below those the field has. */
  lemma ExtendedReset(row: Row, f: Field, n: nat, f': Field)
    requires BinaryResets(row) && n < WIDTH && row[n].Named? && f' == Extended(f, row[n].index, row[n].reset)
    requires if f.high == n then f.reset == 0 && f.lowIndex == row[n].index
             else ResetOk(row, f, n + 1) && f.lowIndex == row[n].index + 1
    ensures ResetOk(row, f', n)
  {
    var bits, k, r := ResetBits(row), row[n].index, row[n].reset;
    var m := Value(bits[n + 1..f.high + 1]);
    if f.high == n {
      OrLowBit(0, r, k);
      assert m == 0 && bits[n..n + 1][1..] == [];
    } else {
      OrLowBit(m, r, k);
    }
    assert bits[n..f.high + 1][1..] == bits[n + 1..f.high + 1];
  }

  lemma EnterResets(row: Row, st: State, n: nat)
    requires n < WIDTH && BinaryResets(row) && Tiled(row, st, n + 1) && ResetsOk(row, st, n + 1)
    requires row[n].Named? && Enter(st, row[n], n).Ok?
    ensures ResetsOk(row, Enter(st, row[n], n).value, n)
  {
    hide Tiling;
    var c := row[n];
    if st.cur.None? || st.cur.value.name != c.name {
      ExtendedReset(row, Opened(c, n), n, Extended(Opened(c, n), c.index, c.reset));
    } else {
      ExtendedReset(row, st.cur.value, n, Extended(st.cur.value, c.index, c.reset));
    }
  }

  lemma CloseResets(row: Row, st: State, n: nat)
    requires n <= WIDTH && st.cur.Some? && ResetsOk(row, st, n)
    ensures ResetsOk(row, Close(st, n), n)
  {
  }

  lemma AddResets(row: Row, st: State, n: nat)
    requires n < WIDTH && BinaryResets(row) && Tiled(row, st, n + 1) && ResetsOk(row, st, n + 1) && Add(st, row[n], n).Ok?
    ensures ResetsOk(row, Add(st, row[n], n).value, n)
  {
    assert st.cur.Some? ==> n < st.cur.value.high;
    hide Tiling, ResetOk;
    if row[n].Blank? {
      if st.cur.Some? { CloseResets(row, st, n + 1); }
    } else {
      EnterTiling(row, st, n);
      EnterResets(row, st, n);
      if row[n].index == 0 || n == 0 {
        CloseResets(row, Enter(st, row[n], n).value, n);
      }
    }
  }

  lemma {:induction false} CompileResets(row: Row, n: nat)
    requires n <= WIDTH && BinaryResets(row) && Compile(row, n).Ok?
    ensures ResetsOk(row, Compile(row, n).value, n)
    decreases WIDTH - n
  {
    hide Add, ResetOk;
    if n < WIDTH {
      CompileTiled(row, n + 1);
      CompileResets(row, n + 1);
      AddResets(row, Compile(row, n + 1).value, n);
    }
  }

  /** The shifted reset of a field is the number of its columns' resets, times the weight of its lowest index. */
  lemma FieldReset(row: Row, f: Field)
    requires ResetOk(row, f, f.low)
    ensures Pow2(f.low) * f.reset == Pow2(f.lowIndex) * Span(ResetBits(row), f.low, f.high + 1)
    ensures Span(ResetBits(row), f.low, f.high + 1) == 0 <==> f.reset == 0
  {
    hide Pow2, Value, ResetBits;
    ResetWidth(row);
    var v := Value(ResetBits(row)[f.low..f.high + 1]);
    Swap(Pow2(f.low), Pow2(f.lowIndex), v);
    TimesPower(f.low, v);
    TimesPower(f.lowIndex, v);
  }

  predicate DownOrClear(f: Field) {
    f.reset == 0 || f.lowIndex == 0
  }

  /** A field adds to the register's reset at least what its columns reset to, and exactly that if it is clear or came
      down to index 0. */
  lemma OneFieldReset(row: Row, f: Field)
    requires ResetOk(row, f, f.low)
    ensures f.low <= f.high < WIDTH
    ensures Pow2(f.low) * f.reset >= Span(ResetBits(row), f.low, f.high + 1)
    ensures Pow2(f.low) * f.reset == Span(ResetBits(row), f.low, f.high + 1) <==> DownOrClear(f)
  {
    hide Span, Pow2, Value;
    FieldReset(row, f);
    PowerGrows(f.lowIndex, Span(ResetBits(row), f.low, f.high + 1));
  }

  predicate AllDownOrClear(fields: seq<Field>) {
    forall i | 0 <= i < |fields| :: DownOrClear(fields[i])
  }

  lemma SumsLast(bits: seq<bool>, fields: seq<Field>)
    requires |bits| == WIDTH && fields != []
    requires var f := fields[|fields| - 1]; Within(fields[..|fields| - 1]) && f.low <= f.high < WIDTH
    ensures var n, f := |fields| - 1, fields[|fields| - 1];
            && Within(fields)
            && ResetSum(fields) == ResetSum(fields[..n]) + Pow2(f.low) * f.reset
            && SpanSum(bits, fields) == SpanSum(bits, fields[..n]) + Span(bits, f.low, f.high + 1)
  {
    hide Span, Pow2;
    WithinLast(fields);
    hide Within;
  }

  lemma WithinLast(fields: seq<Field>)
    requires fields != [] && fields[|fields| - 1].low <= fields[|fields| - 1].high < WIDTH
    ensures Within(fields) <==> Within(fields[..|fields| - 1])
  {
    assert fields == fields[..|fields| - 1] + [fields[|fields| - 1]];
  }

  lemma DownLast(fields: seq<Field>)
    requires fields != []
    ensures AllDownOrClear(fields) <==> AllDownOrClear(fields[..|fields| - 1]) && DownOrClear(fields[|fields| - 1])
  {
    hide DownOrClear;
    assert fields == fields[..|fields| - 1] + [fields[|fields| - 1]];
  }

  lemma {:induction false} ResetSumAtLeast(row: Row, fields: seq<Field>)
    requires forall i | 0 <= i < |fields| :: ResetOk(row, fields[i], fields[i].low)
    ensures Within(fields) && ResetSum(fields) >= SpanSum(ResetBits(row), fields)
    ensures ResetSum(fields) == SpanSum(ResetBits(row), fields) <==> AllDownOrClear(fields)
  {
    if fields != [] {
      hide *;
      var n, f := |fields| - 1, fields[|fields| - 1];
      ResetSumAtLeast(row, fields[..n]);
      OneFieldReset(row, f);
      ResetWidth(row);
      SumsLast(ResetBits(row), fields);
      DownLast(fields);
    }
  }

  lemma ResetWidth(row: Row)
    ensures |ResetBits(row)| == WIDTH
  {
  }

  /** The register reset is the number of the columns' resets exactly if every field that resets to
      something else than 0 ends at index 0. */
  lemma ResetByFields(row: Row)
    requires BinaryResets(row) && Compile(row, 0).Ok?
    ensures var st := Compile(row, 0).value;
            ResetSum(st.fields) == Value(ResetBits(row)) <==> AllDownOrClear(st.fields)
  {
    hide Compile, Value, Span, Pow2, ResetOk, AllDownOrClear, Tiling;
    var st := Compile(row, 0).value;
    CompileTiled(row, 0);
    CompileResets(row, 0);
    AllSpans(row, st, ResetBits(row));
    ResetSumAtLeast(row, st.fields);
  }

  /** Below a finished field there is no column of its name, unless the field came down to index 0. */
  predicate Stopped(row: Row, f: Field) {
    f.lowIndex == 0 || f.low == 0 || (f.low <= WIDTH && (row[f.low - 1].Named? ==> row[f.low - 1].name != f.name))
  }

  lemma AddStopped(row: Row, st: State, n: nat)
    requires n < WIDTH && Tiled(row, st, n + 1) && Add(st, row[n], n).Ok? && forall i | 0 <= i < |st.fields| :: Stopped(row, st.fields[i])
    ensures var st' := Add(st, row[n], n).value; forall i | 0 <= i < |st'.fields| :: Stopped(row, st'.fields[i])
  {
    hide Tiling, Or, Pow2, Mask;
    OpenAbove(row, st, n);
  }

  lemma {:induction false} CompileStopped(row: Row, n: nat)
    requires n <= WIDTH && Compile(row, n).Ok?
    ensures forall i | 0 <= i < |Compile(row, n).value.fields| :: Stopped(row, Compile(row, n).value.fields[i])
    decreases WIDTH - n
  {
    hide *;
    if n == WIDTH {
      CompileNone(row);
    } else {
      CompileNext(row, n);
      CompileTiled(row, n + 1);
      CompileStopped(row, n + 1);
      AddStopped(row, Compile(row, n + 1).value, n);
    }
  }

  /** Does the field of a column come down to index 0?  Its name goes on for as many columns as its index says. */
  predicate ComesDown(row: Row, b: nat)
    requires b < WIDTH && row[b].Named?
  {
    row[b].index <= b && forall a | b - row[b].index <= a <= b :: row[a].Named? && row[a].name == row[b].name
  }

  lemma ComesDownMeans(row: Row, f: Field, b: nat)
    requires Finished(row, f) && Stopped(row, f) && f.Covers(b)
    ensures row[b].Named? && row[b].name == f.name && row[b].index == f.lowIndex + b - f.low
    ensures ComesDown(row, b) <==> f.lowIndex == 0
  {
    hide Mask;
    if ComesDown(row, b) && f.lowIndex > 0 {
      assert b - row[b].index <= f.low - 1 <= b;
    }
  }

  /** A reset other than 0 is that of a column. */
  lemma SomeReset(row: Row, f: Field)
    requires Finished(row, f) && ResetOk(row, f, f.low)
    ensures f.reset == 0 <==> forall b | f.low <= b <= f.high :: !ResetBits(row)[b]
  {
    FieldReset(row, f);
    var bits := ResetBits(row)[f.low..f.high + 1];
    TimesPower(f.low, Value(bits));
    hide Pow2, Mask;
    if forall b | f.low <= b <= f.high :: !ResetBits(row)[b] {
      ValueClear(bits);
    } else {
      var b :| f.low <= b <= f.high && ResetBits(row)[b];
      ValuePositive(bits, b - f.low);
    }
  }

  /** Every column that resets to 1 is in a field that comes down to index 0. */
  predicate ResetsDown(row: Row) {
    forall b | 0 <= b < WIDTH && row[b].Named? && row[b].reset == 1 :: ComesDown(row, b)
  }

  /** The same for the columns of a field. */
  predicate FieldResetsDown(row: Row, f: Field) {
    forall b | f.low <= b <= f.high < WIDTH && row[b].Named? && row[b].reset == 1 :: ComesDown(row, b)
  }

  lemma FieldDown(row: Row, f: Field)
    requires Finished(row, f) && Stopped(row, f) && ResetOk(row, f, f.low)
    ensures DownOrClear(f) <==> FieldResetsDown(row, f)
  {
    hide ComesDown, Mask, ResetOk, Stopped;
    SomeReset(row, f);
    forall b | f.low <= b <= f.high
      ensures row[b].Named? && (ComesDown(row, b) <==> f.lowIndex == 0) && ResetBits(row)[b] == (row[b].reset == 1)
    {
      assert f.Covers(b);
      ComesDownMeans(row, f, b);
    }
  }

  lemma ColumnDown(row: Row, f: Field, b: nat)
    requires FieldResetsDown(row, f) && f.Covers(b) && f.high < WIDTH && row[b].Named? && row[b].reset == 1
    ensures ComesDown(row, b)
  {
    hide ComesDown;
  }

  lemma CoveringField(row: Row, st: State, b: nat) returns (i: nat)
    requires Tiled(row, st, 0) && b < WIDTH && row[b].Named?
    ensures i < |st.fields| && st.fields[i].Covers(b) && st.fields[i].high < WIDTH
  {
    hide Mask;
    assert InField(st, b);
    i :| 0 <= i < |st.fields| && st.fields[i].Covers(b);
    assert Finished(row, st.fields[i]);
  }

  lemma AllResetsDown(row: Row, f: Field)
    requires ResetsDown(row)
    ensures FieldResetsDown(row, f)
  {
    hide ComesDown;
  }

  lemma FieldParts(row: Row, st: State, i: nat)
    requires Tiled(row, st, 0) && ResetsOk(row, st, 0) && i < |st.fields|
    ensures Finished(row, st.fields[i]) && ResetOk(row, st.fields[i], st.fields[i].low)
  {
    hide Finished, ResetOk, InField, Placed;
  }

  lemma FieldsDown(row: Row, st: State)
    requires Tiled(row, st, 0) && ResetsOk(row, st, 0) && forall i | 0 <= i < |st.fields| :: Stopped(row, st.fields[i])
    ensures AllDownOrClear(st.fields) <==> ResetsDown(row)
  {
    hide Tiled, ResetsOk, ComesDown, DownOrClear, ResetOk, Finished, Stopped, FieldResetsDown, Field.Covers;
    forall i | 0 <= i < |st.fields| ensures DownOrClear(st.fields[i]) <==> FieldResetsDown(row, st.fields[i]) {
      FieldParts(row, st, i);
      FieldDown(row, st.fields[i]);
    }
    if AllDownOrClear(st.fields) {
      forall b | 0 <= b < WIDTH && row[b].Named? && row[b].reset == 1 ensures ComesDown(row, b) {
        var i := CoveringField(row, st, b);
        ColumnDown(row, st.fields[i], b);
      }
    } else if ResetsDown(row) {
      forall i | 0 <= i < |st.fields| ensures DownOrClear(st.fields[i]) { AllResetsDown(row, st.fields[i]); }
    }
  }

  /** The register reset is the number of the columns' resets exactly if every column that resets to 1 is in a field that
      comes down to index 0. */
  lemma CompiledReset(row: Row)
    requires BinaryResets(row) && Compile(row, 0).Ok?
    ensures ResetSum(Compile(row, 0).value.fields) == Value(ResetBits(row)) <==> ResetsDown(row)
  {
    hide *;
    ResetByFields(row);
    CompileTiled(row, 0);
    CompileResets(row, 0);
    CompileStopped(row, 0);
    FieldsDown(row, Compile(row, 0).value);
  }

  /** One column, `a[1]` with reset 1, at bit 0: the register resets to 2 and the column to 1. */
  const SHIFTED: Row := [Named("a", 1, 1, "R/W", "R/W")] + seq(31, b => Blank)

  lemma OnlyColumn(c: Column)
    requires c.Named?
    ensures Add(State([], None), c, 0) == Ok(State([Closed(Extended(Opened(c, 0), c.index, c.reset), 0)], None))
  {
    var f := Extended(Opened(c, 0), c.index, c.reset);
    hide Extended, Closed;
    assert Enter(State([], None), c, 0) == Ok(State([], Some(f)));
    assert [] + [Closed(f, 0)] == [Closed(f, 0)];
  }

  lemma OneReset(f: Field)
    requires f.low == 0
    ensures ResetSum([f]) == f.reset
  {
    assert ResetSum([f][..0]) == 0;
  }

  lemma ShiftedField()
    ensures var f := Closed(Extended(Opened(SHIFTED[0], 0), 1, 1), 0);
            Compile(SHIFTED, 0) == Ok(State([f], None)) && f.low == 0 && f.reset == 2
  {
    hide Add, Or;
    LeadingBlanks(SHIFTED, 1);
    OnlyColumn(SHIFTED[0]);
    OrZeroLeft(2);
    assert Pow2(1) == 2;
    CompileNext(SHIFTED, 0);
  }

  lemma ShiftedValue()
    ensures Value(ResetBits(SHIFTED)) == 1
  {
    var bits := ResetBits(SHIFTED);
    assert bits[0] && forall b | 1 <= b < WIDTH :: !bits[b];
    ValueClear(bits[1..]);
  }

  lemma ResetCanShift()
    ensures BinaryResets(SHIFTED) && Compile(SHIFTED, 0).Ok?
    ensures ResetSum(Compile(SHIFTED, 0).value.fields) == 2 && Value(ResetBits(SHIFTED)) == 1
  {
    hide Compile, Value, ResetSum, Closed, Extended, Opened, ResetBits;
    ShiftedField();
    ShiftedValue();
    OneReset(Closed(Extended(Opened(SHIFTED[0], 0), 1, 1), 0));
  }

  ghost predicate DistinctNames(fields: seq<Field>) {
    forall i, j | 0 <= i < j < |fields| :: fields[i].name != fields[j].name
  }

  predicate AllDown(fields: seq<Field>) {
    forall i | 0 <= i < |fields| :: fields[i].lowIndex == 0
  }

  /** The names of the fields, the one being entered last. */
  function Names(st: State): seq<string> {
    seq(|st.fields|, i requires 0 <= i < |st.fields| => st.fields[i].name) + if st.cur.Some? then [st.cur.value.name] else []
  }

  predicate Distinct(names: seq<string>) {
    forall i, j | 0 <= i < j < |names| :: names[i] != names[j]
  }

  lemma DistinctMore(names: seq<string>, name: string)
    ensures Distinct(names + [name]) <==> Distinct(names) && name !in names
  {
    var more := names + [name];
    if Distinct(more) {
      forall i | 0 <= i < |names| ensures names[i] != name { assert more[i] != more[|names|]; }
      forall i, j | 0 <= i < j < |names| ensures names[i] != names[j] { assert more[i] != more[j]; }
    }
  }

  /** A field begins, in the column of bit `b`, by a change of name: the field above it had not come down to
      index 0.  This is the branch of add_bit that does not look for the name. */
  predicate Switch(row: Row, b: nat) {
    && b + 1 < WIDTH && row[b].Named? && row[b + 1].Named?
    && row[b + 1].name != row[b].name && row[b + 1].index > 0
  }

  /** No column above bit `b` has its name. */
  predicate NewName(row: Row, b: nat)
    requires b < WIDTH && row[b].Named?
  {
    forall a | b < a < WIDTH && row[a].Named? :: row[a].name != row[b].name
  }

  /** Every such change, from bit `n` up, is to a new name. */
  predicate SwitchesNew(row: Row, n: nat) {
    forall b | n <= b < WIDTH && Switch(row, b) :: NewName(row, b)
  }

  /** A field is being entered below a column exactly if that column has an index above 0. */
  lemma OpenField(row: Row, n: nat)
    requires n < WIDTH && Compile(row, n).Ok?
    ensures var st := Compile(row, n).value;
            && (st.cur.Some? <==> n > 0 && row[n].Named? && row[n].index > 0)
            && (st.cur.Some? ==> st.cur.value.name == row[n].name)
  {
    hide Tiled, Tiling;
    CompileTiled(row, n);
    CompileTiled(row, n + 1);
    var before := Compile(row, n + 1).value;
    assert Compile(row, n) == Add(before, row[n], n);
  }

  predicate Used(row: Row, n: nat, name: string) {
    exists b :: n <= b < WIDTH && row[b].Named? && row[b].name == name
  }

  lemma InNames(st: State, name: string)
    ensures name in Names(st) <==> HasName(st.fields, name) || (st.cur.Some? && st.cur.value.name == name)
  {
    var names := Names(st);
    if HasName(st.fields, name) {
      var i :| 0 <= i < |st.fields| && st.fields[i].name == name;
      assert names[i] == name;
    }
    if st.cur.Some? {
      assert names[|st.fields|] == st.cur.value.name;
    }
  }

  /** The names in use are those of the columns seen so far. */
  lemma NamesSeen(row: Row, n: nat, name: string)
    requires n <= WIDTH && Compile(row, n).Ok?
    ensures name in Names(Compile(row, n).value) <==> Used(row, n, name)
  {
    hide Compile, Names, Mask;
    CompileTiled(row, n);
    var st := Compile(row, n).value;
    InNames(st, name);
    if i :| 0 <= i < |st.fields| && st.fields[i].name == name {
      assert Finished(row, st.fields[i]);
      assert row[st.fields[i].low].name == name;
    }
    if st.cur.Some? && st.cur.value.name == name {
      assert row[n].name == name;
    }
    if b :| n <= b < WIDTH && row[b].Named? && row[b].name == name {
      assert InField(st, b);
      if i :| 0 <= i < |st.fields| && st.fields[i].Covers(b) {
        assert Finished(row, st.fields[i]);
      }
    }
  }

  /** Does a column begin a field? */
  predicate Begins(st: State, c: Column) {
    c.Named? && (st.cur.None? || st.cur.value.name != c.name)
  }

  /** A column adds its name when it begins a field; only when no field is being entered must it be new. */
  lemma AddNames(st: State, c: Column, n: nat)
    requires (st.cur.Some? ==> n < st.cur.value.high) && Add(st, c, n).Ok?
    ensures Names(Add(st, c, n).value) == Names(st) + if Begins(st, c) then [c.name] else []
    ensures Begins(st, c) && st.cur.None? ==> c.name !in Names(st)
  {
    hide Or, Pow2, Mask;
  }

  lemma {:induction false} NamesFrom(row: Row, n: nat)
    requires n <= WIDTH && Compile(row, n).Ok?
    ensures Distinct(Names(Compile(row, n).value)) <==> SwitchesNew(row, n)
    decreases WIDTH - n
  {
    hide *;
    if n == WIDTH {
      CompileNone(row);
      NoNames(row);
    } else {
      CompileNext(row, n);
      var st, c := Compile(row, n + 1).value, row[n];
      NamesFrom(row, n + 1);
      AddNames(st, c, n);
      if Begins(st, c) {
        BeginsNamed(st, c);
        DistinctMore(Names(st), c.name);
        NamesSeen(row, n + 1, c.name);
        UsedMeans(row, n);
      } else {
        assert Names(st) + [] == Names(st);
      }
      BeginsMeans(row, n);
      SwitchesMore(row, n);
    }
  }

  lemma NoNames(row: Row)
    ensures Distinct(Names(State([], None))) && SwitchesNew(row, WIDTH)
  {
  }

  lemma BeginsNamed(st: State, c: Column)
    requires Begins(st, c)
    ensures c.Named?
  {
  }

  lemma SwitchesMore(row: Row, n: nat)
    requires n < WIDTH
    ensures Switch(row, n) ==> row[n].Named?
    ensures SwitchesNew(row, n) <==> SwitchesNew(row, n + 1) && (Switch(row, n) ==> NewName(row, n))
  {
  }

  lemma UsedMeans(row: Row, n: nat)
    requires n < WIDTH && row[n].Named?
    ensures Used(row, n + 1, row[n].name) <==> !NewName(row, n)
  {
  }

  /** A field that begins while another is being entered begins by a change of name. */
  lemma BeginsMeans(row: Row, n: nat)
    requires n < WIDTH && Compile(row, n + 1).Ok?
    ensures var st := Compile(row, n + 1).value; Switch(row, n) <==> st.cur.Some? && Begins(st, row[n])
  {
    if n + 1 < WIDTH { OpenField(row, n + 1); }
  }

  /** Does the column of bit `b` find a field being entered: the column to its left has an index above 0? */
  predicate GoesOn(row: Row, b: nat) {
    b + 1 < WIDTH && row[b + 1].Named? && row[b + 1].index > 0
  }

  /** Why a column is refused, if it is: its name does not parse; its index does not count down from that of the column to
      its left, whose name it has; or it begins a field, with none being entered, under a name used before. */
  function Refusal(row: Row, b: nat): Option<Error>
    requires b < WIDTH
  {
    match row[b]
    case Blank => None
    case Unparsable => Some(NameNotParsable)
    case Named(name, index, _, _, _) =>
      if GoesOn(row, b) then
        if row[b + 1].name == name && row[b + 1].index != index + 1 then Some(IndexNotInOrder) else None
      else if NewName(row, b) then None else Some(FieldExists)
  }

  lemma AddRefused(row: Row, st: State, n: nat)
    requires n < WIDTH && (st.cur.Some? ==> n < st.cur.value.high)
    requires st.cur.Some? <==> GoesOn(row, n)
    requires st.cur.Some? ==> st.cur.value.name == row[n + 1].name && st.cur.value.lowIndex == row[n + 1].index
    requires row[n].Named? && st.cur.None? ==> (HasName(st.fields, row[n].name) <==> !NewName(row, n))
    ensures match Refusal(row, n)
            case None => Add(st, row[n], n).Ok?
            case Some(e) => Add(st, row[n], n) == Err(e)
  {
    hide HasName, NewName, GoesOn, Or, Pow2, Mask;
  }

  lemma LowestSeen(row: Row, n: nat)
    requires n < WIDTH && Compile(row, n).Ok? && Compile(row, n).value.cur.Some?
    ensures row[n].Named? && Compile(row, n).value.cur.value.lowIndex == row[n].index
  {
    hide Compile, Finished, InField;
    CompileTiled(row, n);
  }

  lemma HasNameMeans(row: Row, n: nat)
    requires n < WIDTH && row[n].Named? && Compile(row, n + 1).Ok? && Compile(row, n + 1).value.cur.None?
    ensures HasName(Compile(row, n + 1).value.fields, row[n].name) <==> !NewName(row, n)
  {
    hide *;
    NamesSeen(row, n + 1, row[n].name);
    InNames(Compile(row, n + 1).value, row[n].name);
    UsedMeans(row, n);
  }

  lemma NothingOpen(row: Row)
    ensures Compile(row, WIDTH) == Ok(State([], None)) && !GoesOn(row, WIDTH - 1)
  {
  }

  lemma GoesOnMeans(row: Row, n: nat)
    requires n + 1 < WIDTH
    ensures GoesOn(row, n) <==> row[n + 1].Named? && row[n + 1].index > 0
  {
  }

  lemma StepRefused(row: Row, n: nat)
    requires n < WIDTH && Compile(row, n + 1).Ok?
    ensures match Refusal(row, n)
            case None => Compile(row, n).Ok?
            case Some(e) => Compile(row, n) == Err(e)
  {
    hide *;
    var st := Compile(row, n + 1).value;
    CompileNext(row, n);
    if n + 1 < WIDTH {
      OpenField(row, n + 1);
      GoesOnMeans(row, n);
      if st.cur.Some? { LowestSeen(row, n + 1); }
    } else {
      NothingOpen(row);
    }
    if row[n].Named? && st.cur.None? { HasNameMeans(row, n); }
    AddRefused(row, st, n);
  }

  lemma {:induction false} CompiledFrom(row: Row, n: nat)
    requires n <= WIDTH
    ensures Compile(row, n).Ok? <==> forall b: nat | n <= b < WIDTH :: Refusal(row, b) == None
    decreases WIDTH - n
  {
    hide *;
    if n == WIDTH {
      CompileNone(row);
    } else {
      CompiledFrom(row, n + 1);
      CompileNext(row, n);
      if Compile(row, n + 1).Ok? { StepRefused(row, n); }
    }
  }

  /** A row is accepted exactly if no column is refused; otherwise the error is that of the first refused column, bit 31
      being the first. */
  lemma CompiledRows(row: Row)
    ensures Compile(row, 0).Ok? <==> forall b: nat | b < WIDTH :: Refusal(row, b) == None
    ensures forall b: nat | b < WIDTH && Refusal(row, b).Some? && forall a: nat | b < a < WIDTH :: Refusal(row, a) == None ::
              Compile(row, 0) == Err(Refusal(row, b).value)
  {
    hide *;
    CompiledFrom(row, 0);
    forall b: nat | b < WIDTH && Refusal(row, b).Some? && forall a: nat | b < a < WIDTH :: Refusal(row, a) == None
      ensures Compile(row, 0) == Err(Refusal(row, b).value)
    {
      CompiledFrom(row, b + 1);
      StepRefused(row, b);
      FailureStays(row, b, Refusal(row, b).value);
    }
  }

  /** Does a field have the rights and the highest index of the column it began with? */
  predicate FromTop(row: Row, f: Field) {
    && f.high < WIDTH && row[f.high].Named?
    && f.name == row[f.high].name && f.hw == row[f.high].hw && f.sw == row[f.high].sw && f.highIndex == row[f.high].index
  }

  predicate AllFromTop(row: Row, st: State) {
    (forall i | 0 <= i < |st.fields| :: FromTop(row, st.fields[i])) && (st.cur.Some? ==> FromTop(row, st.cur.value))
  }

  lemma CloseFromTop(row: Row, st: State, low: nat)
    requires st.cur.Some? && low <= st.cur.value.high + 1 && AllFromTop(row, st)
    ensures AllFromTop(row, Close(st, low))
  {
    hide Mask;
  }

  lemma AddFromTop(row: Row, st: State, n: nat)
    requires n < WIDTH && (st.cur.Some? ==> n < st.cur.value.high) && AllFromTop(row, st) && Add(st, row[n], n).Ok?
    ensures AllFromTop(row, Add(st, row[n], n).value)
  {
    hide Enter, Close, AllFromTop, Or, Pow2;
    if row[n].Blank? {
      if st.cur.Some? { CloseFromTop(row, st, n + 1); }
    } else {
      EnterFromTop(row, st, n);
      var entered := Enter(st, row[n], n).value;
      if row[n].index == 0 || n == 0 { CloseFromTop(row, entered, n); }
    }
  }

  lemma EnterFromTop(row: Row, st: State, n: nat)
    requires n < WIDTH && row[n].Named? && (st.cur.Some? ==> n < st.cur.value.high)
    requires AllFromTop(row, st) && Enter(st, row[n], n).Ok?
    ensures AllFromTop(row, Enter(st, row[n], n).value)
  {
    hide HasName, Or, Pow2, Close;
    if st.cur.Some? && st.cur.value.name != row[n].name { CloseFromTop(row, st, n + 1); }
  }

  lemma {:induction false} CompileFromTop(row: Row, n: nat)
    requires n <= WIDTH && Compile(row, n).Ok?
    ensures AllFromTop(row, Compile(row, n).value)
    decreases WIDTH - n
  {
    hide *;
    if n == WIDTH {
      CompileNone(row);
      NoneFromTop(row);
    } else {
      CompileNext(row, n);
      CompileFromTop(row, n + 1);
      AddFromTop(row, Compile(row, n + 1).value, n);
    }
  }

  lemma NoneFromTop(row: Row)
    ensures AllFromTop(row, State([], None))
  {
  }

  /** Every compiled field has the access rights and the highest index of its top column. */
  lemma CompiledRights(row: Row, i: nat)
    requires Compile(row, 0).Ok? && i < |Compile(row, 0).value.fields|
    ensures var f := Compile(row, 0).value.fields[i];
            && f.high < WIDTH && row[f.high].Named?
            && f.hw == row[f.high].hw && f.sw == row[f.high].sw && f.highIndex == row[f.high].index
  {
    hide Compile;
    CompileFromTop(row, 0);
  }

  /** Field names are distinct exactly if no change of name goes back to a name that was used before. */
  lemma CompiledNames(row: Row)
    requires Compile(row, 0).Ok?
    ensures DistinctNames(Compile(row, 0).value.fields) <==> SwitchesNew(row, 0)
  {
    hide Compile;
    NamesFrom(row, 0);
    CompileTiled(row, 0);
    var st := Compile(row, 0).value;
    assert forall i | 0 <= i < |st.fields| :: Names(st)[i] == st.fields[i].name;
  }

  /** The last column of a field that came down to index 0 has index 0. */
  lemma LastColumn(row: Row, b: nat)
    requires Compile(row, 0).Ok? && AllDown(Compile(row, 0).value.fields)
    requires b + 1 < WIDTH && row[b].Named? && row[b + 1].Named? && row[b].name != row[b + 1].name
    ensures row[b + 1].index == 0
  {
    hide Compile;
    CompileTiled(row, 0);
    var st := Compile(row, 0).value;
    assert InField(st, b + 1);
    var i :| 0 <= i < |st.fields| && st.fields[i].Covers(b + 1);
    assert Finished(row, st.fields[i]);
  }

  /** So they are when every field came down to index 0. */
  lemma NamesDown(row: Row)
    requires Compile(row, 0).Ok? && AllDown(Compile(row, 0).value.fields)
    ensures DistinctNames(Compile(row, 0).value.fields)
  {
    CompiledNames(row);
    forall b | 0 <= b < WIDTH - 1 && row[b].Named? && row[b + 1].Named? && row[b].name != row[b + 1].name
      ensures !Switch(row, b)
    {
      LastColumn(row, b);
    }
  }

  /** Otherwise a name can come twice: a field left at a higher index lets the next one start unchecked. */
  const REPEATED: Row := [Named("a", 2, 0, "R/W", "R/W"), Named("b", 3, 0, "R/W", "R/W"), Named("a", 5, 0, "R/W", "R/W")] + seq(29, b => Blank)

  lemma {:induction false} LeadingBlanks(row: Row, n: nat)
    requires n <= WIDTH && forall b | n <= b < WIDTH :: row[b].Blank?
    ensures Compile(row, n) == Ok(State([], None))
    decreases WIDTH - n
  {
    if n < WIDTH { LeadingBlanks(row, n + 1); }
  }

  lemma RepeatedSteps(c: Column, d: Column, e: Column)
    requires c.Named? && d.Named? && e.Named? && c.name != d.name && c.name == e.name && c.index > 0 && d.index > 0
    ensures var st := Add(State([], None), c, 2).value;
            && Add(State([], None), c, 2).Ok? && Add(st, d, 1).Ok? && Add(Add(st, d, 1).value, e, 0).Ok?
            && !DistinctNames(Add(Add(st, d, 1).value, e, 0).value.fields)
  {
    hide Or, Pow2, Mask;
    var st := Add(State([], None), c, 2).value;
    assert st.fields == [] && st.cur.value.name == c.name;
    var st' := Add(st, d, 1).value;
    assert |st'.fields| == 1 && st'.fields[0].name == c.name && st'.cur.value.name == d.name;
    var st'' := Add(st', e, 0).value;
    assert |st''.fields| == 3 && st''.fields[0].name == c.name && st''.fields[2].name == e.name;
  }

  lemma NamesCanRepeat()
    ensures Compile(REPEATED, 0).Ok? && !DistinctNames(Compile(REPEATED, 0).value.fields)
  {
    hide Add;
    LeadingBlanks(REPEATED, 3);
    RepeatedSteps(REPEATED[2], REPEATED[1], REPEATED[0]);
    assert Compile(REPEATED, 2) == Add(State([], None), REPEATED[2], 2);
    assert Compile(REPEATED, 1) == Add(Compile(REPEATED, 2).value, REPEATED[1], 1);
    assert Compile(REPEATED, 0) == Add(Compile(REPEATED, 1).value, REPEATED[0], 0);
  }

  class XlsField {
    const name: string
    const hw: string
    const sw: string
    const high: nat
    const highIndex: nat
    var lowIndex: int
    var reset: int
    var low: nat
    var width: nat
    var mask: int

    ghost function Record(): Field
      reads this
    {
      Field(name, hw, sw, high, highIndex, lowIndex, reset, low, width, mask)
    }

    constructor (name: string, high: nat, highIndex: nat, hw: string, sw: string)
      ensures Record() == Field(name, hw, sw, high, highIndex, highIndex, 0, 0, 0, 0)
    {
      this.name, this.hw, this.sw, this.high, this.highIndex := name, hw, sw, high, highIndex;
      lowIndex, reset, low, width, mask := highIndex, 0, 0, 0, 0;
    }

    method Add(index: nat, reset: int)
      modifies this
      ensures Record() == Extended(old(Record()), index, reset)
    {
      this.reset := Or(this.reset, Pow2(index) * reset);
      if index < lowIndex {
        lowIndex := index;
      }
    }

    method End(low: nat)
      requires low <= high + 1
      modifies this
      ensures Record() == Closed(old(Record()), low)
    {
      this.low := low;
      width := high - low + 1;
      mask := Mask(width, low);
    }
  }

  ghost function Records(fields: seq<XlsField>): (rs: seq<Field>)
    reads fields
    ensures |rs| == |fields| && forall i | 0 <= i < |fields| :: rs[i] == fields[i].Record()
  {
    if fields == [] then [] else Records(fields[..|fields| - 1]) + [fields[|fields| - 1].Record()]
  }

  lemma RecordsMore(fields: seq<XlsField>, f: XlsField)
    ensures Records(fields + [f]) == Records(fields) + [f.Record()]
  {
    assert (fields + [f])[..|fields|] == fields;
  }

  class XlsRegister {
    var fields: seq<XlsField>
    var curField: XlsField?
    var mask: int
    var reset: int

    ghost predicate Valid()
      reads this
    {
      forall i | 0 <= i < |fields| :: fields[i] != curField
    }

    ghost function Progress(): State
      reads this, fields, curField
    {
      State(Records(fields), if curField == null then None else Some(curField.Record()))
    }

    constructor ()
      ensures Valid() && Progress() == State([], None)
    {
      fields, curField, mask, reset := [], null, 0, 0;
    }

    /** End the field being entered and append it to the finished ones. */
    method Finish(low: nat)
      requires Valid() && curField != null && low <= curField.high + 1
      modifies this, curField
      ensures Valid() && curField == null && Progress() == Close(old(Progress()), low)
    {
      hide Or, Pow2, Mask, Closed, Records;
      curField.End(low);
      RecordsMore(fields, curField);
      fields := fields + [curField];
      curField := null;
    }

    method AddBit(c: Column, bitpos: nat) returns (error: Option<Error>)
      requires Valid() && (curField != null ==> bitpos < curField.high)
      modifies this, curField
      ensures match Add(old(Progress()), c, bitpos)
              case Ok(st) => error == None && Valid() && Progress() == st
                             && (curField == old(curField) || curField == null || fresh(curField))
              case Err(e) => error == Some(e)
    {
      hide Or, Pow2, Mask, Records, Extended, Closed, Enter;
      match c {
        case Unparsable =>
          return Some(NameNotParsable);
        case Blank =>
          if curField != null {
            Finish(bitpos + 1);
          }
          return None;
        case Named(name, index, reset, hw, sw) =>
          ghost var st := Progress();
          error := EnterBit(c, bitpos);
          if error.None? && (index == 0 || bitpos == 0) {
            Finish(bitpos);
          }
      }
    }

    /** The part of add_bit before the test for the last index. */
    method EnterBit(c: Column, bitpos: nat) returns (error: Option<Error>)
      requires c.Named? && Valid() && (curField != null ==> bitpos < curField.high)
      modifies this, curField
      ensures match Enter(old(Progress()), c, bitpos)
              case Ok(st) => error == None && Valid() && Progress() == st && curField != null
                             && (curField == old(curField) || fresh(curField))
              case Err(e) => error == Some(e)
    {
      hide Or, Pow2, Mask, Records, Extended, Opened, Closed, HasName;
      if curField != null {
        if curField.name != c.name {
          Finish(bitpos + 1);
          OpenField(c, bitpos);
        } else if c.index != curField.lowIndex - 1 {
          return Some(IndexNotInOrder);
        }
        curField.Add(c.index, c.reset);
      } else {
        OpenField(c, bitpos);
        curField.Add(c.index, c.reset);
        var repeated := FindName(c.name);
        if repeated {
          return Some(FieldExists);
        }
      }
      return None;
    }

    /** `self.cur_field = xls_field(...)` */
    method OpenField(c: Column, bitpos: nat)
      requires c.Named? && Valid()
      modifies this`curField
      ensures Valid() && fresh(curField) && curField != null && curField.Record() == Opened(c, bitpos)
      ensures Records(fields) == old(Records(fields))
    {
      hide Records;
      curField := new XlsField(c.name, bitpos, c.index, c.hw, c.sw);
    }

    /** `name in map(lambda x: x.name, fields)` */
    method FindName(name: string) returns (found: bool)
      ensures found == HasName(Records(fields), name)
    {
      for i := 0 to |fields|
        invariant forall j | 0 <= j < i :: fields[j].name != name
      {
        if fields[i].name == name {
          assert Records(fields)[i].name == name;
          return true;
        }
      }
      return false;
    }

    /** xls_register.end */
    method End()
      modifies this`mask, this`reset
      ensures Progress() == old(Progress())
      ensures mask == MaskSum(Records(fields)) && reset == ResetSum(Records(fields))
    {
      hide Or, Pow2, Records, MaskSum, ResetSum;
      ghost var rs := Records(fields);
      mask, reset := 0, 0;
      NoSums(rs);
      for i := 0 to |fields|
        invariant Records(fields) == rs && mask == MaskSum(rs[..i]) && reset == ResetSum(rs[..i])
      {
        SumsMore(rs, i);
        assert rs[i] == fields[i].Record();
        mask := mask + fields[i].mask;
        reset := reset + Pow2(fields[i].low) * fields[i].reset;
      }
      assert rs[..|fields|] == rs;
    }
  }

  lemma NoSums(fields: seq<Field>)
    ensures MaskSum(fields[..0]) == 0 && ResetSum(fields[..0]) == 0
  {
  }

  lemma SumsMore(fields: seq<Field>, i: nat)
    requires i < |fields|
    ensures MaskSum(fields[..i + 1]) == MaskSum(fields[..i]) + fields[i].mask
    ensures ResetSum(fields[..i + 1]) == ResetSum(fields[..i]) + Pow2(fields[i].low) * fields[i].reset
  {
    hide Pow2;
    assert fields[..i + 1][..i] == fields[..i];
  }

  /** The loop over the columns of a row, bit 31 first. */
  method CompileRow(row: Row) returns (reg: XlsRegister, error: Option<Error>)
    ensures match Compile(row, 0)
            case Ok(st) => error == None && reg.Progress() == st && reg.mask == MaskSum(st.fields) && reg.reset == ResetSum(st.fields)
            case Err(e) => error == Some(e)
  {
    hide Or, Pow2, Mask, Records, Add, Tiling, Compile;
    reg := new XlsRegister();
    error := None;
    CompileNone(row);
    var n: nat := WIDTH;
    while n > 0
      invariant n <= WIDTH && error.None? && reg.Valid() && Compile(row, n) == Ok(reg.Progress())
      invariant fresh(reg) && (reg.curField != null ==> fresh(reg.curField))
    {
      n := n - 1;
      CompileTiled(row, n + 1);
      CompileNext(row, n);
      error := reg.AddBit(row[n], n);
      if error.Some? {
        FailureStays(row, n, error.value);
        return;
      }
    }
    reg.End();
  }

  /** An exception ends the compilation of the row. */
  lemma {:induction false} FailureStays(row: Row, n: nat, e: Error)
    requires n <= WIDTH && Compile(row, n) == Err(e)
    ensures Compile(row, 0) == Err(e)
  {
    hide *;
    if n > 0 {
      CompileNext(row, n - 1);
      FailureStays(row, n - 1, e);
    }
  }
}
