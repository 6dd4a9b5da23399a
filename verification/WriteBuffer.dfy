/** The write buffer (wb.cpp): a ring of byte blocks that still have to reach the bus. */
module WriteBuffer {
  import opened Words
  import opened Bus

  datatype Entry = Entry(pa: nat, bytes: seq<bv8>) {
    predicate Covers(a: int) {
      pa <= a < pa + |bytes|
    }

    predicate Fits() {
      pa + |bytes| <= SIZE
    }
  }

  predicate AllFit(es: seq<Entry>) {
    forall i | 0 <= i < |es| :: es[i].Fits()
  }

  /** Does every entry stay within its `nb` allocated bytes? */
  predicate Within(es: seq<Entry>, nb: nat) {
    forall i | 0 <= i < |es| :: |es[i].bytes| <= nb
  }

  predicate Pending(es: seq<Entry>, a: int) {
    exists i | 0 <= i < |es| :: es[i].Covers(a)
  }

  lemma PendingTail(es: seq<Entry>)
    requires es != []
    ensures forall a :: Pending(es[1..], a) ==> Pending(es, a)
  {
    forall a | Pending(es[1..], a) ensures Pending(es, a) {
      var i :| 0 <= i < |es[1..]| && es[1..][i].Covers(a);
      assert es[i + 1].Covers(a);
    }
  }

  lemma PendingAppend(es: seq<Entry>, e: Entry)
    ensures forall a :: Pending(es + [e], a) <==> Pending(es, a) || e.Covers(a)
  {
    var fs := es + [e];
    forall a ensures Pending(fs, a) <==> Pending(es, a) || e.Covers(a) {
      if i :| 0 <= i < |es| && es[i].Covers(a) { assert fs[i].Covers(a); }
      if e.Covers(a) { assert fs[|es|].Covers(a); }
      if i :| 0 <= i < |fs| && fs[i].Covers(a) { assert i < |es| ==> es[i].Covers(a); }
    }
  }

  /** The memory seen once every entry, oldest first, has been written. */
  function Apply(es: seq<Entry>, m: Memory): Memory
    requires AllFit(es)
  {
    if es == [] then m else Apply(es[1..], Overwrite(m, es[0].pa, es[0].bytes))
  }

  lemma ApplyNext(es: seq<Entry>, m: Memory)
    requires es != [] && AllFit(es)
    ensures es[0].Fits() && AllFit(es[1..])
    ensures Apply(es, m) == Apply(es[1..], Overwrite(m, es[0].pa, es[0].bytes))
  {
    hide Overwrite;
  }

  lemma {:induction false} ApplyAppend(es: seq<Entry>, e: Entry, m: Memory)
    requires AllFit(es) && e.Fits()
    ensures AllFit(es + [e])
    ensures Apply(es + [e], m) == Overwrite(Apply(es, m), e.pa, e.bytes)
  {
    if es == [] {
      assert (es + [e])[1..] == [];
    } else {
      assert (es + [e])[1..] == es[1..] + [e];
      ApplyAppend(es[1..], e, Overwrite(m, es[0].pa, es[0].bytes));
    }
  }

  /** A byte no entry covers is already the byte in memory. */
  lemma {:induction false} ApplyElsewhere(es: seq<Entry>, m: Memory, a: nat)
    requires AllFit(es) && a < SIZE && !Pending(es, a)
    ensures Apply(es, m)[a] == m[a]
  {
    if es != [] {
      assert !es[0].Covers(a);
      forall i | 0 <= i < |es[1..]| ensures !es[1..][i].Covers(a) { assert es[1..][i] == es[i + 1]; }
      ApplyElsewhere(es[1..], Overwrite(m, es[0].pa, es[0].bytes), a);
    }
  }

  /** Every byte of the final memory is decided by the initial memory at that address alone. */
  lemma {:induction false} ApplyPointwise(es: seq<Entry>, m: Memory, n: Memory, a: nat)
    requires AllFit(es) && a < SIZE && (m[a] == n[a] || Pending(es, a))
    ensures Apply(es, m)[a] == Apply(es, n)[a]
  {
    if es != [] {
      var m', n' := Overwrite(m, es[0].pa, es[0].bytes), Overwrite(n, es[0].pa, es[0].bytes);
      if Pending(es, a) && !es[0].Covers(a) {
        var i :| 0 <= i < |es| && es[i].Covers(a);
        assert es[1..][i - 1].Covers(a);
      }
      ApplyPointwise(es[1..], m', n', a);
    }
  }

  /** Is every byte that waits now among those that waited before, or in a block? */
  ghost predicate NoMore(es': seq<Entry>, es: seq<Entry>, pa: int, n: int) {
    forall a :: Pending(es', a) ==> Pending(es, a) || pa <= a < pa + n
  }

  lemma NoMoreYet(es: seq<Entry>, pa: int)
    ensures NoMore(es, es, pa, 0)
  {
  }

  lemma NoMoreOn(es'': seq<Entry>, es': seq<Entry>, es: seq<Entry>, pa: int, n: nat, i: nat)
    requires NoMore(es', es, pa, n) && NoMore(es'', es', pa + n, i)
    ensures NoMore(es'', es, pa, n + i)
  {
    hide Pending;
  }

  lemma NoMoreAppend(es: seq<Entry>, rest: seq<Entry>, e: Entry)
    requires rest == es || (es != [] && rest == es[1..])
    ensures NoMore(rest + [e], es, e.pa, |e.bytes|)
  {
    if rest != es { PendingTail(es); }
    PendingAppend(rest, e);
    hide Pending;
  }

  function Wrap(s: seq<Entry>, i: nat): nat {
    if i < |s| then i else i - |s|
  }

  /** The `used` elements of a ring from position `last` on. */
  function Ring(s: seq<Entry>, last: nat, used: nat): (q: seq<Entry>)
    requires last < |s| && used <= |s|
    ensures |q| == used && forall i | 0 <= i < used :: q[i] == s[Wrap(s, last + i)]
  {
    if last + used <= |s| then s[last..last + used] else s[last..] + s[..last + used - |s|]
  }

  lemma RingFirst(s: seq<Entry>, last: nat, used: nat)
    requires last < |s| && 0 < used <= |s|
    ensures Ring(s, last, used)[0] == s[last]
  {
  }

  lemma RingRetire(s: seq<Entry>, last: nat, used: nat)
    requires last < |s| && 0 < used <= |s|
    ensures Ring(s, Wrap(s, last + 1), used - 1) == Ring(s, last, used)[1..]
  {
    var q, r := Ring(s, last, used), Ring(s, Wrap(s, last + 1), used - 1);
    forall i | 0 <= i < used - 1 ensures r[i] == q[i + 1] {
      assert Wrap(s, Wrap(s, last + 1) + i) == Wrap(s, last + (i + 1));
    }
  }

  lemma RingPush(s: seq<Entry>, last: nat, used: nat, e: Entry)
    requires last < |s| && used < |s|
    ensures Ring(s[Wrap(s, last + used) := e], last, used + 1) == Ring(s, last, used) + [e]
  {
    var q, r := Ring(s, last, used), Ring(s[Wrap(s, last + used) := e], last, used + 1);
    forall i | 0 <= i < used ensures r[i] == q[i] {
      assert Wrap(s, last + i) != Wrap(s, last + used);
    }
  }

  lemma FitMore(es: seq<Entry>, e: Entry, nb: nat)
    requires AllFit(es) && e.Fits() && Within(es, nb) && |e.bytes| <= nb
    ensures AllFit(es + [e]) && Within(es + [e], nb)
  {
  }

  lemma FitTail(es: seq<Entry>, nb: nat)
    requires es != [] && AllFit(es) && Within(es, nb)
    ensures AllFit(es[1..]) && Within(es[1..], nb)
  {
  }

  class WriteBuffer {
    const nb: nat
    const bus: Bus
    const entries: array<Entry>
    var first: nat
    var last: nat
    var used: nat

    ghost predicate Valid()
      reads this, entries
    {
      && nb > 0 && entries.Length > 0
      && first < entries.Length && last < entries.Length && used <= entries.Length
      && first == Wrap(entries[..], last + used)
      && AllFit(Queue()) && Within(Queue(), nb)
    }

    /** The entries in use, oldest first. */
    ghost function Queue(): (q: seq<Entry>)
      requires last < entries.Length && used <= entries.Length
      reads this, entries
      ensures |q| == used
    {
      Ring(entries[..], last, used)
    }

    /** What memory holds once the buffer has drained. */
    ghost function View(): Memory
      requires Valid()
      reads this, entries, bus
    {
      Apply(Queue(), bus.mem)
    }

    constructor (num: nat, nb: nat, bus: Bus)
      requires num > 0 && nb > 0
      ensures Valid() && fresh(entries) && this.bus == bus && this.nb == nb && entries.Length == num
      ensures Queue() == []
    {
      this.nb := nb;
      this.bus := bus;
      entries := new Entry[num](i => Entry(0, []));
      first, last, used := 0, 0, 0;
    }

    /** Write the bytes of an entry to the bus one by one. */
    method WriteBlock(e: Entry)
      requires e.Fits()
      modifies bus
      ensures bus.mem == Overwrite(old(bus.mem), e.pa, e.bytes)
    {
      hide Overwrite;
      var t, i := e.pa, 0;
      OverwriteNone(bus.mem, e.pa, e.bytes);
      while i < |e.bytes|
        invariant 0 <= i <= |e.bytes| && t == e.pa + i
        invariant bus.mem == Overwrite(old(bus.mem), e.pa, e.bytes[..i])
      {
        OverwriteOne(old(bus.mem), e.pa, e.bytes, i);
        bus.WriteByte(t, e.bytes[i]);
        t, i := t + 1, i + 1;
      }
      assert e.bytes[..i] == e.bytes;
    }

    /** Write the oldest entry to the bus and retire it. */
    method Retire()
      requires Valid() && used > 0
      modifies this, bus
      ensures Valid() && View() == old(View())
      ensures Queue() == old(Queue())[1..]
    {
      hide Ring, Apply, Overwrite, AllFit, Within;
      RingFirst(entries[..], last, used);
      RingRetire(entries[..], last, used);
      FitTail(Queue(), nb);
      ApplyNext(Queue(), bus.mem);
      WriteBlock(entries[last]);
      last := last + 1;
      if last == entries.Length {
        last := 0;
      }
      used := used - 1;
    }

    /** mmu_wb_drain_all */
    method DrainAll()
      requires Valid()
      modifies this, bus
      ensures Valid() && View() == old(View())
      ensures Queue() == [] && bus.mem == View()
    {
      while used > 0
        invariant Valid() && View() == old(View())
        decreases used
      {
        Retire();
      }
    }

    /** Store an entry in the next free slot. */
    method Push(e: Entry)
      requires Valid() && used < entries.Length && e.Fits() && |e.bytes| <= nb
      modifies this, entries
      ensures Valid() && Queue() == old(Queue()) + [e]
    {
      hide Ring, AllFit, Within;
      RingPush(entries[..], last, used, e);
      FitMore(Queue(), e, nb);
      entries[first] := e;
      first := first + 1;
      if first == entries.Length {
        first := 0;
      }
      used := used + 1;
    }

    /** Queue one block, writing the oldest entry out first when every entry is in use. */
    method PutBlock(e: Entry)
      requires Valid() && e.Fits() && |e.bytes| <= nb
      modifies this, entries, bus
      ensures Valid() && View() == Overwrite(old(View()), e.pa, e.bytes)
      ensures NoMore(Queue(), old(Queue()), e.pa, |e.bytes|)
      ensures Queue() == (if old(used) == entries.Length then old(Queue())[1..] else old(Queue())) + [e]
    {
      hide Ring, Apply, Overwrite, AllFit, Within, NoMore;
      ghost var q := Queue();
      if entries.Length == used {
        Retire();
      }
      ApplyAppend(Queue(), e, bus.mem);
      NoMoreAppend(q, Queue(), e);
      Push(e);
    }

    /** mmu_wb_write_bytes: the bytes become visible at `pa` on, whether or not entries had to be retired. */
    method WriteBytes(pa: nat, data: seq<bv8>)
      requires Valid() && pa + |data| <= SIZE
      modifies this, entries, bus
      ensures Valid() && View() == Overwrite(old(View()), pa, data)
      ensures NoMore(Queue(), old(Queue()), pa, |data|)
    {
      hide Ring, Apply, Overwrite, AllFit, Within, NoMore;
      ghost var before, q := View(), Queue();
      OverwriteNone(before, pa, data);
      NoMoreYet(q, pa);
      var n := 0;
      while n < |data|
        invariant 0 <= n <= |data| && Valid()
        invariant View() == Overwrite(before, pa, data[..n])
        invariant NoMore(Queue(), q, pa, n)
      {
        var i := if |data| - n < nb then |data| - n else nb;
        ghost var q' := Queue();
        PutBlock(Entry(pa + n, data[n..n + i]));
        NoMoreOn(Queue(), q', q, pa, n, i);
        OverwriteSplit(before, pa, data, n, i);
        n := n + i;
      }
      assert data[..n] == data;
    }
  }
}
