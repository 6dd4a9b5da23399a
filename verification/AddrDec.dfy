/** The address decoder (AddrDec.h): a chain of address ranges, the last used one first, and the debug
    transfer that walks over adjacent ranges. */
module AddrDec {
  import Bits
  import opened Wrappers

  datatype Command = ReadCommand | WriteCommand

  /** A transaction; `ptr` is the offset of its data pointer into the initiator's buffer. */
  class Payload {
    const command: Command
    const buffer: array<bv8>
    var address: nat
    var length: nat
    var ptr: nat

    constructor (command: Command, buffer: array<bv8>, address: nat, length: nat, ptr: nat)
      ensures this.command == command && this.buffer == buffer
      ensures this.address == address && this.length == length && this.ptr == ptr
    {
      this.command, this.buffer, this.address, this.length, this.ptr := command, buffer, address, length, ptr;
    }
  }

  /** Bytes with some of them replaced, from an offset on. */
  ghost predicate Stored(bytes: seq<bv8>, was: seq<bv8>, offset: int, data: seq<bv8>) {
    && |bytes| == |was|
    && forall k | 0 <= k < |was| :: bytes[k] == if offset <= k < offset + |data| then data[k - offset] else was[k]
  }

  lemma StoredOne(bytes: seq<bv8>, was: seq<bv8>, offset: nat, data: seq<bv8>, i: nat)
    requires i < |data| && offset + i < |was| && Stored(bytes, was, offset, data[..i])
    ensures Stored(bytes[offset + i := data[i]], was, offset, data[..i + 1])
  {
  }

  lemma NoneStored(was: seq<bv8>, offset: nat, data: seq<bv8>)
    ensures Stored(was, was, offset, data[..0])
  {
  }

  lemma StoredAtOnce(was: seq<bv8>, offset: nat, data: seq<bv8>)
    requires offset + |data| <= |was|
    ensures Stored(was[..offset] + data + was[offset + |data|..], was, offset, data)
  {
  }

  /** A slave that answers debug transfers with TLM_DBG_EXEC over its container. */
  class Slave {
    var bytes: seq<bv8>

    constructor (bytes: seq<bv8>)
      ensures this.bytes == bytes
    {
      this.bytes := bytes;
    }

    method TransportDbg(trans: Payload) returns (n: nat)
      requires trans.address < |bytes| && trans.ptr + trans.length <= trans.buffer.Length
      modifies trans.buffer, if trans.command.WriteCommand? then {this} else {}
      ensures n == if trans.address + trans.length <= |bytes| then trans.length else |bytes| - trans.address
      ensures trans.command.ReadCommand? ==>
                bytes == old(bytes)
                && Stored(trans.buffer[..], old(trans.buffer[..]), trans.ptr, bytes[trans.address..trans.address + n])
      ensures trans.command.WriteCommand? ==>
                trans.buffer[..] == old(trans.buffer[..])
                && Stored(bytes, old(bytes), trans.address, trans.buffer[trans.ptr..trans.ptr + n])
    {
      hide Stored;
      n := if trans.address + trans.length <= |bytes| then trans.length else |bytes| - trans.address;
      if trans.command.ReadCommand? {
        ghost var data, b := bytes[trans.address..trans.address + n], trans.buffer[..];
        NoneStored(b, trans.ptr, data);
        for i := 0 to n
          modifies trans.buffer
          invariant Stored(trans.buffer[..], b, trans.ptr, data[..i])
        {
          StoredOne(trans.buffer[..], b, trans.ptr, data, i);
          trans.buffer[trans.ptr + i] := bytes[trans.address + i];
        }
        assert data[..n] == data;
      } else {
        StoredAtOnce(bytes, trans.address, trans.buffer[trans.ptr..trans.ptr + n]);
        bytes := bytes[..trans.address] + trans.buffer[trans.ptr..trans.ptr + n] + bytes[trans.address + n..];
      }
    }
  }

  class Range {
    const start: nat
    const end: nat
    const slave: Slave
    var next: Range?

    constructor (start: nat, end: nat, slave: Slave, next: Range?)
      ensures this.start == start && this.end == end && this.slave == slave && this.next == next
    {
      this.start, this.end, this.slave, this.next := start, end, slave, next;
    }

    predicate Contains(a: int) {
      start <= a < end
    }
  }

  /** Do two half-open intervals meet? */
  predicate Overlap(start: int, end: int, start': int, end': int) {
    start < end' && start' < end
  }

  predicate Between(start: int, a: int, end: int) {
    start <= a < end
  }

  /** Intervals that are not empty overlap exactly if they have an address in common. */
  lemma OverlapMeans(start: int, end: int, start': int, end': int)
    requires start < end && start' < end'
    ensures Overlap(start, end, start', end') <==> exists a: int :: Between(start, a, end) && Between(start', a, end')
  {
    if Overlap(start, end, start', end') {
      var a := if start < start' then start' else start;
      assert Between(start, a, end) && Between(start', a, end');
    }
  }

  predicate Apart(r: Range, s: Range) {
    !Overlap(r.start, r.end, s.start, s.end)
  }

  /** The node after the `i`th of a chain. */
  function Follower(c: seq<Range>, i: int): Range?
    requires -1 <= i < |c|
  {
    if i + 1 < |c| then c[i + 1] else null
  }

  /** The nodes from `head` on, each linked to the next, none twice. */
  ghost predicate Linked(head: Range?, c: seq<Range>)
    reads c
  {
    && head == Follower(c, -1)
    && (forall i | 0 <= i < |c| :: c[i].next == Follower(c, i))
    && (forall i, j | 0 <= i < j < |c| :: c[i] != c[j])
  }

  ghost predicate Disjoint(c: set<Range>) {
    && (forall r | r in c :: r.start < r.end)
    && (forall r, s | r in c && s in c && r != s :: Apart(r, s))
  }

  function Nodes(c: seq<Range>): set<Range> {
    set r | r in c
  }

  /** A chain with its `i`th node moved to the front. */
  ghost function MovedToFront(c: seq<Range>, i: nat): (r: seq<Range>)
    requires i < |c|
    ensures |r| == |c| && forall j | 0 <= j < |c| :: r[j] == if j == 0 then c[i] else if j <= i then c[j - 1] else c[j]
  {
    [c[i]] + c[..i] + c[i + 1..]
  }

  /** A chain with a node moved to the front, the others in their order. */
  ghost predicate Promoted(before: seq<Range>, after: seq<Range>, r: Range) {
    exists i :: 0 <= i < |before| && before[i] == r && after == MovedToFront(before, i)
  }

  lemma MovedNodes(c: seq<Range>, i: nat)
    requires i < |c|
    ensures Nodes(MovedToFront(c, i)) == Nodes(c)
  {
    var r := MovedToFront(c, i);
    forall x | x in c ensures x in r {
      var j :| 0 <= j < |c| && c[j] == x;
      assert r[if j == i then 0 else if j < i then j + 1 else j] == x;
    }
  }

  /** Where the nodes of a moved chain come from, and what follows them. */
  lemma MovedAt(c: seq<Range>, i: nat, j: nat)
    requires 0 < i < |c| && j < |c|
    ensures var r := MovedToFront(c, i);
            && |r| == |c|
            && r[j] == (if j == 0 then c[i] else if j <= i then c[j - 1] else c[j])
            && Follower(r, j) == if j == 0 then Follower(c, -1) else if j < i then Follower(c, j - 1) else Follower(c, j)
  {
  }

  lemma MovedEnds(c: seq<Range>, i: nat)
    requires 0 < i < |c|
    ensures |MovedToFront(c, i)| == |c| && Follower(MovedToFront(c, i), -1) == c[i]
  {
  }

  lemma MovedDistinct(c: seq<Range>, i: nat)
    requires i < |c| && forall j, k | 0 <= j < k < |c| :: c[j] != c[k]
    ensures var r := MovedToFront(c, i); forall j, k | 0 <= j < k < |r| :: r[j] != r[k]
  {
    var r := MovedToFront(c, i);
    forall j, k | 0 <= j < k < |r| ensures r[j] != r[k] {
      var a, b := if j == 0 then i else if j <= i then j - 1 else j, if k <= i then k - 1 else k;
      assert r[j] == c[a] && r[k] == c[b] && a != b;
      assert if a < b then c[a] != c[b] else c[b] != c[a];
    }
  }

  /** What find_next_closest_range keeps; the source leaves out the first candidate (`seeded` is false). */
  function Closer(closest: Range?, rover: Range, address: nat, seeded: bool): Range? {
    if rover.start <= address then closest
    else if closest == null then (if seeded then rover else null)
    else if closest.start - address > rover.start - address then rover
    else closest
  }

  function Slaves(nodes: set<Range>): set<Slave> {
    set r | r in nodes :: r.slave
  }

  /** Every range is as long as the container of its slave, as the second form of bind makes it. */
  ghost predicate Backed(nodes: set<Range>)
    reads Slaves(nodes)
  {
    forall r | r in nodes :: |r.slave.bytes| == r.end - r.start
  }

  /** No two ranges share a slave, whose socket is bound once. */
  ghost predicate Unshared(nodes: set<Range>) {
    forall r, s | r in nodes && s in nodes && r.slave == s.slave :: r == s
  }

  ghost predicate Mapped(nodes: set<Range>, a: int) {
    exists r :: r in nodes && r.Contains(a)
  }

  /** The memory map: the byte at each address that some range contains. */
  ghost function Image(nodes: set<Range>): imap<int, bv8>
    requires Backed(nodes)
    reads Slaves(nodes)
  {
    imap a: int | Mapped(nodes, a) :: ByteAt(nodes, a)
  }

  ghost function ByteAt(nodes: set<Range>, a: int): bv8
    requires Backed(nodes) && Mapped(nodes, a)
    reads Slaves(nodes)
  {
    var r :| r in nodes && r.Contains(a);
    r.slave.bytes[a - r.start]
  }

  lemma OnlyRange(nodes: set<Range>, r: Range, s: Range, a: int)
    requires Disjoint(nodes) && r in nodes && s in nodes && r.Contains(a) && s.Contains(a)
    ensures r == s
  {
  }

  lemma ImageAt(nodes: set<Range>, r: Range, a: int)
    requires Disjoint(nodes) && Backed(nodes) && r in nodes && r.Contains(a)
    ensures a in Image(nodes) && Image(nodes)[a] == r.slave.bytes[a - r.start]
  {
    var s :| s in nodes && s.Contains(a) && ByteAt(nodes, a) == s.slave.bytes[a - s.start];
    OnlyRange(nodes, r, s, a);
  }

  /** Does a debug transfer from `a` on deliver the byte at `x`?  Without a first candidate for the next
      range it stops at the first hole. */
  ghost predicate Reached(image: imap<int, bv8>, a: int, x: int, seeded: bool) {
    x in image && (seeded || Unbroken(image, a, x))
  }

  /** Is every address of a stretch mapped? */
  ghost predicate Unbroken(image: imap<int, bv8>, a: int, b: int) {
    forall y | a <= y < b :: y in image
  }

  /** The byte a debug read from `a` on gives for address `x`. */
  ghost function Delivered(image: imap<int, bv8>, a: int, x: int, seeded: bool): bv8 {
    if Reached(image, a, x, seeded) then image[x] else 0xFF
  }

  /** What a lookup gives: the range that contains the address, or nothing if none does. */
  ghost predicate Found(nodes: set<Range>, a: int, r: Range?) {
    if r == null then !Mapped(nodes, a) else r in nodes && r.Contains(a)
  }

  /** The decoding of a set of nodes, without the order they are chained in. */
  function Spans(nodes: set<Range>): set<(nat, nat, Slave)> {
    set r | r in nodes :: (r.start, r.end, r.slave)
  }

  /** A lookup depends on the ranges alone, never on the order that earlier lookups left. */
  lemma LookupDeterminate(nodes: set<Range>, nodes': set<Range>, a: int, r: Range?, r': Range?)
    requires Disjoint(nodes) && Disjoint(nodes') && Spans(nodes) == Spans(nodes')
    requires Found(nodes, a, r) && Found(nodes', a, r')
    ensures r == null <==> r' == null
    ensures r != null && r' != null ==> (r.start, r.end, r.slave) == (r'.start, r'.end, r'.slave)
  {
    MappedAlike(nodes, nodes', a);
    if r != null && r' != null {
      var s := SameSpan(nodes, nodes', r);
      OnlyRange(nodes', s, r', a);
    }
  }

  lemma SameSpan(nodes: set<Range>, nodes': set<Range>, r: Range) returns (s: Range)
    requires Spans(nodes) == Spans(nodes') && r in nodes
    ensures s in nodes' && (s.start, s.end, s.slave) == (r.start, r.end, r.slave)
  {
    assert (r.start, r.end, r.slave) in Spans(nodes');
    s :| s in nodes' && (s.start, s.end, s.slave) == (r.start, r.end, r.slave);
  }

  lemma MappedAlike(nodes: set<Range>, nodes': set<Range>, a: int)
    requires Spans(nodes) == Spans(nodes')
    ensures Mapped(nodes, a) <==> Mapped(nodes', a)
  {
    if r :| r in nodes && r.Contains(a) {
      var s := SameSpan(nodes, nodes', r);
      assert s.Contains(a);
    }
    if r :| r in nodes' && r.Contains(a) {
      var s := SameSpan(nodes', nodes, r);
      assert s.Contains(a);
    }
  }

  twostate lemma ImageKept(nodes: set<Range>)
    requires old(Backed(nodes)) && forall s | s in Slaves(nodes) :: s.bytes == old(s.bytes)
    ensures Backed(nodes) && Image(nodes) == old(Image(nodes))
  {
  }

  twostate lemma KeptBacked(nodes: set<Range>)
    requires old(Backed(nodes)) && forall s | s in Slaves(nodes) :: |s.bytes| == |old(s.bytes)|
    ensures Backed(nodes) && Image(nodes).Keys == old(Image(nodes)).Keys
  {
  }

  /** The spans of a chain with one more node at its head. */
  lemma SpansMore(chain: seq<Range>, rest: seq<Range>)
    requires |chain| > 0 && chain[1..] == rest
    ensures Nodes(chain) == Nodes(rest) + {chain[0]}
    ensures Spans(Nodes(chain)) == Spans(Nodes(rest)) + {(chain[0].start, chain[0].end, chain[0].slave)}
  {
    assert chain == [chain[0]] + rest;
    assert Nodes(chain) == Nodes(rest) + {chain[0]};
    var nodes := Nodes(rest);
    hide Nodes;
    assert Spans(nodes + {chain[0]}) == Spans(nodes) + {(chain[0].start, chain[0].end, chain[0].slave)};
  }

  lemma BackedMore(nodes: set<Range>, r: Range)
    requires Backed(nodes) && |r.slave.bytes| == r.end - r.start
    ensures Backed(nodes + {r})
  {
  }

  lemma ImagePoints(nodes: set<Range>)
    requires Disjoint(nodes) && Backed(nodes)
    ensures forall r, x | r in nodes && r.Contains(x) :: x in Image(nodes) && Image(nodes)[x] == r.slave.bytes[x - r.start]
  {
    forall r, x | r in nodes && r.Contains(x) ensures x in Image(nodes) && Image(nodes)[x] == r.slave.bytes[x - r.start] {
      ImageAt(nodes, r, x);
    }
  }

  lemma SlaveIn(nodes: set<Range>, r: Range)
    requires r in nodes
    ensures r.slave in Slaves(nodes)
  {
  }

  lemma BackedAt(nodes: set<Range>, r: Range)
    requires Backed(nodes) && r in nodes
    ensures |r.slave.bytes| == r.end - r.start
  {
  }

  lemma MappedThroughout(nodes: set<Range>, r: Range, a: int, n: nat)
    requires Backed(nodes) && r in nodes && r.Contains(a) && a + n <= r.end
    ensures Unbroken(Image(nodes), a, a + n)
  {
    forall y | a <= y < a + n ensures y in Image(nodes) { assert r.Contains(y); }
  }

  /** Bytes written to the slave of one range are written to the map. */
  lemma ImageWritten(nodes: set<Range>, image: imap<int, bv8>, range: Range, a: int, n: nat, data: seq<bv8>)
    requires Disjoint(nodes) && Backed(nodes) && range in nodes && range.Contains(a) && a + n <= range.end && |data| == n
    requires forall r, x | r in nodes && r.Contains(x) :: x in image
    requires forall r, x | r in nodes && r.Contains(x) ::
               r.slave.bytes[x - r.start] == if r == range && a <= x < a + n then data[x - a] else image[x]
    ensures forall x | x in Image(nodes) :: x in image && Image(nodes)[x] == if a <= x < a + n then data[x - a] else image[x]
  {
    hide Image, Disjoint, Backed;
    forall x | x in Image(nodes) ensures x in image && Image(nodes)[x] == if a <= x < a + n then data[x - a] else image[x] {
      var r := RangeAround(nodes, x);
      ImageAt(nodes, r, x);
      if a <= x < a + n { OnlyRange(nodes, r, range, x); }
    }
  }

  /** The containers of the slaves, at some moment. */
  ghost function Containers(nodes: set<Range>): map<Slave, seq<bv8>>
    reads Slaves(nodes)
  {
    map s | s in Slaves(nodes) :: s.bytes
  }

  /** Does a map show these containers? */
  ghost predicate Shows(image: imap<int, bv8>, nodes: set<Range>, was: map<Slave, seq<bv8>>) {
    forall r, x | r in nodes && r.Contains(x) ::
      x in image && r.slave in was && x - r.start < |was[r.slave]| && image[x] == was[r.slave][x - r.start]
  }

  lemma ImageShows(nodes: set<Range>)
    requires Disjoint(nodes) && Backed(nodes)
    ensures Shows(Image(nodes), nodes, Containers(nodes))
  {
    hide Image;
    ImagePoints(nodes);
  }

  lemma ContainerOf(nodes: set<Range>)
    ensures forall s | s in Slaves(nodes) :: s in Containers(nodes) && Containers(nodes)[s] == s.bytes
  {
  }

  /** No container has changed but that of one slave. */
  ghost predicate Untouched(nodes: set<Range>, was: map<Slave, seq<bv8>>, but: Slave)
    reads Slaves(nodes)
  {
    forall s | s in Slaves(nodes) && s != but :: s in was && s.bytes == was[s]
  }

  /** A map with bytes replaced from an address on. */
  ghost predicate Overlaid(image': imap<int, bv8>, image: imap<int, bv8>, a: int, data: seq<bv8>) {
    forall x | x in image' :: x in image && image'[x] == if a <= x < a + |data| then data[x - a] else image[x]
  }

  lemma StoredShows(nodes: set<Range>, was: map<Slave, seq<bv8>>, image: imap<int, bv8>, range: Range, a: int, data: seq<bv8>)
    requires Disjoint(nodes) && Backed(nodes) && Unshared(nodes) && Shows(image, nodes, was) && Untouched(nodes, was, range.slave)
    requires range in nodes && range.Contains(a) && a + |data| <= range.end && range.slave in was
    requires Stored(range.slave.bytes, was[range.slave], a - range.start, data)
    ensures Overlaid(Image(nodes), image, a, data)
  {
    hide Image, Disjoint;
    forall r, x | r in nodes && r.Contains(x)
      ensures x in image
      ensures r.slave.bytes[x - r.start] == if r == range && a <= x < a + |data| then data[x - a] else image[x]
    {
      if r == range {
        assert image[x] == was[range.slave][x - range.start];
      } else {
        assert r.slave in Slaves(nodes) && r.slave != range.slave;
      }
    }
    ImageWritten(nodes, image, range, a, |data|, data);
  }

  lemma RangeAround(nodes: set<Range>, x: int) returns (r: Range)
    requires Backed(nodes) && x in Image(nodes)
    ensures r in nodes && r.Contains(x)
  {
    r :| r in nodes && r.Contains(x);
  }

  /** The unseeded search loses exactly the bytes, other than 0xFF, that follow a hole. */
  lemma SeedingMatters(image: imap<int, bv8>, a: int, n: int)
    ensures (forall x | a <= x < a + n :: Delivered(image, a, x, false) == Delivered(image, a, x, true)) <==>
            (forall x, y | a <= y < x < a + n && y !in image && x in image :: image[x] == 0xFF)
  {
    if forall x | a <= x < a + n :: Delivered(image, a, x, false) == Delivered(image, a, x, true) {
      forall x, y | a <= y < x < a + n && y !in image && x in image ensures image[x] == 0xFF {
        assert Delivered(image, a, x, false) == Delivered(image, a, x, true);
      }
    }
    if forall x, y | a <= y < x < a + n && y !in image && x in image :: image[x] == 0xFF {
      forall x | a <= x < a + n ensures Delivered(image, a, x, false) == Delivered(image, a, x, true) {
        if x in image && !Reached(image, a, x, false) {
          var y :| a <= y < x && y !in image;
        }
      }
    }
  }

  /** Everything in a stretch of mapped addresses is reached, if the unseeded search met no hole before. */
  lemma InRange(image: imap<int, bv8>, first: int, a: int, n: int, seeded: bool)
    requires Unbroken(image, a, a + n) && (!seeded ==> Unbroken(image, first, a))
    ensures ReachedAll(image, first, a, n, seeded)
  {
  }

  /** Nothing in a stretch that begins in a hole is reached. */
  lemma InHole(image: imap<int, bv8>, first: int, a: int, n: int, seeded: bool)
    requires first <= a && a !in image && (seeded ==> forall y | a <= y < a + n :: y !in image)
    ensures ReachedNone(image, first, a, n, seeded)
  {
  }

  lemma ImageKeys(nodes: set<Range>)
    requires Backed(nodes)
    ensures forall x: int :: x in Image(nodes) <==> Mapped(nodes, x)
  {
    hide Mapped;
  }

  /** A debug read of positions `p` to `q - 1` of a buffer, where position `k` is address `k + shift`: bytes of the
      map where the transfer reaches it, 0xFF elsewhere. */
  ghost predicate ReadOver(b': seq<bv8>, b: seq<bv8>, image: imap<int, bv8>, first: int, shift: int, p: int, q: int, seeded: bool) {
    |b'| == |b| && forall k | 0 <= k < |b| :: b'[k] == if p <= k < q then Delivered(image, first, k + shift, seeded) else b[k]
  }

  /** A debug write of the positions: the map takes the bytes it is reached by; the others are lost, and the
      initiator's own buffer gets 0xFF in their place. */
  ghost predicate WrittenOver(b': seq<bv8>, image': imap<int, bv8>, b: seq<bv8>, image: imap<int, bv8>, first: int, shift: int,
                              p: int, q: int, seeded: bool)
    requires 0 <= p <= q <= |b|
  {
    && |b'| == |b| && image'.Keys == image.Keys
    && (forall k | 0 <= k < |b| :: b'[k] == if p <= k < q && !Reached(image, first, k + shift, seeded) then 0xFF else b[k])
    && (forall x | x in image && x in image' ::
          image'[x] == if p <= x - shift < q && Reached(image, first, x, seeded) then b[x - shift] else image[x])
  }

  /** A write with the unseeded search leaves the map that the seeded search leaves exactly if every mapped byte
      behind a hole held the byte to be written, and the same buffer exactly if those bytes to be written were 0xFF. */
  lemma SeedingMattersInWrites(b': seq<bv8>, image': imap<int, bv8>, b'': seq<bv8>, image'': imap<int, bv8>,
                               b: seq<bv8>, image: imap<int, bv8>, shift: int, p: int, q: int)
    requires 0 <= p <= q <= |b|
    requires WrittenOver(b', image', b, image, p + shift, shift, p, q, false)
    requires WrittenOver(b'', image'', b, image, p + shift, shift, p, q, true)
    ensures image' == image'' <==>
            (forall x, y | p + shift <= y < x < q + shift && y !in image && x in image :: image[x] == b[x - shift])
    ensures b' == b'' <==>
            (forall x, y | p + shift <= y < x < q + shift && y !in image && x in image :: b[x - shift] == 0xFF)
  {
    var first := p + shift;
    forall x, y | first <= y < x < q + shift && y !in image && x in image
      ensures image'[x] == image[x] && image''[x] == b[x - shift]
      ensures b'[x - shift] == 0xFF && b''[x - shift] == b[x - shift]
    {
      assert !Reached(image, first, x, false) && Reached(image, first, x, true);
    }
    forall x | x in image && !(first <= x < q + shift && exists y :: first <= y < x && y !in image)
      ensures image'[x] == image''[x]
    {
      assert first <= x < q + shift ==> Reached(image, first, x, false) && Reached(image, first, x, true);
    }
    forall k | 0 <= k < |b| && !(p <= k < q && k + shift in image && exists y :: first <= y < k + shift && y !in image)
      ensures b'[k] == b''[k]
    {
      assert p <= k < q ==> Reached(image, first, k + shift, false) == Reached(image, first, k + shift, true);
    }
  }

  ghost predicate Moved(command: Command, b': seq<bv8>, image': imap<int, bv8>, b: seq<bv8>, image: imap<int, bv8>,
                        first: int, shift: int, p: int, q: int, seeded: bool)
    requires 0 <= p <= q <= |b|
  {
    match command
    case ReadCommand => image' == image && ReadOver(b', b, image, first, shift, p, q, seeded)
    case WriteCommand => WrittenOver(b', image', b, image, first, shift, p, q, seeded)
  }

  ghost predicate ReachedAll(image: imap<int, bv8>, first: int, a: int, n: int, seeded: bool) {
    forall x | a <= x < a + n :: Reached(image, first, x, seeded)
  }

  /** Does a map show these bytes from an address on? */
  ghost predicate Holds(image: imap<int, bv8>, a: int, data: seq<bv8>) {
    forall x | a <= x < a + |data| :: x in image && image[x] == data[x - a]
  }

  lemma ImageHolds(nodes: set<Range>, range: Range, a: int, n: nat)
    requires Disjoint(nodes) && Backed(nodes) && range in nodes && range.Contains(a) && a + n <= range.end
    ensures Holds(Image(nodes), a, range.slave.bytes[a - range.start..a - range.start + n])
  {
    hide Image, Disjoint;
    forall x | a <= x < a + n
      ensures x in Image(nodes) && Image(nodes)[x] == range.slave.bytes[a - range.start..a - range.start + n][x - a]
    {
      ImageAt(nodes, range, x);
    }
  }

  lemma RangeRead(b': seq<bv8>, b: seq<bv8>, image: imap<int, bv8>, first: int, shift: int, p: nat, data: seq<bv8>, seeded: bool)
    requires p + |data| <= |b| && Stored(b', b, p, data)
    requires Holds(image, p + shift, data) && ReachedAll(image, first, p + shift, |data|, seeded)
    ensures Moved(ReadCommand, b', image, b, image, first, shift, p, p + |data|, seeded)
  {
    hide Reached;
  }

  lemma RangeWritten(b: seq<bv8>, image': imap<int, bv8>, image: imap<int, bv8>, first: int, shift: int, p: nat, q: nat, seeded: bool)
    requires p <= q <= |b| && image'.Keys == image.Keys && Overlaid(image', image, p + shift, b[p..q])
    requires ReachedAll(image, first, p + shift, q - p, seeded)
    ensures Moved(WriteCommand, b, image', b, image, first, shift, p, q, seeded)
  {
    hide Reached;
    forall x | x in image && x in image' && p <= x - shift < q ensures image'[x] == b[x - shift] {
      assert b[p..q][x - shift - p] == b[x - shift];
    }
  }

  ghost predicate ReachedNone(image: imap<int, bv8>, first: int, a: int, n: int, seeded: bool) {
    forall x | a <= x < a + n :: !Reached(image, first, x, seeded)
  }

  ghost predicate Filled(b': seq<bv8>, b: seq<bv8>, p: int, q: int) {
    |b'| == |b| && forall k | 0 <= k < |b| :: b'[k] == if p <= k < q then 0xFF else b[k]
  }

  lemma FilledOne(b': seq<bv8>, b: seq<bv8>, p: nat, q: nat)
    requires p <= q < |b'| && Filled(b', b, p, q)
    ensures Filled(b'[q := 0xFF], b, p, q + 1)
  {
  }

  lemma HoleMoved(command: Command, b': seq<bv8>, b: seq<bv8>, image: imap<int, bv8>, first: int, shift: int, p: nat, q: nat, seeded: bool)
    requires p <= q <= |b| && Filled(b', b, p, q) && ReachedNone(image, first, p + shift, q - p, seeded)
    ensures Moved(command, b', image, b, image, first, shift, p, q, seeded)
  {
    hide Reached;
  }

  lemma NothingYet(command: Command, b: seq<bv8>, image: imap<int, bv8>, first: int, shift: int, p: nat, seeded: bool)
    requires p <= |b|
    ensures Moved(command, b, image, b, image, first, shift, p, p, seeded)
  {
  }

  /** What is reached depends on the mapped addresses alone. */
  lemma SameReach(image: imap<int, bv8>, image': imap<int, bv8>, a: int, x: int, seeded: bool)
    requires image.Keys == image'.Keys
    ensures Reached(image, a, x, seeded) == Reached(image', a, x, seeded)
  {
    assert forall y :: y in image <==> y in image';
  }

  lemma MovedUnbroken(command: Command, b': seq<bv8>, image': imap<int, bv8>, b: seq<bv8>, image: imap<int, bv8>,
                      first: int, shift: int, p: int, q: int, seeded: bool, a: int, n: int)
    requires 0 <= p <= q <= |b| && Moved(command, b', image', b, image, first, shift, p, q, seeded)
    requires first <= a && Unbroken(image, first, a) && Unbroken(image', a, a + n)
    ensures Unbroken(image', first, a + n)
  {
    assert image'.Keys == image.Keys;
    assert forall y :: y in image <==> y in image';
  }

  /** Two adjacent stretches are one; both are seen from the same first address. */
  lemma MovedOn(command: Command, b'': seq<bv8>, image'': imap<int, bv8>, b': seq<bv8>, image': imap<int, bv8>,
                b: seq<bv8>, image: imap<int, bv8>, first: int, shift: int, p: int, q: int, r: int, seeded: bool)
    requires 0 <= p <= q <= r <= |b| == |b'|
    requires Moved(command, b', image', b, image, first, shift, p, q, seeded)
    requires Moved(command, b'', image'', b', image', first, shift, q, r, seeded)
    ensures Moved(command, b'', image'', b, image, first, shift, p, r, seeded)
  {
    forall x ensures image.Keys == image'.Keys ==> Reached(image, first, x, seeded) == Reached(image', first, x, seeded) {
      if image.Keys == image'.Keys { SameReach(image, image', first, x, seeded); }
    }
    hide Delivered, Reached;
  }

  class AddrDec {
    const mask: nat
    var head: Range?
    var numSlaves: nat
    /** The nodes of the chain, in order. */
    ghost var chain: seq<Range>

    ghost predicate Valid()
      reads this, chain
    {
      numSlaves == |chain| && Linked(head, chain) && Disjoint(Nodes(chain))
    }

    constructor (mask: nat)
      ensures Valid() && this.mask == mask && chain == []
    {
      this.mask := mask;
      head, numSlaves, chain := null, 0, [];
    }

    /** Is no range of the decoder in the way of a new one? */
    ghost predicate Free(start: nat, end: nat)
      reads this
    {
      forall r | r in chain :: !Overlap(start, end, r.start, r.end)
    }

    /** What the assertions of check_range demand. */
    predicate Acceptable(start: nat, end: nat) {
      start % 4 == 0 && end % 4 == 0 && start < end && Bits.And(start, mask) == start && Bits.And(end, mask) == end
    }

    /** check_range */
    method CheckRange(start: nat, end: nat) returns (error: bool)
      requires Valid() && Acceptable(start, end)
      ensures error == !Free(start, end)
    {
      var rover := head;
      ghost var i := 0;
      while rover != null
        invariant 0 <= i <= |chain| && rover == Follower(chain, i - 1)
        invariant forall r | r in chain[..i] :: !Overlap(start, end, r.start, r.end)
        decreases |chain| - i
      {
        assert chain[i] in chain;
        if start < rover.start {
          if end > rover.start {
            return true;
          }
        } else {
          if start < rover.end {
            return true;
          }
        }
        rover := rover.next;
        i := i + 1;
      }
      return false;
    }

    /** bind: refuses exactly the ranges that meet an existing one. */
    method Bind(slave: Slave, start: nat, end: nat) returns (error: bool)
      requires Valid() && Acceptable(start, end)
      modifies this
      ensures Valid() && error == !old(Free(start, end))
      ensures if error then chain == old(chain)
              else |chain| == old(|chain|) + 1 && chain[1..] == old(chain) && fresh(chain[0])
                   && chain[0].start == start && chain[0].end == end && chain[0].slave == slave
    {
      error := CheckRange(start, end);
      if error {
        return;
      }
      var newRange := new Range(start, end, slave, head);
      numSlaves := numSlaves + 1;
      head := newRange;
      chain := [newRange] + chain;
    }

    /** The form of bind that takes the size of the range from the slave. */
    method BindWhole(slave: Slave, start: nat) returns (error: bool)
      requires Valid() && Acceptable(start, start + |slave.bytes|) && Backed(Nodes(chain))
      modifies this
      ensures Valid() && error == !old(Free(start, start + |slave.bytes|)) && Backed(Nodes(chain))
      ensures Spans(Nodes(chain)) == old(Spans(Nodes(chain))) + if error then {} else {(start, start + |slave.bytes|, slave)}
      ensures fresh(Nodes(chain) - old(Nodes(chain)))
    {
      hide Valid, Acceptable, Free, Linked, Disjoint, Spans, Backed;
      ghost var before := chain;
      error := Bind(slave, start, start + |slave.bytes|);
      KeptBacked(Nodes(before));
      if !error {
        SpansMore(chain, before);
        BackedMore(Nodes(before), chain[0]);
      }
    }

    /** Unlink the `i`th node and put it in front. */
    method Promote(rover: Range, prev: Range, ghost i: nat)
      requires Valid() && 0 < i < |chain| && rover == chain[i] && prev == chain[i - 1]
      modifies this`head, this`chain, rover`next, prev`next
      ensures Valid() && chain == MovedToFront(old(chain), i) && Nodes(chain) == old(Nodes(chain))
    {
      hide Disjoint, Nodes, MovedToFront, Follower;
      ghost var c, r := chain, MovedToFront(chain, i);
      MovedNodes(c, i);
      MovedDistinct(c, i);
      MovedEnds(c, i);
      prev.next := rover.next;
      rover.next := head;
      head := rover;
      chain := r;
      forall j | 0 <= j < |r| ensures r[j].next == Follower(r, j) {
        MovedAt(c, i, j);
        if j == 0 {
          assert r[0] == rover;
        } else if j < i {
          assert c[j - 1] != c[i - 1] && c[j - 1] != c[i];
        } else if j == i {
          assert r[i] == prev && c[i - 1] != c[i];
        } else {
          assert c[i - 1] != c[j] && c[i] != c[j];
        }
      }
    }

    /** find_range: the range that contains an address, which becomes the head of the chain. */
    method FindRange(address: nat) returns (r: Range?)
      requires Valid()
      modifies this`head, this`chain, Nodes(chain)
      ensures Valid() && Nodes(chain) == old(Nodes(chain))
      ensures Found(Nodes(chain), address, r)
      ensures if r == null then chain == old(chain) else Promoted(old(chain), chain, r)
    {
      var rover, prev: Range? := head, null;
      ghost var i := 0;
      while rover != null
        invariant 0 <= i <= |chain| && rover == Follower(chain, i - 1)
        invariant prev == if i == 0 then null else chain[i - 1]
        invariant forall s | s in chain[..i] :: !s.Contains(address)
        decreases |chain| - i
      {
        if rover.Contains(address) {
          assert i == 0 ==> chain == MovedToFront(chain, i);
          if prev != null {
            assert chain[i] in Nodes(chain) && chain[i - 1] in Nodes(chain);
            Promote(rover, prev, i);
          }
          return rover;
        }
        prev := rover;
        rover := rover.next;
        i := i + 1;
      }
      return null;
    }

    /** find_next_closest_range.  As it stands it never finds anything; seeded with a first candidate, it
        finds the first range above the address. */
    method FindNextClosest(address: nat, seeded: bool) returns (closest: Range?)
      requires Valid()
      ensures !seeded ==> closest == null
      ensures seeded && closest == null ==> forall r | r in chain :: r.start <= address
      ensures closest != null ==> closest in chain && address < closest.start
      ensures closest != null ==> forall r | r in chain && address < r.start :: closest.start <= r.start
    {
      var rover := head;
      closest := null;
      ghost var i := 0;
      while rover != null
        invariant 0 <= i <= |chain| && rover == Follower(chain, i - 1)
        invariant !seeded ==> closest == null
        invariant seeded && closest == null ==> forall r | r in chain[..i] :: r.start <= address
        invariant closest != null ==> closest in chain && address < closest.start
        invariant closest != null ==> forall r | r in chain[..i] && address < r.start :: closest.start <= r.start
        decreases |chain| - i
      {
        closest := Closer(closest, rover, address, seeded);
        rover := rover.next;
        i := i + 1;
      }
    }

    /** One round of the transfer, inside a range: forward it to the slave. */
    method Forward(trans: Payload, r: Range, a: nat, len: nat, p: nat) returns (n: nat)
      requires r.Contains(a) && |r.slave.bytes| == r.end - r.start
      requires 0 < len && p + len <= trans.buffer.Length
      modifies trans, trans.buffer, if trans.command.WriteCommand? then {r.slave} else {}
      ensures n == if a + len <= r.end then len else r.end - a
      ensures |r.slave.bytes| == r.end - r.start
      ensures trans.command.ReadCommand? ==>
                Stored(trans.buffer[..], old(trans.buffer[..]), p, r.slave.bytes[a - r.start..a - r.start + n])
      ensures trans.command.WriteCommand? ==>
                trans.buffer[..] == old(trans.buffer[..])
                && Stored(r.slave.bytes, old(r.slave.bytes), a - r.start, trans.buffer[p..p + n])
    {
      trans.address := a - r.start;
      trans.length := len;
      trans.ptr := p;
      n := r.slave.TransportDbg(trans);
      assert trans.command.WriteCommand? ==> |r.slave.bytes| == |old(r.slave.bytes)|;
    }

    /** One round of the transfer, in a hole: fill with 0xFF up to the next range, or to the end. */
    method FillHole(trans: Payload, a: nat, len: nat, p: nat, seeded: bool) returns (n: nat)
      requires Valid() && !Mapped(Nodes(chain), a)
      requires 0 < len && p + len <= trans.buffer.Length
      modifies trans.buffer
      ensures 0 < n <= len && (!seeded ==> n == len)
      ensures forall x | a <= x < a + n :: seeded ==> !Mapped(Nodes(chain), x)
      ensures Filled(trans.buffer[..], old(trans.buffer[..]), p, p + n)
    {
      var closest := FindNextClosest(a, seeded);
      if closest == null {
        n := len;
      } else {
        n := if len < closest.start - a then len else closest.start - a;
      }
      ghost var b := trans.buffer[..];
      for i := 0 to n
        invariant Filled(trans.buffer[..], b, p, p + i)
      {
        FilledOne(trans.buffer[..], b, p, p + i);
        trans.buffer[p + i] := 0xFF;
      }
    }

    /** The slaves that a transfer may change. */
    ghost function Targets(command: Command): set<Slave>
      reads this
    {
      if command.WriteCommand? then Slaves(Nodes(chain)) else {}
    }

    lemma NodesApart()
      requires Valid()
      ensures Disjoint(Nodes(chain))
    {
      hide Disjoint, Nodes;
    }

    /** A round that finds a range. */
    method DeliverRange(trans: Payload, range: Range, first: nat, a: nat, len: nat, p: nat, seeded: bool) returns (n: nat)
      requires Valid() && Backed(Nodes(chain)) && (trans.command.WriteCommand? ==> Unshared(Nodes(chain)))
      requires range in Nodes(chain) && range.Contains(a) && 0 < len && p + len <= trans.buffer.Length
      requires !seeded ==> Unbroken(Image(Nodes(chain)), first, a)
      modifies trans, trans.buffer, Targets(trans.command)
      ensures Valid() && Backed(Nodes(chain)) && 0 < n <= len
      ensures Unbroken(Image(Nodes(chain)), a, a + n)
      ensures Moved(trans.command, trans.buffer[..], Image(Nodes(chain)), old(trans.buffer[..]), old(Image(Nodes(chain))),
                    first, a - p, p, p + n, seeded)
    {
      hide Linked, Mapped, Moved, Reached, Image, Disjoint;
      if trans.command.ReadCommand? {
        n := ReadRange(trans, range, first, a, len, p, seeded);
      } else {
        n := WriteRange(trans, range, first, a, len, p, seeded);
      }
    }

    method ReadRange(trans: Payload, range: Range, first: nat, a: nat, len: nat, p: nat, seeded: bool) returns (n: nat)
      requires Valid() && Backed(Nodes(chain)) && trans.command.ReadCommand?
      requires range in Nodes(chain) && range.Contains(a) && 0 < len && p + len <= trans.buffer.Length
      requires !seeded ==> Unbroken(Image(Nodes(chain)), first, a)
      modifies trans, trans.buffer
      ensures Valid() && Backed(Nodes(chain)) && 0 < n <= len
      ensures Unbroken(Image(Nodes(chain)), a, a + n)
      ensures Moved(ReadCommand, trans.buffer[..], Image(Nodes(chain)), old(trans.buffer[..]), old(Image(Nodes(chain))),
                    first, a - p, p, p + n, seeded)
    {
      hide Valid, Linked, Mapped, Moved, Reached, Image, Disjoint, Backed, Nodes, Stored, Holds, ReachedAll;
      ghost var nodes, image, b := Nodes(chain), Image(Nodes(chain)), trans.buffer[..];
      NodesApart();
      BackedAt(nodes, range);
      n := Forward(trans, range, a, len, p);
      ghost var data := range.slave.bytes[a - range.start..a - range.start + n];
      ImageKept(nodes);
      MappedThroughout(nodes, range, a, n);
      InRange(image, first, a, n, seeded);
      ImageHolds(nodes, range, a, n);
      RangeRead(trans.buffer[..], b, image, first, a - p, p, data, seeded);
    }

    method WriteRange(trans: Payload, range: Range, first: nat, a: nat, len: nat, p: nat, seeded: bool) returns (n: nat)
      requires Valid() && Backed(Nodes(chain)) && trans.command.WriteCommand? && Unshared(Nodes(chain))
      requires range in Nodes(chain) && range.Contains(a) && 0 < len && p + len <= trans.buffer.Length
      requires !seeded ==> Unbroken(Image(Nodes(chain)), first, a)
      modifies trans, trans.buffer, Slaves(Nodes(chain))
      ensures Valid() && Backed(Nodes(chain)) && 0 < n <= len
      ensures Unbroken(Image(Nodes(chain)), a, a + n)
      ensures Moved(WriteCommand, trans.buffer[..], Image(Nodes(chain)), old(trans.buffer[..]), old(Image(Nodes(chain))),
                    first, a - p, p, p + n, seeded)
    {
      hide Valid, Linked, Mapped, Moved, Reached, Image, Disjoint, Nodes, Backed, Unshared, Shows, Stored, Containers,
        Overlaid, ReachedAll;
      ghost var nodes, image, was, b := Nodes(chain), Image(Nodes(chain)), Containers(Nodes(chain)), trans.buffer[..];
      NodesApart();
      ImageShows(nodes);
      SlaveIn(nodes, range);
      ContainerOf(nodes);
      BackedAt(nodes, range);
      assert Disjoint(nodes);
      n := Forward(trans, range, a, len, p);
      KeptBacked(nodes);
      MappedThroughout(nodes, range, a, n);
      InRange(image, first, a, n, seeded);
      StoredShows(nodes, was, image, range, a, b[p..p + n]);
      RangeWritten(b, Image(nodes), image, first, a - p, p, p + n, seeded);
    }

    /** A round that finds none. */
    method DeliverHole(trans: Payload, first: nat, a: nat, len: nat, p: nat, seeded: bool) returns (n: nat)
      requires Valid() && Backed(Nodes(chain)) && !Mapped(Nodes(chain), a) && 0 < len && p + len <= trans.buffer.Length && first <= a
      modifies trans.buffer
      ensures Valid() && Backed(Nodes(chain)) && 0 < n <= len && (!seeded ==> n == len)
      ensures Moved(trans.command, trans.buffer[..], Image(Nodes(chain)), old(trans.buffer[..]), old(Image(Nodes(chain))),
                    first, a - p, p, p + n, seeded)
    {
      hide Valid, Linked, Disjoint, Mapped, Reached, Image, Moved, Backed, Nodes, Filled, ReachedNone;
      ghost var nodes, image, b := Nodes(chain), Image(Nodes(chain)), trans.buffer[..];
      ImageKeys(nodes);
      n := FillHole(trans, a, len, p, seeded);
      InHole(image, first, a, n, seeded);
      ImageKept(nodes);
      HoleMoved(trans.command, trans.buffer[..], b, image, first, a - p, p, p + n, seeded);
    }

    /** One round of the loop of slave_dbg_transport; `first` is the address the transfer began at. */
    method Round(trans: Payload, first: nat, a: nat, len: nat, p: nat, seeded: bool) returns (n: nat)
      requires Valid() && Backed(Nodes(chain)) && (trans.command.WriteCommand? ==> Unshared(Nodes(chain)))
      requires 0 < len && p + len <= trans.buffer.Length && first <= a
      requires !seeded ==> Unbroken(Image(Nodes(chain)), first, a)
      modifies this`head, this`chain, Nodes(chain), trans, trans.buffer, Targets(trans.command)
      ensures Valid() && Nodes(chain) == old(Nodes(chain)) && Backed(Nodes(chain)) && 0 < n <= len
      ensures !seeded && n < len ==> Unbroken(Image(Nodes(chain)), first, a + n)
      ensures Moved(trans.command, trans.buffer[..], Image(Nodes(chain)), old(trans.buffer[..]), old(Image(Nodes(chain))),
                    first, a - p, p, p + n, seeded)
    {
      hide Valid, Linked, Disjoint, Mapped, Image, Reached, Delivered, Moved, Unshared, Unbroken, Promoted;
      ghost var image, b := Image(Nodes(chain)), trans.buffer[..];
      var range := FindRange(a);
      ImageKept(Nodes(chain));
      if range != null {
        n := DeliverRange(trans, range, first, a, len, p, seeded);
        if !seeded {
          MovedUnbroken(trans.command, trans.buffer[..], Image(Nodes(chain)), b, image, first, a - p, p, p + n, seeded, a, n);
        }
      } else {
        n := DeliverHole(trans, first, a, len, p, seeded);
      }
    }

    /** slave_dbg_transport.  `seeded` is false in the source: bytes of the slaves are read or written up to the
        first address that no range contains, and 0xFF goes to the buffer from there on, in a write as well.  With a
        seeded search 0xFF would stand for the holes alone. */
    method DebugTransport(trans: Payload, seeded: bool) returns (n: nat)
      requires Valid() && Backed(Nodes(chain)) && (trans.command.WriteCommand? ==> Unshared(Nodes(chain)))
      requires trans.ptr + trans.length <= trans.buffer.Length
      modifies this`head, this`chain, Nodes(chain), trans, trans.buffer, Targets(trans.command)
      ensures Valid() && Nodes(chain) == old(Nodes(chain)) && Backed(Nodes(chain))
      ensures n == old(trans.length)
      ensures trans.address == old(trans.address) && trans.length == old(trans.length) && trans.ptr == old(trans.ptr)
      ensures var first := Bits.And(trans.address, mask);
              Moved(trans.command, trans.buffer[..], Image(Nodes(chain)), old(trans.buffer[..]), old(Image(Nodes(chain))),
                    first, first - trans.ptr, trans.ptr, trans.ptr + n, seeded)
    {
      hide Linked, Disjoint, Image, Backed, Moved;
      var initAddr, initLen, initPtr := trans.address, trans.length, trans.ptr;
      var first := Bits.And(initAddr, mask);
      var currAddr, currLen, currPtr := first, initLen, initPtr;
      ghost var image0, b0 := Image(Nodes(chain)), trans.buffer[..];
      ghost var shift := first as int - initPtr;
      NothingYet(trans.command, b0, image0, first, shift, initPtr, seeded);
      while currLen > 0
        invariant currLen <= initLen && currAddr == first + initLen - currLen && currPtr == initPtr + initLen - currLen
        invariant Valid() && Nodes(chain) == old(Nodes(chain)) && Backed(Nodes(chain))
        invariant currLen > 0 && !seeded ==> Unbroken(Image(Nodes(chain)), first, currAddr)
        invariant Moved(trans.command, trans.buffer[..], Image(Nodes(chain)), b0, image0, first, shift, initPtr, currPtr, seeded)
        decreases currLen
      {
        ghost var image, b := Image(Nodes(chain)), trans.buffer[..];
        var readLen := Round(trans, first, currAddr, currLen, currPtr, seeded);
        MovedOn(trans.command, trans.buffer[..], Image(Nodes(chain)), b, image, b0, image0,
                first, shift, initPtr, currPtr, currPtr + readLen, seeded);
        currLen := currLen - readLen;
        currPtr := currPtr + readLen;
        currAddr := currAddr + readLen;
      }
      label Done:
      trans.address := initAddr;
      trans.length := initLen;
      trans.ptr := initPtr;
      n := initLen;
      ImageKept@Done(Nodes(chain));
    }
  }

  lemma SpanPoint(nodes: set<Range>, s: Span, x: int)
    requires Disjoint(nodes) && Backed(nodes) && s in Spans(nodes) && s.0 <= x < s.1
    ensures |s.2.bytes| == s.1 - s.0 && x in Image(nodes) && Image(nodes)[x] == s.2.bytes[x - s.0]
  {
    var r :| r in nodes && (r.start, r.end, r.slave) == s;
    ImageAt(nodes, r, x);
  }

  lemma SpanAround(nodes: set<Range>, x: int) returns (s: Span)
    requires Backed(nodes) && x in Image(nodes)
    ensures s in Spans(nodes) && s.0 <= x < s.1
  {
    var r := RangeAround(nodes, x);
    s := (r.start, r.end, r.slave);
  }

  /** Two ranges with a hole between them. */
  lemma TwoRanges(nodes: set<Range>, low: Slave, high: Slave, x: int)
    requires Disjoint(nodes) && Backed(nodes) && Spans(nodes) == {(0, 4, low), (8, 12, high)} && 0 <= x < 12
    requires low.bytes == [1, 1, 1, 1] && high.bytes == [2, 2, 2, 2]
    ensures x in Image(nodes) <==> x < 4 || 8 <= x
    ensures x in Image(nodes) ==> Image(nodes)[x] == if x < 4 then 1 else 2
  {
    hide Image, Backed, Disjoint, Spans;
    if x < 4 {
      SpanPoint(nodes, (0, 4, low), x);
    } else if 8 <= x {
      SpanPoint(nodes, (8, 12, high), x);
    } else if x in Image(nodes) {
      var s := SpanAround(nodes, x);
    }
  }

  lemma MaskTwelve()
    ensures Bits.And(0, 12) == 0 && Bits.And(4, 12) == 4 && Bits.And(8, 12) == 8 && Bits.And(12, 12) == 12
  {
    assert Bits.And(1, 3) == 1 && Bits.And(2, 3) == 2 && Bits.And(3, 3) == 3;
    assert Bits.And(2, 6) == 2 && Bits.And(4, 6) == 4 && Bits.And(6, 6) == 6;
  }

  lemma AcceptsBoth(dec: AddrDec)
    requires dec.mask == 12
    ensures dec.Acceptable(0, 4) && dec.Acceptable(8, 12)
  {
    hide Bits.And;
    MaskTwelve();
  }

  method BindBoth(dec: AddrDec, low: Slave, high: Slave)
    requires dec.Valid() && dec.chain == [] && |low.bytes| == 4 && |high.bytes| == 4
    requires dec.Acceptable(0, 4) && dec.Acceptable(8, 12)
    modifies dec
    ensures dec.Valid() && Backed(Nodes(dec.chain)) && fresh(Nodes(dec.chain))
    ensures Spans(Nodes(dec.chain)) == {(0, 4, low), (8, 12, high)}
  {
    hide AddrDec.Acceptable, Linked, Disjoint;
    assert Spans(Nodes(dec.chain)) == {};
    var error := dec.BindWhole(low, 0);
    FreeSpans(Nodes(dec.chain), 8, 12);
    hide Spans, Backed;
    error := dec.BindWhole(high, 8);
  }

  method TwoSlaves() returns (dec: AddrDec, low: Slave, high: Slave)
    ensures fresh(dec) && fresh(low) && fresh(high) && fresh(Nodes(dec.chain)) && dec.mask == 12
    ensures dec.Valid() && Backed(Nodes(dec.chain)) && Spans(Nodes(dec.chain)) == {(0, 4, low), (8, 12, high)}
    ensures low.bytes == [1, 1, 1, 1] && high.bytes == [2, 2, 2, 2]
  {
    hide *;
    low := new Slave([1, 1, 1, 1]);
    high := new Slave([2, 2, 2, 2]);
    dec := new AddrDec(12);
    AcceptsBoth(dec);
    BindBoth(dec, low, high);
  }

  method ReadTwelve(dec: AddrDec, seeded: bool) returns (b: seq<bv8>)
    requires dec.Valid() && Backed(Nodes(dec.chain)) && Bits.And(0, dec.mask) == 0
    modifies dec, Nodes(dec.chain)
    ensures |b| == 12 && forall k | 0 <= k < 12 :: b[k] == Delivered(old(Image(Nodes(dec.chain))), 0, k, seeded)
  {
    hide Linked, Disjoint, Image, Backed, Delivered;
    var buffer := new bv8[12];
    var trans := new Payload(ReadCommand, buffer, 0, 12, 0);
    ImageKept(Nodes(dec.chain));
    var n := dec.DebugTransport(trans, seeded);
    b := buffer[..];
  }

  /** A failing read: as written, the transfer gives 0xFF for the second slave too. */
  method LostBytes(seeded: bool) returns (b: seq<bv8>)
    ensures b == [1, 1, 1, 1] + [0xFF, 0xFF, 0xFF, 0xFF] + if seeded then [2, 2, 2, 2] else [0xFF, 0xFF, 0xFF, 0xFF]
  {
    hide Linked, Image, Backed, Spans, Delivered, Bits.And;
    var dec, low, high := TwoSlaves();
    ghost var image := Image(Nodes(dec.chain));
    forall x | 0 <= x < 12
      ensures x in image <==> x < 4 || 8 <= x
      ensures x in image ==> image[x] == if x < 4 then 1 else 2
    {
      TwoRanges(Nodes(dec.chain), low, high, x);
    }
    hide Disjoint;
    MaskTwelve();
    b := ReadTwelve(dec, seeded);
    Delivers(b, image, seeded);
  }

  lemma Delivers(b: seq<bv8>, image: imap<int, bv8>, seeded: bool)
    requires |b| == 12 && forall k | 0 <= k < 12 :: b[k] == Delivered(image, 0, k, seeded)
    requires forall x | 0 <= x < 12 :: x in image <==> x < 4 || 8 <= x
    requires forall x | 0 <= x < 12 && x in image :: image[x] == if x < 4 then 1 else 2
    ensures b == [1, 1, 1, 1] + [0xFF, 0xFF, 0xFF, 0xFF] + if seeded then [2, 2, 2, 2] else [0xFF, 0xFF, 0xFF, 0xFF]
  {
    forall k | 0 <= k < 12 ensures b[k] == if k < 4 then 1 else if 8 <= k && seeded then 2 else 0xFF {
      if 8 <= k { assert 4 !in image; }
    }
  }

  type Span = (nat, nat, Slave)

  /** What is asked of a decoder: to bind a range, or to look an address up. */
  datatype Op = BindOp(slave: Slave, start: nat, end: nat) | FindOp(address: nat)

  datatype Answer = Bound(error: bool) | Hit(span: Option<Span>)

  ghost predicate FreeIn(spans: set<Span>, start: nat, end: nat) {
    forall s | s in spans :: !Overlap(start, end, s.0, s.1)
  }

  /** The ranges bound after a sequence: lookups do not matter, and a range is refused exactly if it meets
      one that was bound before. */
  ghost function AllBound(spans: set<Span>, ops: seq<Op>): set<Span> {
    if ops == [] then spans
    else
      var before := AllBound(spans, ops[..|ops| - 1]);
      match ops[|ops| - 1]
      case BindOp(slave, start, end) => if FreeIn(before, start, end) then before + {(start, end, slave)} else before
      case FindOp(_) => before
  }

  /** The answer to an operation, given the ranges bound before it. */
  ghost predicate Answers(spans: set<Span>, op: Op, answer: Answer) {
    match op
    case BindOp(_, start, end) => answer == Bound(!FreeIn(spans, start, end))
    case FindOp(a) =>
      && answer.Hit?
      && match answer.span
         case None => forall s | s in spans :: !(s.0 <= a < s.1)
         case Some(s) => s in spans && s.0 <= a < s.1
  }

  lemma FreeSpans(nodes: set<Range>, start: nat, end: nat)
    ensures FreeIn(Spans(nodes), start, end) <==> forall r | r in nodes :: !Overlap(start, end, r.start, r.end)
  {
    forall r | r in nodes ensures (r.start, r.end, r.slave) in Spans(nodes) {}
  }

  lemma FreeNodes(dec: AddrDec, start: nat, end: nat)
    ensures FreeIn(Spans(Nodes(dec.chain)), start, end) <==> dec.Free(start, end)
  {
    hide FreeIn, Spans;
    FreeSpans(Nodes(dec.chain), start, end);
  }

  lemma FoundSpan(nodes: set<Range>, a: nat, r: Range?)
    requires Found(nodes, a, r)
    ensures Answers(Spans(nodes), FindOp(a), Hit(if r == null then None else Some((r.start, r.end, r.slave))))
  {
    if r == null {
      forall s | s in Spans(nodes) ensures !(s.0 <= a < s.1) {
        var t :| t in nodes && (t.start, t.end, t.slave) == s;
        assert !t.Contains(a);
      }
    }
  }

  method Step(dec: AddrDec, op: Op) returns (answer: Answer)
    requires dec.Valid() && (op.BindOp? ==> dec.Acceptable(op.start, op.end))
    modifies dec, Nodes(dec.chain)
    ensures dec.Valid() && Answers(old(Spans(Nodes(dec.chain))), op, answer)
    ensures forall r | r in dec.chain :: r in old(Nodes(dec.chain)) || fresh(r)
    ensures Spans(Nodes(dec.chain)) == AllBound(old(Spans(Nodes(dec.chain))), [op])
  {
    hide AddrDec.Valid, AddrDec.Acceptable, AddrDec.Free, Linked, Disjoint, Spans, AllBound, FreeIn, Found, Promoted;
    ghost var chain, nodes := dec.chain, Nodes(dec.chain);
    OneBound(Spans(nodes), op);
    match op {
      case BindOp(slave, start, end) =>
        FreeNodes(dec, start, end);
        var error := dec.Bind(slave, start, end);
        if !error { SpansMore(dec.chain, chain); }
        answer := Bound(error);
      case FindOp(address) =>
        var r := dec.FindRange(address);
        FoundSpan(nodes, address, r);
        answer := Hit(if r == null then None else Some((r.start, r.end, r.slave)));
    }
  }

  lemma OneBound(spans: set<Span>, op: Op)
    ensures AllBound(spans, [op]) ==
            if op.BindOp? && FreeIn(spans, op.start, op.end) then spans + {(op.start, op.end, op.slave)} else spans
  {
    assert [op][..0] == [];
    assert AllBound(spans, [op][..0]) == spans;
    hide FreeIn;
  }

  lemma BoundOn(spans: set<Span>, ops: seq<Op>, i: nat)
    requires i < |ops|
    ensures AllBound(spans, ops[..i + 1]) == AllBound(AllBound(spans, ops[..i]), [ops[i]])
  {
    assert ops[..i + 1][..i] == ops[..i];
    assert [ops[i]][..0] == [];
  }

  /** After any sequence of bindings and lookups the chain holds the accepted ranges, each once and apart,
      and every answer is decided by the ranges accepted before, whatever the lookups did to their order. */
  method Run(dec: AddrDec, ops: seq<Op>) returns (answers: seq<Answer>)
    requires dec.Valid() && forall i | 0 <= i < |ops| && ops[i].BindOp? :: dec.Acceptable(ops[i].start, ops[i].end)
    modifies dec, Nodes(dec.chain)
    ensures dec.Valid() && Spans(Nodes(dec.chain)) == AllBound(old(Spans(Nodes(dec.chain))), ops)
    ensures |answers| == |ops|
    ensures forall i | 0 <= i < |ops| :: Answers(AllBound(old(Spans(Nodes(dec.chain))), ops[..i]), ops[i], answers[i])
  {
    hide Linked, Disjoint, AllBound, Answers;
    ghost var spans := Spans(Nodes(dec.chain));
    answers := [];
    NoneBound(spans);
    for i := 0 to |ops|
      invariant dec.Valid() && |answers| == i && Spans(Nodes(dec.chain)) == AllBound(spans, ops[..i])
      invariant forall r | r in dec.chain :: r in old(Nodes(dec.chain)) || fresh(r)
      invariant forall j | 0 <= j < i :: Answers(AllBound(spans, ops[..j]), ops[j], answers[j])
    {
      BoundOn(spans, ops, i);
      var answer := Step(dec, ops[i]);
      answers := answers + [answer];
    }
    assert ops[..|ops|] == ops;
  }

  lemma NoneBound(spans: set<Span>)
    ensures AllBound(spans, []) == spans
  {
  }
}
