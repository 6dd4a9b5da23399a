/** The call graph of a profile (pstatsloader.py): rows linked to callers and callees, and the depth-first
    search that lists everything below or above a row. */
module CallGraph {
  /** A finite graph: the successors of each node. */
  type Graph<!T(==)> = map<T, seq<T>>

  predicate Closed<T>(g: Graph<T>) {
    forall n, c | n in g && c in g[n] :: c in g
  }

  /** Is `b` reached from `a` in `k` steps? */
  ghost predicate ReachesIn<T>(g: Graph<T>, a: T, b: T, k: nat)
    decreases k
  {
    && a in g && k > 0
    && if k == 1 then b in g[a] else exists c | c in g[a] :: ReachesIn(g, c, b, k - 1)
  }

  /** In one or more steps? */
  ghost predicate Reaches<T>(g: Graph<T>, a: T, b: T) {
    exists k: nat :: ReachesIn(g, a, b, k)
  }

  /** A set that holds the successors of `a` and of its own members holds all that `a` reaches. */
  lemma {:induction false} ClosedSetCatches<T>(g: Graph<T>, s: set<T>, a: T, b: T, k: nat)
    requires ReachesIn(g, a, b, k)
    requires forall c | c in g[a] :: c in s
    requires forall n, c | n in s && n in g && c in g[n] :: c in s
    ensures b in s
    decreases k
  {
    if k > 1 {
      var c :| c in g[a] && ReachesIn(g, c, b, k - 1);
      ClosedSetCatches(g, s, c, b, k - 1);
    }
  }

  lemma StepFirst<T>(g: Graph<T>, a: T, b: T, c: T)
    requires a in g && b in g[a] && Reaches(g, b, c)
    ensures Reaches(g, a, c)
  {
    var k: nat :| ReachesIn(g, b, c, k);
    assert ReachesIn(g, a, c, k + 1);
  }

  lemma {:induction false} StepLast<T>(g: Graph<T>, a: T, b: T, c: T, k: nat)
    requires ReachesIn(g, a, b, k) && b in g && c in g[b]
    ensures ReachesIn(g, a, c, k + 1)
    decreases k
  {
    if k > 1 {
      var d :| d in g[a] && ReachesIn(g, d, b, k - 1);
      StepLast(g, d, b, c, k - 1);
    } else {
      assert ReachesIn(g, b, c, 1);
    }
  }

  predicate Inverse<T(==)>(g: Graph<T>, h: Graph<T>) {
    && g.Keys == h.Keys
    && forall a, b | a in g && b in g :: b in g[a] <==> a in h[b]
  }

  lemma {:induction false} ReachesBack<T>(g: Graph<T>, h: Graph<T>, a: T, b: T, k: nat)
    requires Closed(g) && Inverse(g, h) && ReachesIn(g, a, b, k)
    ensures ReachesIn(h, b, a, k)
    decreases k
  {
    if k > 1 {
      var c :| c in g[a] && ReachesIn(g, c, b, k - 1);
      ReachesBack(g, h, c, b, k - 1);
      StepLast(h, b, c, a, k - 1);
    }
  }

  /** `b` is below `a` exactly if `a` is above `b`. */
  lemma Duality<T>(g: Graph<T>, h: Graph<T>, a: T, b: T)
    requires Closed(g) && Closed(h) && Inverse(g, h)
    ensures Reaches(g, a, b) <==> Reaches(h, b, a)
  {
    if k: nat :| ReachesIn(g, a, b, k) {
      ReachesBack(g, h, a, b, k);
    }
    if k: nat :| ReachesIn(h, b, a, k) {
      ReachesBack(h, g, b, a, k);
    }
  }

  datatype Attribute = Children | Parents

  type Key = string

  /** The table `already_done`. */
  class Table {
    var done: set<Row>

    constructor ()
      ensures done == {}
    {
      done := {};
    }
  }

  predicate Distinct<T(==)>(s: seq<T>) {
    forall i, j | 0 <= i < j < |s| :: s[i] != s[j]
  }

  type Keys = keys: seq<Key> | Distinct(keys) witness []

  /** The table of rows holds each row of `nodes` under its key. */
  ghost predicate KeyedBy(rows: map<Key, Row>, nodes: set<Row>) {
    && (forall r | r in nodes :: r.key in rows && rows[r.key] == r)
    && (forall k | k in rows :: rows[k] in nodes && rows[k].key == k)
  }

  /** The graph that one of the two link lists of the rows forms. */
  ghost function GraphOf(nodes: set<Row>, attribute: Attribute): Graph<Row>
    reads nodes
  {
    map r | r in nodes :: r.Links(attribute)
  }

  /** In the graph of children, the rows of `done` are below all their callers, once, and no other row is. */
  ghost predicate Below(nodes: set<Row>, done: set<Row>, g: Graph<Row>) {
    && g.Keys == nodes
    && (forall a, b | a in nodes && b in nodes :: b in g[a] <==> b in done && a.key in b.callers)
    && (forall a, b | a in nodes && b in g[a] :: b in nodes)
    && (forall a | a in nodes :: Distinct(g[a]))
  }

  /** And in the graph of parents, the callers are above them. */
  ghost predicate Above(nodes: set<Row>, done: set<Row>, h: Graph<Row>) {
    && h.Keys == nodes
    && (forall a, b | a in nodes && b in nodes :: a in h[b] <==> b in done && a.key in b.callers)
    && (forall b, a | b in nodes && a in h[b] :: a in nodes)
    && (forall b | b in nodes :: Distinct(h[b]))
  }

  /** The rows of `done` are linked with all their callers, in both directions and each once, and nothing else is
      linked. */
  ghost predicate Woven(nodes: set<Row>, done: set<Row>)
    reads nodes
  {
    Below(nodes, done, GraphOf(nodes, Children)) && Above(nodes, done, GraphOf(nodes, Parents))
  }

  function Members<T(==)>(s: seq<T>): set<T> {
    set x | x in s
  }

  /** What a walk has done when it has seen some links of row `a`, the rows of `done0` being listed already: it has
      listed rows that are new, each once, all below `a`; and the links, and those of the rows it listed, are listed. */
  ghost predicate Walked(g: Graph<Row>, a: Row, links: seq<Row>, done0: set<Row>, done: set<Row>, out: seq<Row>) {
    && done == done0 + Members(out) && done <= g.Keys && Distinct(out)
    && (forall r | r in out :: r !in done0 && r in g && Reaches(g, a, r))
    && (forall c | c in links :: c in done)
    && (forall r, c | r in out && c in g[r] :: c in done)
  }

  lemma WalkBegins(g: Graph<Row>, a: Row, done: set<Row>)
    requires done <= g.Keys
    ensures Walked(g, a, [], done, done, [])
  {
  }

  lemma WalkGrows(g: Graph<Row>, a: Row, links: seq<Row>, done0: set<Row>, done: set<Row>, out: seq<Row>)
    requires Walked(g, a, links, done0, done, out)
    ensures done0 <= done <= g.Keys
  {
  }

  lemma WalkSkips(g: Graph<Row>, a: Row, links: seq<Row>, done0: set<Row>, done: set<Row>, out: seq<Row>, i: nat)
    requires i < |links| && Walked(g, a, links[..i], done0, done, out) && links[i] in done
    ensures Walked(g, a, links[..i + 1], done0, done, out)
  {
    hide Members, Distinct, Reaches;
    assert links[..i + 1] == links[..i] + [links[i]];
  }

  /** The next link is new: it is listed, and then what the walk from it lists. */
  lemma WalkEnters(g: Graph<Row>, a: Row, links: seq<Row>, done0: set<Row>, done: set<Row>, out: seq<Row>, i: nat,
                   done': set<Row>, below: seq<Row>)
    requires i < |links| && Walked(g, a, links[..i], done0, done, out)
    requires var b := links[i]; a in g && b in g && b in g[a] && b !in done && Walked(g, b, g[b], done + {b}, done', below)
    ensures Walked(g, a, links[..i + 1], done0, done', out + [links[i]] + below)
  {
    var b := links[i];
    var more := out + [b] + below;
    DistinctConcat(out, b, below);
    AllBelow(g, a, b, below);
    hide Distinct, Reaches;
    assert links[..i + 1] == links[..i] + [b];
    assert forall r :: r in more <==> r in out || r == b || r in below;
  }

  lemma AllBelow(g: Graph<Row>, a: Row, b: Row, below: seq<Row>)
    requires a in g && b in g[a] && forall r | r in below :: Reaches(g, b, r)
    ensures Reaches(g, a, b) && forall r | r in below :: Reaches(g, a, r)
  {
    assert ReachesIn(g, a, b, 1);
    forall r | r in below ensures Reaches(g, a, r) {
      StepFirst(g, a, b, r);
    }
  }

  /** A finished walk has listed everything below its row. */
  lemma WalkComplete(g: Graph<Row>, a: Row, done: set<Row>, out: seq<Row>)
    requires a in g && Walked(g, a, g[a], {}, done, out)
    ensures Distinct(out) && forall r: Row :: r in out <==> Reaches(g, a, r)
  {
    forall r: Row | Reaches(g, a, r) ensures r in out {
      var k: nat :| ReachesIn(g, a, r, k);
      ClosedSetCatches(g, done, a, r, k);
    }
  }

  /** The rows that the loader kept for some keys, in the order of the keys. */
  function Kept(rows: map<Key, Row>, keys: seq<Key>): seq<Row> {
    if keys == [] then []
    else
      var last := keys[|keys| - 1];
      Kept(rows, keys[..|keys| - 1]) + if last in rows then [rows[last]] else []
  }

  /** Exactly the rows of `nodes` with some keys. */
  ghost predicate Callers(kept: seq<Row>, nodes: set<Row>, keys: seq<Key>) {
    && (forall r | r in kept :: r in nodes && r.key in keys)
    && (forall r | r in nodes && r.key in keys :: r in kept)
  }

  lemma {:induction false} KeptRows(rows: map<Key, Row>, nodes: set<Row>, keys: seq<Key>)
    requires KeyedBy(rows, nodes) && Distinct(keys)
    ensures Distinct(Kept(rows, keys)) && Callers(Kept(rows, keys), nodes, keys)
  {
    if keys != [] {
      var n := |keys| - 1;
      KeptRows(rows, nodes, keys[..n]);
      assert keys == keys[..n] + [keys[n]];
      assert keys[n] !in keys[..n];
    }
  }

  /** Rows are kept in the order of their keys. */
  lemma {:induction false} KeptConcat(rows: map<Key, Row>, a: seq<Key>, b: seq<Key>)
    ensures Kept(rows, a + b) == Kept(rows, a) + Kept(rows, b)
  {
    if b == [] {
      assert a + b == a;
    } else {
      var n := |b| - 1;
      assert (a + b)[..|a| + n] == a + b[..n];
      KeptConcat(rows, a, b[..n]);
    }
  }

  lemma DistinctConcat<T>(a: seq<T>, c: T, b: seq<T>)
    requires Distinct(a) && Distinct(b) && c !in a && c !in b && forall x | x in b :: x !in a
    ensures Distinct(a + [c] + b)
  {
    var s := a + [c] + b;
    forall i, j | 0 <= i < j < |s| ensures s[i] != s[j] {
      var k := |a| + 1;
      assert i < |a| ==> s[i] == a[i] && a[i] in a;
      assert i >= k ==> s[i] == b[i - k] && b[i - k] in b;
      assert j < |a| ==> s[j] == a[j] && a[j] in a;
      assert j >= k ==> s[j] == b[j - k] && b[j - k] in b;
    }
  }

  lemma KeptNone(rows: map<Key, Row>, keys: seq<Key>)
    ensures Kept(rows, keys[..0]) == []
  {
  }

  lemma KeptNext(rows: map<Key, Row>, keys: seq<Key>, i: nat)
    requires Distinct(keys) && i < |keys|
    ensures keys[i] !in keys[..i] && forall k :: k in keys[..i + 1] <==> k in keys[..i] || k == keys[i]
    ensures Kept(rows, keys[..i + 1]) == Kept(rows, keys[..i]) + if keys[i] in rows then [rows[keys[i]]] else []
  {
    assert keys[..i + 1][..i] == keys[..i] && keys[..i + 1] == keys[..i] + [keys[i]];
  }

  class Row {
    const key: Key
    /** The keys of the dictionary of callers. */
    const callers: Keys
    var children: seq<Row>
    var parents: seq<Row>

    constructor (key: Key, callers: Keys)
      ensures this.key == key && this.callers == callers && children == [] && parents == []
    {
      this.key, this.callers, children, parents := key, callers, [], [];
    }

    function Links(attribute: Attribute): seq<Row>
      reads this
    {
      if attribute.Children? then children else parents
    }

    /** The callers that the loader kept become the last parents, in order, and this row their last child. */
    twostate predicate LinkedTo(rows: map<Key, Row>, nodes: set<Row>)
      reads this, nodes
    {
      && parents == old(parents) + Kept(rows, callers) && (forall r | r in nodes && r != this :: r.parents == old(r.parents))
      && forall r | r in nodes :: r.children == old(r.children) + if r.key in callers then [this] else []
    }

    /** weave: the callers that the loader kept become the parents, in order, and this row becomes their last child. */
    method Weave(rows: map<Key, Row>, ghost nodes: set<Row>, ghost done: set<Row>)
      requires KeyedBy(rows, nodes) && this in nodes && this !in done && Woven(nodes, done)
      modifies nodes
      ensures Woven(nodes, done + {this})
      ensures LinkedTo(rows, nodes)
    {
      hide Below, Above, KeyedBy, Kept;
      ghost var g, h := GraphOf(nodes, Children), GraphOf(nodes, Parents);
      NothingAbove(nodes, done, h, this);
      Link(rows, nodes);
      KeptRows(rows, nodes, callers);
      BelowOn(nodes, done, g, GraphOf(nodes, Children), this);
      AboveOn(nodes, done, h, GraphOf(nodes, Parents), this);
    }

    method Link(rows: map<Key, Row>, ghost nodes: set<Row>)
      requires KeyedBy(rows, nodes) && this in nodes
      modifies nodes
      ensures LinkedTo(rows, nodes)
    {
      hide Kept, Distinct;
      KeptNone(rows, callers);
      for i := 0 to |callers|
        invariant parents == old(parents) + Kept(rows, callers[..i])
        invariant forall r | r in nodes && r != this :: r.parents == old(r.parents)
        invariant forall r | r in nodes :: r.children == old(r.children) + if r.key in callers[..i] then [this] else []
      {
        var caller := callers[i];
        KeptNext(rows, callers, i);
        if caller in rows {
          var parent := rows[caller];
          parents := parents + [parent];
          parent.children := parent.children + [this];
        }
      }
      assert callers[..|callers|] == callers;
    }

    /** recursive_distinct: the rows linked below this one that the table does not hold yet. */
    method RecursiveDistinct(table: Table, attribute: Attribute, ghost g: Graph<Row>) returns (out: seq<Row>)
      requires this in g && Closed(g) && Shows(g, attribute) && table.done <= g.Keys
      modifies table
      ensures Walked(g, this, g[this], old(table.done), table.done, out) && table.done <= g.Keys
      decreases g.Keys - table.done
    {
      var links := Links(attribute);
      assert g[this] == links && forall c | c in links :: c in g;
      hide *;
      out := [];
      ghost var done0 := table.done;
      WalkBegins(g, this, done0);
      assert links[..0] == [];
      for i := 0 to |links|
        invariant Walked(g, this, links[..i], done0, table.done, out) && done0 <= table.done <= g.Keys
      {
        var child := links[i];
        ghost var done := table.done;
        if child !in table.done {
          table.done := table.done + {child};
          var below := child.RecursiveDistinct(table, attribute, g);
          WalkEnters(g, this, links, done0, done, out, i, table.done, below);
          out := out + [child] + below;
          WalkGrows(g, this, links[..i + 1], done0, table.done, out);
        } else {
          WalkSkips(g, this, links, done0, done, out, i);
        }
      }
      assert links[..|links|] == links;
    }

    /** descendants and ancestors: every row reached in one or more steps, each once. */
    method Reachable(attribute: Attribute, ghost g: Graph<Row>) returns (out: seq<Row>)
      requires this in g && Closed(g) && Shows(g, attribute)
      ensures Distinct(out)
      ensures forall r: Row :: r in out <==> Reaches(g, this, r)
    {
      hide *;
      var table := new Table();
      out := RecursiveDistinct(table, attribute, g);
      WalkComplete(g, this, table.done, out);
    }

    method Descendants(ghost g: Graph<Row>) returns (out: seq<Row>)
      requires this in g && Closed(g) && Shows(g, Children)
      ensures Distinct(out)
      ensures forall r: Row :: r in out <==> Reaches(g, this, r)
    {
      out := Reachable(Children, g);
    }

    method Ancestors(ghost g: Graph<Row>) returns (out: seq<Row>)
      requires this in g && Closed(g) && Shows(g, Parents)
      ensures Distinct(out)
      ensures forall r: Row :: r in out <==> Reaches(g, this, r)
    {
      out := Reachable(Parents, g);
    }
  }

  lemma HasMember<T>(s: seq<T>)
    ensures s == [] || exists x :: x in s
  {
    if s != [] { assert s[0] in s; }
  }

  lemma NothingAbove(nodes: set<Row>, done: set<Row>, h: Graph<Row>, row: Row)
    requires Above(nodes, done, h) && row in nodes && row !in done
    ensures h[row] == []
  {
    assert forall a | a in nodes :: a !in h[row];
    HasMember(h[row]);
  }

  /** A row that was not linked yet goes below its callers. */
  lemma BelowOn(nodes: set<Row>, done: set<Row>, g: Graph<Row>, g': Graph<Row>, row: Row)
    requires Below(nodes, done, g) && row in nodes && row !in done && g'.Keys == nodes
    requires forall r | r in nodes :: g'[r] == g[r] + if r.key in row.callers then [row] else []
    ensures Below(nodes, done + {row}, g')
  {
    assert forall r | r in nodes :: row !in g[r];
  }

  /** And they go above it. */
  lemma AboveOn(nodes: set<Row>, done: set<Row>, h: Graph<Row>, h': Graph<Row>, row: Row)
    requires Above(nodes, done, h) && row in nodes && row !in done && h'.Keys == nodes
    requires Distinct(h'[row]) && Callers(h'[row], nodes, row.callers)
    requires forall r | r in nodes && r != row :: h'[r] == h[r]
    ensures Above(nodes, done + {row}, h')
  {
  }

  lemma Unlinked(nodes: set<Row>, g: Graph<Row>)
    requires g.Keys == nodes && forall r | r in nodes :: g[r] == []
    ensures Below(nodes, {}, g) && Above(nodes, {}, g)
  {
  }

  ghost predicate Shows(g: Graph<Row>, attribute: Attribute)
    reads g.Keys
  {
    forall r | r in g :: g[r] == r.Links(attribute)
  }

  /** The second loop of `load`, over the rows in any order. */
  method WeaveAll(rows: map<Key, Row>, order: seq<Row>, ghost nodes: set<Row>)
    requires KeyedBy(rows, nodes) && Distinct(order) && forall r :: r in order <==> r in nodes
    requires forall r | r in nodes :: r.children == [] && r.parents == []
    modifies nodes
    ensures Woven(nodes, nodes)
  {
    hide *;
    ghost var done: set<Row> := {};
    BareRows(nodes);
    for i := 0 to |order|
      invariant done <= nodes && Woven(nodes, done) && Reached(order, done, i)
    {
      ReachedNext(order, done, i);
      order[i].Weave(rows, nodes, done);
      done := done + {order[i]};
    }
    ReachedAll(order, done, nodes);
  }

  lemma BareRows(nodes: set<Row>)
    requires forall r | r in nodes :: r.children == [] && r.parents == []
    ensures Woven(nodes, {}) && forall order: seq<Row> :: Reached(order, {}, 0)
  {
    hide Below, Above;
    Unlinked(nodes, GraphOf(nodes, Children));
    Unlinked(nodes, GraphOf(nodes, Parents));
  }

  /** The rows of an order before position `i` are done, the others not. */
  ghost predicate Reached(order: seq<Row>, done: set<Row>, i: nat) {
    forall j | 0 <= j < |order| :: order[j] in done <==> j < i
  }

  lemma ReachedNext(order: seq<Row>, done: set<Row>, i: nat)
    requires Distinct(order) && i < |order| && Reached(order, done, i)
    ensures order[i] !in done && Reached(order, done + {order[i]}, i + 1)
  {
  }

  lemma ReachedAll(order: seq<Row>, done: set<Row>, nodes: set<Row>)
    requires Reached(order, done, |order|) && done <= nodes && forall r | r in nodes :: r in order
    ensures done == nodes
  {
    forall r | r in nodes ensures r in done {
      var j :| 0 <= j < |order| && order[j] == r;
    }
  }

  /** After weaving, the two link lists form inverse graphs. */
  lemma WovenInverse(nodes: set<Row>, g: Graph<Row>, h: Graph<Row>)
    requires Woven(nodes, nodes) && g.Keys == nodes == h.Keys && Shows(g, Children) && Shows(h, Parents)
    ensures Closed(g) && Closed(h) && Inverse(g, h)
  {
  }

  /** A row is among the descendants of another exactly if the other is among its ancestors. */
  method BelowAndAbove(a: Row, b: Row, ghost nodes: set<Row>, ghost g: Graph<Row>, ghost h: Graph<Row>) returns (below: bool, above: bool)
    requires Woven(nodes, nodes) && a in nodes && b in nodes
    requires g.Keys == nodes == h.Keys && Shows(g, Children) && Shows(h, Parents)
    ensures below == above == Reaches(g, a, b)
  {
    WovenInverse(nodes, g, h);
    var descendants := a.Descendants(g);
    var ancestors := b.Ancestors(h);
    below, above := b in descendants, a in ancestors;
    Duality(g, h, a, b);
  }
}
