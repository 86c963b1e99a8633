/**
  The reference-counted node table of the crate: each node carries a
  `reference_count` next to its triple, raised and lowered as handles to it
  are created and dropped. Counts take no part in node identity; the triples,
  heights and index are those of the plain `Storage` model.
 */
module Counted {
  import opened Storage

  /** A table entry: the triple and the number of live handles to it. */
  datatype CountedNode = CountedNode(value: u64, down: nat, right: nat, referenceCount: nat)

  /** The storage: the shared table with counts, the triple index and the heights. */
  datatype CountedStorage = CountedStorage(table: seq<CountedNode>, height: seq<nat>, index: map<Node, nat>)

  /** The identity of an entry: its triple without the count. */
  function Key(n: CountedNode): Node
  {
    Node(n.value, n.down, n.right)
  }

  /** Node equality compares value, down and right only. */
  predicate SameNode(a: CountedNode, b: CountedNode)
  {
    a.value == b.value && a.down == b.down && a.right == b.right
  }

  /** Two entries are equal exactly when their triples are; the count never matters. */
  lemma SameNodeIsSameKey(a: CountedNode, b: CountedNode)
    ensures SameNode(a, b) <==> Key(a) == Key(b)
    ensures SameNode(a, b) ==> SameNode(a.(referenceCount := b.referenceCount), b)
  {
  }

  /** The triples of a table. */
  function Keys(table: seq<CountedNode>): (ks: seq<Node>)
    ensures |ks| == |table| && forall i | 0 <= i < |table| :: ks[i] == Key(table[i])
  {
    seq(|table|, i requires 0 <= i < |table| => Key(table[i]))
  }

  /** The storage without its counts. */
  function Plain(c: CountedStorage): Storage
  {
    Storage(Keys(c.table), c.height, c.index)
  }

  /** The count of node `i`. */
  function Count(c: CountedStorage, i: nat): nat
  {
    if i < |c.table| then c.table[i].referenceCount else 0
  }

  /** Adds `delta` to the count of node `i`. */
  function Adjust(c: CountedStorage, i: nat, delta: int): (r: CountedStorage)
    requires i < |c.table| && c.table[i].referenceCount + delta >= 0
    ensures Plain(r) == Plain(c)
    ensures forall j :: Count(r, j) == Count(c, j) + (if j == i then delta else 0)
  {
    var t := c.table;
    var r := c.(table := t[i := t[i].(referenceCount := t[i].referenceCount + delta)]);
    assert Keys(r.table) == Keys(c.table);
    r
  }

  /** `SharedStorage::protect`: one more handle to `i`. */
  function Protect(c: CountedStorage, i: nat): (r: CountedStorage)
    requires i < |c.table|
    ensures Plain(r) == Plain(c)
    ensures forall j :: Count(r, j) == Count(c, j) + (if j == i then 1 else 0)
  {
    Adjust(c, i, 1)
  }

  /** `SharedStorage::unprotect`: one handle to `i` fewer; the count must not fall below zero. */
  function Unprotect(c: CountedStorage, i: nat): (r: CountedStorage)
    requires i < |c.table| && Count(c, i) > 0
    ensures Plain(r) == Plain(c)
    ensures forall j :: Count(r, j) == Count(c, j) - (if j == i then 1 else 0)
  {
    Adjust(c, i, -1)
  }

  /** `Storage::new`: the two terminals, each held by one handle (the storage's own `empty_set` and `empty_vector`). */
  function CountedNew(): (c: CountedStorage)
    ensures Plain(c) == New()
    ensures Count(c, EmptySet) == 1 && Count(c, EmptyVector) == 1 && |c.table| == 2
  {
    var c := CountedStorage([CountedNode(0, 0, 0, 0), CountedNode(0, 0, 0, 0)], [0, 0], map[]);
    assert Keys(c.table) == [Terminal, Terminal];
    Protect(Protect(c, EmptySet), EmptyVector)
  }

  /** The table after `insert` has found or appended the triple, before any count changes. */
  function Grow(c: CountedStorage, value: u64, down: nat, right: nat): (g: CountedStorage)
    requires Valid(Plain(c)) && InsertAllowed(Plain(c), value, down, right)
    ensures Plain(g) == Insert(Plain(c), value, down, right).0
    ensures forall j :: Count(g, j) == Count(c, j)
  {
    var n := Node(value, down, right);
    if n in c.index then c
    else
      var g := CountedStorage(c.table + [CountedNode(value, down, right, 0)], c.height + [c.height[down] + 1], c.index[n := |c.table|]);
      assert Keys(g.table) == Keys(c.table) + [n];
      assert forall j :: Count(g, j) == Count(c, j);
      g
  }

  /**
    `Storage::insert` taking its operands by value: the node table changes as in
    the plain model, the result handle is protected and the `down` and `right`
    handles passed in are dropped on return.
   */
  function CountedInsert(c: CountedStorage, value: u64, down: nat, right: nat): (res: (CountedStorage, nat))
    requires Valid(Plain(c)) && InsertAllowed(Plain(c), value, down, right)
    requires Count(c, down) > 0 && Count(c, right) > 0
    ensures Plain(res.0) == Insert(Plain(c), value, down, right).0
    ensures res.1 == Insert(Plain(c), value, down, right).1
    ensures forall j :: (Count(res.0, j) ==
      Count(c, j) + (if j == res.1 then 1 else 0) - (if j == down then 1 else 0) - (if j == right then 1 else 0))
  {
    var ins := Insert(Plain(c), value, down, right);
    var grown := Grow(c, value, down, right);
    var held := Protect(grown, ins.1);
    (Unprotect(Unprotect(held, down), right), ins.1)
  }

  /** `Storage::value`: the value of a node. */
  function CountedValue(c: CountedStorage, n: nat): (v: u64)
    requires n < |c.table|
    ensures v == Plain(c).table[n].value
  {
    c.table[n].value
  }

  /** `Storage::get`: the triple of a node, with fresh handles to its `down` and `right` children. */
  function CountedGet(c: CountedStorage, n: nat): (res: (Node, CountedStorage))
    requires Valid(Plain(c)) && n < |c.table|
    ensures res.0 == Plain(c).table[n]
    ensures Plain(res.1) == Plain(c)
    ensures forall j :: (Count(res.1, j) ==
      Count(c, j) + (if j == res.0.down then 1 else 0) + (if j == res.0.right then 1 else 0))
  {
    var node := Key(c.table[n]);
    assert n >= 2 ==> NodeOk(Plain(c), n);
    (node, Protect(Protect(c, node.down), node.right))
  }

  /** `Ldd::clone` as written: it protects the node itself and then once more through `Ldd::new`. */
  function CloneAsWritten(c: CountedStorage, n: nat): (r: CountedStorage)
    requires n < |c.table|
    ensures Plain(r) == Plain(c)
    ensures forall j :: Count(r, j) == Count(c, j) + (if j == n then 2 else 0)
  {
    Protect(Protect(c, n), n)
  }

  /** `Ldd::clone` protecting once, for the one handle it creates. */
  function Clone(c: CountedStorage, n: nat): (r: CountedStorage)
    requires n < |c.table|
    ensures Plain(r) == Plain(c)
    ensures forall j :: Count(r, j) == Count(c, j) + (if j == n then 1 else 0)
  {
    Protect(c, n)
  }

  /** `Ldd::drop`: unprotects the node of the handle. */
  function Drop(c: CountedStorage, n: nat): (r: CountedStorage)
    requires n < |c.table| && Count(c, n) > 0
    ensures Plain(r) == Plain(c)
    ensures forall j :: Count(r, j) == Count(c, j) - (if j == n then 1 else 0)
  {
    Unprotect(c, n)
  }

  /** Cloning a handle and dropping the clone again leaves the count one too high. */
  lemma CloneThenDropAsWritten(c: CountedStorage, n: nat)
    requires n < |c.table|
    ensures Count(Drop(CloneAsWritten(c, n), n), n) == Count(c, n) + 1
  {
  }

  /** With one protection per clone, cloning and dropping the clone restores every count. */
  lemma CloneThenDrop(c: CountedStorage, n: nat)
    requires n < |c.table|
    ensures Drop(Clone(c, n), n) == c
  {
    var r := Drop(Clone(c, n), n);
    assert r.table == c.table;
  }
}
