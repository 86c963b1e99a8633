/**
  The hash-consed node table of a List Decision Diagram (LDD) library.

  An LDD is a handle (a natural number) into a table of `(value, down, right)`
  triples. Handle 0 is the empty set ('false') and handle 1 the set holding only
  the empty vector ('true'). The denotation of a handle is

    [[0]] = {}
    [[1]] = {<>}
    [[node(v, d, r)]] = { v x | x in [[d]] } + [[r]]

  Children are always inserted before their parent, so every child index is
  smaller than its parent's index; that is the termination measure throughout.
 */
module Storage {

  /** Values are 64-bit unsigned integers. */
  type u64 = x: int | 0 <= x < 0x1_0000_0000_0000_0000

  /** A vector of values. */
  type Vector = seq<u64>

  /** The user-visible part of a node; identity of nodes is identity of this triple. */
  datatype Node = Node(value: u64, down: nat, right: nat)

  /** The node table, the height of every node, and the canonical triple-to-index map. */
  datatype Storage = Storage(table: seq<Node>, height: seq<nat>, index: map<Node, nat>)

  const EmptySet: nat := 0
  const EmptyVector: nat := 1

  /** The placeholder triple stored at both terminal slots. */
  const Terminal := Node(0, 0, 0)

  /** `{ v x | x in xs }` */
  ghost function Prepend(v: u64, xs: set<Vector>): set<Vector>
  {
    set x | x in xs :: [v] + x
  }

  /** The set of vectors a handle stands for. */
  ghost function Denote(t: seq<Node>, n: nat): set<Vector>
    decreases n
  {
    if n == EmptySet || n >= |t| then {}
    else if n == EmptyVector then {[]}
    else if t[n].down < n && t[n].right < n then
      Prepend(t[n].value, Denote(t, t[n].down)) + Denote(t, t[n].right)
    else {}
  }

  /** The rules `insert` checks, for the node stored at index `i`. */
  ghost predicate NodeOk(s: Storage, i: nat)
    requires i < |s.table| == |s.height|
  {
    var n := s.table[i];
    && n.down < i && n.right < i
    && n.down != EmptySet && n.right != EmptyVector
    && s.height[i] == s.height[n.down] + 1
    && (n.right != EmptySet ==> s.height[n.right] == s.height[i] && n.value < s.table[n.right].value)
  }

  /** The index maps the triple stored at `i` back to `i`. */
  ghost predicate Indexed(s: Storage, i: nat)
    requires i < |s.table|
  {
    s.table[i] in s.index && s.index[s.table[i]] == i
  }

  /** The invariant every storage reachable from `New` keeps. */
  ghost predicate Valid(s: Storage)
  {
    && |s.table| == |s.height| >= 2
    && s.table[EmptySet] == Terminal && s.table[EmptyVector] == Terminal
    && s.height[EmptySet] == 0 && s.height[EmptyVector] == 0
    && (forall i | 2 <= i < |s.table| :: NodeOk(s, i))
    && (forall k {:trigger s.index[k]} | k in s.index :: 2 <= s.index[k] < |s.table| && s.table[s.index[k]] == k)
    && (forall i | 2 <= i < |s.table| :: Indexed(s, i))
  }

  /** `a` is a prefix of `b`. */
  ghost predicate Prefix<T>(a: seq<T>, b: seq<T>)
  {
    |a| <= |b| && forall i {:trigger b[i]} | 0 <= i < |a| :: b[i] == a[i]
  }

  /** `s'` was obtained from `s` by appending nodes only. */
  ghost predicate Extends(s: Storage, s': Storage)
  {
    Prefix(s.table, s'.table) && Prefix(s.height, s'.height)
  }

  lemma ExtendsTrans(s: Storage, s1: Storage, s2: Storage)
    requires Extends(s, s1) && Extends(s1, s2)
    ensures Extends(s, s2)
  {
  }

  /** A fresh storage: the two terminals, both of height 0, and an empty index. */
  function New(): (s: Storage)
    ensures Valid(s)
    ensures |s.table| == 2 && |s.height| == 2
    ensures s.height[EmptySet] == 0 && s.height[EmptyVector] == 0
    ensures Denote(s.table, EmptySet) == {} && Denote(s.table, EmptyVector) == {[]}
    ensures s.index == map[]
  {
    Storage([Terminal, Terminal], [0, 0], map[])
  }

  /** The conditions `insert` asserts before it creates node(value, down, right). */
  predicate InsertAllowed(s: Storage, value: u64, down: nat, right: nat)
  {
    && down != EmptySet
    && right != EmptyVector
    && down < |s.table|
    && right < |s.table|
    && |s.height| == |s.table|
    && (right != EmptySet ==> s.height[down] + 1 == s.height[right] && value < s.table[right].value)
  }

  /** The value of a node: for an inner node, the least first entry of its vectors. */
  function Value(s: Storage, n: nat): (v: u64)
    requires Valid(s) && n < |s.table|
    ensures v == s.table[n].value
    ensures n >= 2 ==> SomeMember(s, n)[0] == v && forall x | x in Denote(s.table, n) :: |x| > 0 && x[0] >= v
  {
    if n >= 2 then DenoteHeads(s, n); s.table[n].value else s.table[n].value
  }

  /** The triple stored for a node, from which the node's vectors are assembled. */
  function Get(s: Storage, n: nat): (d: Node)
    requires Valid(s) && n < |s.table|
    ensures d == s.table[n]
    ensures n >= 2 ==> d.down < n && d.right < n && d.down != EmptySet && d.right != EmptyVector
    ensures n >= 2 ==> Denote(s.table, n) == Prepend(d.value, Denote(s.table, d.down)) + Denote(s.table, d.right)
  {
    if n >= 2 then assert NodeOk(s, n); s.table[n] else s.table[n]
  }

  /**
    The canonicalising constructor: the existing index of a known triple, or a
    new index at the end of the table.
   */
  function Insert(s: Storage, value: u64, down: nat, right: nat): (res: (Storage, nat))
    requires Valid(s) && InsertAllowed(s, value, down, right)
    ensures Valid(res.0) && Extends(s, res.0)
    ensures 2 <= res.1 < |res.0.table| && res.0.table[res.1] == Node(value, down, right)
    ensures res.0.height[res.1] == s.height[down] + 1
    ensures Node(value, down, right) in s.index ==> res == (s, s.index[Node(value, down, right)])
    ensures Node(value, down, right) !in s.index ==>
      && res.1 == |s.table|
      && res.0.table == s.table + [Node(value, down, right)]
      && res.0.height == s.height + [s.height[down] + 1]
    ensures Denote(res.0.table, res.1) == Prepend(value, Denote(s.table, down)) + Denote(s.table, right)
  {
    var n := Node(value, down, right);
    if n in s.index then
      KnownNode(s, n);
      (s, s.index[n])
    else
      AppendKeepsValid(s, n);
      (Storage(s.table + [n], s.height + [s.height[down] + 1], s.index[n := |s.table|]), |s.table|)
  }

  /** A triple already in the index sits at a node with exactly that triple's height and denotation. */
  lemma KnownNode(s: Storage, n: Node)
    requires Valid(s) && n in s.index
    ensures 2 <= s.index[n] < |s.table| && s.table[s.index[n]] == n && n.down < s.index[n]
    ensures s.height[s.index[n]] == s.height[n.down] + 1
    ensures Denote(s.table, s.index[n]) == Prepend(n.value, Denote(s.table, n.down)) + Denote(s.table, n.right)
  {
    assert NodeOk(s, s.index[n]);
  }

  /** Appending a new triple that meets the `insert` rules keeps the storage valid. */
  lemma AppendKeepsValid(s: Storage, n: Node)
    requires Valid(s) && InsertAllowed(s, n.value, n.down, n.right) && n !in s.index
    ensures Valid(Storage(s.table + [n], s.height + [s.height[n.down] + 1], s.index[n := |s.table|]))
    ensures Denote(s.table + [n], |s.table|) == Prepend(n.value, Denote(s.table, n.down)) + Denote(s.table, n.right)
  {
    var s' := Storage(s.table + [n], s.height + [s.height[n.down] + 1], s.index[n := |s.table|]);
    DenoteFrame(s.table, s'.table, n.down);
    DenoteFrame(s.table, s'.table, n.right);
    forall i | 2 <= i < |s'.table|
      ensures NodeOk(s', i)
    {
      if i < |s.table| {
        assert NodeOk(s, i);
        assert s'.table[i] == s.table[i];
      }
    }
    forall k | k in s'.index
      ensures 2 <= s'.index[k] < |s'.table| && s'.table[s'.index[k]] == k
    {
    }
    forall i | 2 <= i < |s'.table|
      ensures Indexed(s', i)
    {
      if i < |s.table| {
        assert s'.table[i] == s.table[i];
        assert Indexed(s, i);
      }
    }
  }

  /** Appending nodes never changes what an existing handle denotes. */
  lemma {:induction false} DenoteFrame(t: seq<Node>, t': seq<Node>, n: nat)
    requires Prefix(t, t') && n < |t|
    ensures Denote(t', n) == Denote(t, n)
    decreases n
  {
    if n >= 2 && t[n].down < n && t[n].right < n {
      DenoteFrame(t, t', t[n].down);
      DenoteFrame(t, t', t[n].right);
    }
  }

  /** Every vector of a non-empty-set handle has the handle's height as its length. */
  lemma {:induction false} DenoteLengths(s: Storage, n: nat)
    requires Valid(s) && n < |s.table|
    ensures forall x | x in Denote(s.table, n) :: |x| == s.height[n]
    decreases n
  {
    if n >= 2 {
      var d, r := s.table[n].down, s.table[n].right;
      assert NodeOk(s, n);
      DenoteLengths(s, d);
      DenoteLengths(s, r);
    }
  }

  /** Every vector of a node starts with a value at least the node's own value (sorted siblings). */
  lemma {:induction false} DenoteHeads(s: Storage, n: nat)
    requires Valid(s) && 2 <= n < |s.table|
    ensures forall x | x in Denote(s.table, n) :: |x| > 0 && x[0] >= s.table[n].value
    decreases n
  {
    var r := s.table[n].right;
    assert NodeOk(s, n);
    if r != EmptySet {
      DenoteHeads(s, r);
    }
  }

  /** A member of a non-empty handle, built by following `down` from the node. */
  ghost function SomeMember(s: Storage, n: nat): (x: Vector)
    requires Valid(s) && 1 <= n < |s.table|
    ensures x in Denote(s.table, n)
    ensures n >= 2 ==> |x| > 0 && x[0] == s.table[n].value
    decreases n
  {
    if n == EmptyVector then []
    else
      assert NodeOk(s, n);
      [s.table[n].value] + SomeMember(s, s.table[n].down)
  }

  /** Only the empty-set handle denotes the empty set. */
  lemma DenoteEmpty(s: Storage, n: nat)
    requires Valid(s) && n < |s.table|
    ensures Denote(s.table, n) == {} <==> n == EmptySet
  {
    if n != EmptySet {
      var x := SomeMember(s, n);
    }
  }

  /**
    The `down` child of a node denotes exactly the tails of the node's vectors
    that start with its value; the `right` child denotes exactly the vectors
    that start with a larger value.
   */
  lemma Decompose(s: Storage, n: nat)
    requires Valid(s) && 2 <= n < |s.table|
    ensures forall y :: y in Denote(s.table, s.table[n].down) <==> [s.table[n].value] + y in Denote(s.table, n)
    ensures forall x :: x in Denote(s.table, s.table[n].right) <==>
      x in Denote(s.table, n) && |x| > 0 && x[0] > s.table[n].value
  {
    var v, d, r := s.table[n].value, s.table[n].down, s.table[n].right;
    assert NodeOk(s, n);
    if r != EmptySet {
      DenoteHeads(s, r);
    }
    forall y ensures y in Denote(s.table, d) <==> [v] + y in Denote(s.table, n) {
      if [v] + y in Prepend(v, Denote(s.table, d)) {
        var y' :| y' in Denote(s.table, d) && [v] + y' == [v] + y;
        assert y' == ([v] + y')[1..];
      }
    }
  }

  /**
    Canonicity: two handles that denote the same set of vectors are the same
    handle, so LDD equality is index equality.
   */
  lemma {:induction false} Canonical(s: Storage, i: nat, j: nat)
    requires Valid(s) && i < |s.table| && j < |s.table|
    requires Denote(s.table, i) == Denote(s.table, j)
    ensures i == j
    decreases i + j
  {
    DenoteEmpty(s, i);
    DenoteEmpty(s, j);
    if i == EmptyVector || j == EmptyVector {
      assert [] in Denote(s.table, i);
      if i >= 2 { DenoteHeads(s, i); }
      if j >= 2 { DenoteHeads(s, j); }
    } else if i >= 2 && j >= 2 {
      var ni, nj := s.table[i], s.table[j];
      DenoteHeads(s, i);
      DenoteHeads(s, j);
      var xi, xj := SomeMember(s, i), SomeMember(s, j);
      assert ni.value == nj.value;
      Decompose(s, i);
      Decompose(s, j);
      assert NodeOk(s, i) && NodeOk(s, j);
      assert Denote(s.table, ni.down) == Denote(s.table, nj.down) by {
        forall y ensures y in Denote(s.table, ni.down) <==> y in Denote(s.table, nj.down) {
          assert [ni.value] + y in Denote(s.table, i) <==> [nj.value] + y in Denote(s.table, j);
        }
      }
      assert Denote(s.table, ni.right) == Denote(s.table, nj.right);
      Canonical(s, ni.down, nj.down);
      Canonical(s, ni.right, nj.right);
      assert Indexed(s, i) && Indexed(s, j);
    }
  }
}
