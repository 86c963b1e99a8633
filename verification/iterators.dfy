/**
  Enumeration of LDDs: the iterator over a node's right siblings, and the
  depth-first iterator over all vectors of an LDD driven by an explicit stack.
 */
module Iterators {
  import opened Wrappers
  import opened Storage
  import Operations

  // ---------------------------------------------------------------------------
  // Right siblings

  /** The iterator returned by `iter_right`: the node whose triple comes next. */
  datatype IterRight = IterRight(current: nat)

  /** The sibling list starting at `n`: `n` and then each successive `right`, up to the empty set. */
  ghost function Siblings(t: seq<Node>, n: nat): seq<Node>
    decreases n
  {
    if n == EmptySet || n >= |t| then []
    else if t[n].right < n then [t[n]] + Siblings(t, t[n].right)
    else [t[n]]
  }

  /** The union of `{ v x | x in [[down]] }` over a list of nodes. */
  ghost function Contributions(t: seq<Node>, nodes: seq<Node>): set<Vector>
  {
    if nodes == [] then {}
    else Prepend(nodes[0].value, Denote(t, nodes[0].down)) + Contributions(t, nodes[1..])
  }

  /** One step of `IterRight::next`: the current triple, moving on to its right sibling. */
  function IterRightNext(s: Storage, it: IterRight): (r: (Option<Node>, IterRight))
    requires Valid(s) && it.current < |s.table|
    ensures it.current == EmptySet ==> r == (None, it)
    ensures it.current != EmptySet ==>
      && r == (Some(s.table[it.current]), IterRight(s.table[it.current].right))
      && r.1.current < it.current
  {
    if it.current == EmptySet then
      (None, it)
    else
      var node := Get(s, it.current);
      assert it.current >= 2 ==> NodeOk(s, it.current);
      (Some(node), IterRight(node.right))
  }

  /**
    Drains `iter_right(n)`: yields the sibling list of `n`, with strictly
    increasing values, whose contributions make up exactly `[[n]]`.
   */
  method CollectRight(s: Storage, n: nat) returns (out: seq<Node>)
    requires Valid(s) && n < |s.table|
    ensures out == Siblings(s.table, n)
    ensures n == EmptySet ==> out == []
    ensures n >= 2 ==> out[0] == s.table[n]
    ensures n != EmptyVector ==> forall i, j | 0 <= i < j < |out| :: out[i].value < out[j].value
    ensures n != EmptyVector ==> Contributions(s.table, out) == Denote(s.table, n)
  {
    var it := IterRight(n);
    out := [];
    while true
      invariant it.current < |s.table|
      invariant Siblings(s.table, n) == out + Siblings(s.table, it.current)
      decreases it.current
    {
      var step := IterRightNext(s, it);
      if step.0.None? {
        break;
      }
      SiblingsNext(s, n, it.current, out);
      out := out + [step.0.value];
      it := step.1;
    }
    if n != EmptyVector {
      SiblingsSorted(s, n);
      SiblingsDenote(s, n);
    }
  }

  /** Taking the current triple off the sibling list still to come leaves the list of its `right`. */
  lemma SiblingsNext(s: Storage, n: nat, current: nat, out: seq<Node>)
    requires Valid(s) && current != EmptySet && current < |s.table|
    requires Siblings(s.table, n) == out + Siblings(s.table, current)
    ensures Siblings(s.table, n) == (out + [s.table[current]]) + Siblings(s.table, s.table[current].right)
  {
    if current >= 2 {
      assert NodeOk(s, current);
    }
    assert Siblings(s.table, current) == [s.table[current]] + Siblings(s.table, s.table[current].right);
  }

  /** Sibling values strictly increase. */
  lemma {:induction false} SiblingsSorted(s: Storage, n: nat)
    requires Valid(s) && n < |s.table| && n != EmptyVector
    ensures forall i, j | 0 <= i < j < |Siblings(s.table, n)| ::
      Siblings(s.table, n)[i].value < Siblings(s.table, n)[j].value
    decreases n
  {
    if n >= 2 {
      assert NodeOk(s, n);
      var r := s.table[n].right;
      SiblingsSorted(s, r);
      if r != EmptySet {
        SiblingsHead(s, r);
      }
      var xs := Siblings(s.table, n);
      assert xs == [s.table[n]] + Siblings(s.table, r);
      forall i, j | 0 <= i < j < |xs| ensures xs[i].value < xs[j].value {
        if i == 0 {
          assert xs[j] == Siblings(s.table, r)[j - 1];
        } else {
          assert xs[i] == Siblings(s.table, r)[i - 1];
          assert xs[j] == Siblings(s.table, r)[j - 1];
        }
      }
    }
  }

  /** Every sibling of `n` has a value at least that of `n`. */
  lemma {:induction false} SiblingsHead(s: Storage, n: nat)
    requires Valid(s) && 2 <= n < |s.table|
    ensures forall i | 0 <= i < |Siblings(s.table, n)| :: Siblings(s.table, n)[i].value >= s.table[n].value
    decreases n
  {
    assert NodeOk(s, n);
    var r := s.table[n].right;
    if r != EmptySet {
      SiblingsHead(s, r);
      var xs := Siblings(s.table, n);
      forall i | 0 < i < |xs| ensures xs[i].value >= s.table[n].value {
        assert xs[i] == Siblings(s.table, r)[i - 1];
      }
    }
  }

  /** The contributions of the siblings of `n` make up `[[n]]`. */
  lemma {:induction false} SiblingsDenote(s: Storage, n: nat)
    requires Valid(s) && n < |s.table| && n != EmptyVector
    ensures Contributions(s.table, Siblings(s.table, n)) == Denote(s.table, n)
    decreases n
  {
    if n >= 2 {
      assert NodeOk(s, n);
      var xs := Siblings(s.table, n);
      SiblingsDenote(s, s.table[n].right);
      assert xs[1..] == Siblings(s.table, s.table[n].right);
    }
  }

  // ---------------------------------------------------------------------------
  // Vectors

  /** Each vector of `xs` with `prefix` in front. */
  function Prefixed(prefix: Vector, xs: seq<Vector>): (r: seq<Vector>)
    ensures |r| == |xs| && forall i | 0 <= i < |xs| :: r[i] == prefix + xs[i]
  {
    seq(|xs|, i requires 0 <= i < |xs| => prefix + xs[i])
  }

  /** The vectors of `n` in depth-first, sibling order: the order of `iter(n)`. */
  ghost function Enumerate(t: seq<Node>, n: nat): seq<Vector>
    decreases n
  {
    if n == EmptySet || n >= |t| then []
    else if n == EmptyVector then [[]]
    else if t[n].down < n && t[n].right < n then
      Prefixed([t[n].value], Enumerate(t, t[n].down)) + Enumerate(t, t[n].right)
    else []
  }

  lemma PrefixedConcat(prefix: Vector, xs: seq<Vector>, ys: seq<Vector>)
    ensures Prefixed(prefix, xs + ys) == Prefixed(prefix, xs) + Prefixed(prefix, ys)
  {
  }

  lemma PrefixedPrefixed(p: Vector, q: Vector, xs: seq<Vector>)
    ensures Prefixed(p, Prefixed(q, xs)) == Prefixed(p + q, xs)
  {
    forall i | 0 <= i < |xs| ensures p + (q + xs[i]) == (p + q) + xs[i] {
    }
  }

  lemma PrefixedSingle(prefix: Vector, x: Vector)
    ensures Prefixed(prefix, [x]) == [prefix + x]
  {
    var r := Prefixed(prefix, [x]);
    assert |r| == 1 && r[0] == prefix + x;
  }

  lemma PrefixedEmpty(xs: seq<Vector>)
    ensures Prefixed([], xs) == xs
  {
    forall i | 0 <= i < |xs| ensures [] + xs[i] == xs[i] {
    }
  }

  /** The enumeration holds exactly the vectors of the denotation. */
  lemma {:induction false} EnumerateMembers(s: Storage, n: nat)
    requires Valid(s) && n < |s.table|
    ensures forall x :: x in Enumerate(s.table, n) <==> x in Denote(s.table, n)
    decreases n
  {
    if n >= 2 {
      var node := s.table[n];
      assert NodeOk(s, n);
      EnumerateMembers(s, node.down);
      EnumerateMembers(s, node.right);
      var pd := Prefixed([node.value], Enumerate(s.table, node.down));
      forall x ensures x in pd <==> x in Prepend(node.value, Denote(s.table, node.down)) {
        if x in pd {
          var i :| 0 <= i < |pd| && pd[i] == x;
          assert Enumerate(s.table, node.down)[i] in Enumerate(s.table, node.down);
        }
        if x in Prepend(node.value, Denote(s.table, node.down)) {
          var y :| y in Denote(s.table, node.down) && x == [node.value] + y;
          var i :| 0 <= i < |Enumerate(s.table, node.down)| && Enumerate(s.table, node.down)[i] == y;
          assert pd[i] == x;
        }
      }
    }
  }

  /** No element of a sequence occurs twice. */
  ghost predicate Distinct<T>(xs: seq<T>)
  {
    forall i, j | 0 <= i < j < |xs| :: xs[i] != xs[j]
  }

  /** The enumeration never yields a vector twice. */
  lemma {:induction false} EnumerateDistinct(s: Storage, n: nat)
    requires Valid(s) && n < |s.table|
    ensures Distinct(Enumerate(s.table, n))
    decreases n
  {
    if n >= 2 {
      var node := s.table[n];
      assert NodeOk(s, n);
      EnumerateDistinct(s, node.down);
      EnumerateDistinct(s, node.right);
      var er := Enumerate(s.table, node.right);
      if node.right != EmptySet {
        EnumerateMembers(s, node.right);
        DenoteHeads(s, node.right);
        forall k | 0 <= k < |er| ensures |er[k]| > 0 && er[k][0] > node.value {
          assert er[k] in er;
        }
      }
      DistinctJoin(node.value, Enumerate(s.table, node.down), er);
    }
  }

  /** A distinct list behind `v`, followed by a distinct list whose vectors all start above `v`, is distinct. */
  lemma DistinctJoin(v: u64, ed: seq<Vector>, er: seq<Vector>)
    requires Distinct(ed) && Distinct(er)
    requires forall k | 0 <= k < |er| :: |er[k]| > 0 && er[k][0] > v
    ensures Distinct(Prefixed([v], ed) + er)
  {
    var pd := Prefixed([v], ed);
    var xs := pd + er;
    forall i, j | 0 <= i < j < |xs| ensures xs[i] != xs[j] {
      if j < |pd| {
        assert xs[i][1..] == ed[i] && xs[j][1..] == ed[j];
      } else if i < |pd| {
        assert xs[i][0] == v && xs[j] == er[j - |pd|];
      } else {
        assert xs[i] == er[i - |pd|] && xs[j] == er[j - |pd|];
      }
    }
  }

  /** A sequence without repetitions has as many elements as its set. */
  lemma {:induction false} DistinctCardinality<T>(xs: seq<T>)
    requires Distinct(xs)
    ensures |set x | x in xs| == |xs|
    decreases |xs|
  {
    if xs != [] {
      var init := xs[..|xs| - 1];
      assert Distinct(init);
      DistinctCardinality(init);
      var last := xs[|xs| - 1];
      assert (set x | x in xs) == (set x | x in init) + {last};
      assert last !in (set x | x in init);
    }
  }

  // ---------------------------------------------------------------------------
  // The depth-first iterator

  /** The state of `iter`: the values along the current path and the DFS stack. */
  datatype Iter = Iter(vector: Vector, stack: seq<nat>)

  /** The stack only ever holds inner nodes of the table. */
  ghost predicate StackOk(s: Storage, stack: seq<nat>)
  {
    forall i | 0 <= i < |stack| :: 2 <= stack[i] < |s.table|
  }

  /** The values of the nodes on a path. */
  ghost function Values(t: seq<Node>, path: seq<nat>): Vector
    requires forall i | 0 <= i < |path| :: path[i] < |t|
  {
    if path == [] then [] else Values(t, path[..|path| - 1]) + [t[path[|path| - 1]].value]
  }

  /** A path has one value per node. */
  lemma {:induction false} ValuesLength(t: seq<Node>, path: seq<nat>)
    requires forall i | 0 <= i < |path| :: path[i] < |t|
    ensures |Values(t, path)| == |path|
    decreases |path|
  {
    if path != [] {
      ValuesLength(t, path[..|path| - 1]);
    }
  }

  /** The vectors still to come once the subtree of every stack entry has been finished. */
  ghost function After(t: seq<Node>, stack: seq<nat>): seq<Vector>
    requires forall i | 0 <= i < |stack| :: stack[i] < |t|
  {
    if stack == [] then []
    else
      var k := |stack| - 1;
      Prefixed(Values(t, stack[..k]), Enumerate(t, t[stack[k]].right)) + After(t, stack[..k])
  }

  /** The vectors `next` will still yield from a state whose top entry has not been visited. */
  ghost function Remaining(t: seq<Node>, stack: seq<nat>): seq<Vector>
    requires forall i | 0 <= i < |stack| :: stack[i] < |t|
  {
    if stack == [] then []
    else
      var k := |stack| - 1;
      Prefixed(Values(t, stack[..k]), Enumerate(t, stack[k])) + After(t, stack[..k])
  }

  /** Between calls the vector holds the values of all stack entries but the top one. */
  ghost predicate IterInv(s: Storage, it: Iter)
  {
    && Valid(s) && StackOk(s, it.stack)
    && (if it.stack == [] then it.vector == [] else it.vector == Values(s.table, it.stack[..|it.stack| - 1]))
  }

  /** `iter(ldd)`: an empty stack for the empty set, otherwise the root alone. */
  function IterNew(s: Storage, ldd: nat): (it: Iter)
    requires Valid(s) && ldd < |s.table| && ldd != EmptyVector
    ensures IterInv(s, it)
    ensures ldd == EmptySet ==> it.stack == []
    ensures Remaining(s.table, it.stack) == Enumerate(s.table, ldd)
  {
    if ldd == EmptySet then
      Iter([], [])
    else
      assert [ldd][..0] == [];
      PrefixedEmpty(Enumerate(s.table, ldd));
      Iter([], [ldd])
  }

  /** Going down to a non-terminal `down` child leaves the vectors still to come unchanged. */
  lemma Descend(s: Storage, stack: seq<nat>)
    requires Valid(s) && StackOk(s, stack) && stack != []
    requires s.table[stack[|stack| - 1]].down != EmptyVector
    ensures StackOk(s, stack + [s.table[stack[|stack| - 1]].down])
    ensures Remaining(s.table, stack + [s.table[stack[|stack| - 1]].down]) == Remaining(s.table, stack)
  {
    var k := |stack| - 1;
    var n := stack[k];
    var node := s.table[n];
    assert NodeOk(s, n);
    var p := stack[..k];
    var st := stack + [node.down];
    assert st[..|stack|] == stack;
    assert stack[..k] == p;
    var vp := Values(s.table, p);
    var ed, er, ap := Enumerate(s.table, node.down), Enumerate(s.table, node.right), After(s.table, p);
    assert Values(s.table, stack) == vp + [node.value];
    assert Enumerate(s.table, n) == Prefixed([node.value], ed) + er;
    assert Remaining(s.table, stack) == Prefixed(vp, Enumerate(s.table, n)) + ap;
    assert After(s.table, stack) == Prefixed(vp, er) + ap;
    assert Remaining(s.table, st) == Prefixed(vp + [node.value], ed) + After(s.table, stack);
    PrefixedConcat(vp, Prefixed([node.value], ed), er);
    PrefixedPrefixed(vp, [node.value], ed);
    ConcatAssoc(Prefixed(vp + [node.value], ed), Prefixed(vp, er), ap);
  }

  /** The shape facts of one descent: the old stack is the prefix, the path gains the top's value, the child is smaller. */
  lemma DescendPath(s: Storage, stack: seq<nat>)
    requires Valid(s) && StackOk(s, stack) && stack != []
    ensures (stack + [s.table[stack[|stack| - 1]].down])[..|stack|] == stack
    ensures Values(s.table, stack) == Values(s.table, stack[..|stack| - 1]) + [s.table[stack[|stack| - 1]].value]
    ensures s.table[stack[|stack| - 1]].down < stack[|stack| - 1]
  {
    assert NodeOk(s, stack[|stack| - 1]);
  }

  /** The enumeration of an inner node: its `down` vectors behind its value, then its right siblings'. */
  lemma EnumerateNode(s: Storage, n: nat)
    requires Valid(s) && 2 <= n < |s.table|
    ensures Enumerate(s.table, n) ==
      Prefixed([s.table[n].value], Enumerate(s.table, s.table[n].down)) + Enumerate(s.table, s.table[n].right)
  {
    assert NodeOk(s, n);
  }

  /** An inner node whose `down` is the empty vector enumerates its own value first. */
  lemma EnumerateLeaf(s: Storage, n: nat)
    requires Valid(s) && 2 <= n < |s.table| && s.table[n].down == EmptyVector
    ensures Enumerate(s.table, n) == [[s.table[n].value]] + Enumerate(s.table, s.table[n].right)
  {
    var v := s.table[n].value;
    EnumerateNode(s, n);
    assert Enumerate(s.table, EmptyVector) == [[]];
    PrefixedSingle([v], []);
    assert [v] + [] == [v];
  }

  /** A top entry whose `down` is the empty vector completes the vector of values on the stack. */
  lemma Found(s: Storage, stack: seq<nat>)
    requires Valid(s) && StackOk(s, stack) && stack != []
    requires s.table[stack[|stack| - 1]].down == EmptyVector
    ensures Remaining(s.table, stack) == [Values(s.table, stack)] + After(s.table, stack)
  {
    var k := |stack| - 1;
    var n := stack[k];
    var v := s.table[n].value;
    var p := stack[..k];
    var vp := Values(s.table, p);
    var er := Enumerate(s.table, s.table[n].right);
    assert Prefixed(vp, Enumerate(s.table, n)) == [vp + [v]] + Prefixed(vp, er) by {
      EnumerateLeaf(s, n);
      PrefixedConcat(vp, [[v]], er);
      PrefixedSingle(vp, [v]);
    }
    assert Remaining(s.table, stack) == Prefixed(vp, Enumerate(s.table, n)) + After(s.table, p);
    assert After(s.table, stack) == Prefixed(vp, er) + After(s.table, p);
    assert Values(s.table, stack) == vp + [v];
    ConcatAssoc([vp + [v]], Prefixed(vp, er), After(s.table, p));
  }

  lemma ConcatAssoc<T>(a: seq<T>, b: seq<T>, c: seq<T>)
    ensures (a + b) + c == a + (b + c)
  {
  }

  /** Popping an entry whose right sibling is the empty set leaves nothing of that entry to come. */
  lemma AdvanceEmpty(s: Storage, stack: seq<nat>)
    requires Valid(s) && StackOk(s, stack) && stack != []
    requires s.table[stack[|stack| - 1]].right == EmptySet
    ensures After(s.table, stack) == After(s.table, stack[..|stack| - 1])
  {
    var k := |stack| - 1;
    var vp := Values(s.table, stack[..k]);
    assert Enumerate(s.table, EmptySet) == [];
    assert Prefixed(vp, []) == [];
  }

  /** Popping an entry and pushing its right sibling, which is not the empty set, leaves the same vectors to come. */
  lemma AdvanceRight(s: Storage, stack: seq<nat>)
    requires Valid(s) && StackOk(s, stack) && stack != []
    requires s.table[stack[|stack| - 1]].right != EmptySet
    ensures StackOk(s, stack[..|stack| - 1] + [s.table[stack[|stack| - 1]].right])
    ensures After(s.table, stack) == Remaining(s.table, stack[..|stack| - 1] + [s.table[stack[|stack| - 1]].right])
  {
    var k := |stack| - 1;
    var n := stack[k];
    assert NodeOk(s, n);
    var r := s.table[n].right;
    var st := stack[..k] + [r];
    assert st[..k] == stack[..k];
  }

  /**
    `Iter::next`: descends along `down` until it reaches the empty vector, then
    climbs the stack to the first entry with a right sibling and pushes that
    sibling. It yields the first of the vectors still to come.
   */
  method IterNext(s: Storage, it: Iter) returns (r: Option<Vector>, it': Iter)
    requires IterInv(s, it)
    ensures IterInv(s, it')
    ensures it.stack == [] ==> r == None && it' == it
    ensures it.stack != [] ==> r.Some? && Remaining(s.table, it.stack) == [r.value] + Remaining(s.table, it'.stack)
  {
    if it.stack == [] {
      return None, it;
    }
    var stack, vector, found := GoDown(s, it.stack, it.vector);
    stack, vector := GoUp(s, stack, vector, found, Remaining(s.table, it.stack));
    r := Some(found);
    it' := Iter(vector, stack);
  }

  /** The first loop of `next`: follows `down` children until one is 'true', collecting the values. */
  method GoDown(s: Storage, stack0: seq<nat>, vector0: Vector) returns (stack: seq<nat>, vector: Vector, found: Vector)
    requires Valid(s) && stack0 != [] && StackOk(s, stack0)
    requires vector0 == Values(s.table, stack0[..|stack0| - 1])
    ensures StackOk(s, stack) && vector == Values(s.table, stack) && found == vector
    ensures Remaining(s.table, stack0) == [found] + After(s.table, stack)
  {
    stack, vector := stack0, vector0;
    while s.table[stack[|stack| - 1]].down != EmptyVector
      invariant stack != [] && StackOk(s, stack)
      invariant vector == Values(s.table, stack[..|stack| - 1])
      invariant Remaining(s.table, stack) == Remaining(s.table, stack0)
      decreases stack[|stack| - 1]
    {
      var node := Get(s, stack[|stack| - 1]);
      Descend(s, stack);
      DescendPath(s, stack);
      vector := vector + [node.value];
      stack := stack + [node.down];
    }
    var node := Get(s, stack[|stack| - 1]);
    vector := vector + [node.value];
    assert vector == Values(s.table, stack);
    found := vector;
    Found(s, stack);
  }

  /** The second loop of `next`: pops finished entries until one has a right sibling other than 'false'. */
  method GoUp(s: Storage, stack0: seq<nat>, vector0: Vector, found: Vector, ghost remaining: seq<Vector>)
      returns (stack: seq<nat>, vector: Vector)
    requires Valid(s) && StackOk(s, stack0) && vector0 == Values(s.table, stack0)
    requires remaining == [found] + After(s.table, stack0)
    ensures StackOk(s, stack)
    ensures if stack == [] then vector == [] else vector == Values(s.table, stack[..|stack| - 1])
    ensures remaining == [found] + Remaining(s.table, stack)
  {
    stack, vector := stack0, vector0;
    while stack != []
      invariant StackOk(s, stack) && vector == Values(s.table, stack)
      invariant remaining == [found] + After(s.table, stack)
      decreases |stack|
    {
      var k := |stack| - 1;
      var node := Get(s, stack[k]);
      Pop(s, stack, vector);
      if node.right != EmptySet {
        stack, vector := stack[..k] + [node.right], vector[..k];
        return;
      }
      stack, vector := stack[..k], vector[..k];
    }
  }

  /**
    One round of the second loop of `next`, on the top entry: the stack below
    it and its values are a path again, and what was still to come is what
    comes after the popped stack, or what its right sibling and the popped
    stack hold when that sibling is not 'false'.
   */
  lemma Pop(s: Storage, stack: seq<nat>, vector: Vector)
    requires Valid(s) && StackOk(s, stack) && stack != [] && vector == Values(s.table, stack)
    ensures var k, r := |stack| - 1, s.table[stack[|stack| - 1]].right;
      && |vector| == |stack| && vector[..k] == Values(s.table, stack[..k]) && StackOk(s, stack[..k])
      && (r == EmptySet ==> After(s.table, stack) == After(s.table, stack[..k]))
      && (r != EmptySet ==>
            && StackOk(s, stack[..k] + [r]) && (stack[..k] + [r])[..k] == stack[..k]
            && After(s.table, stack) == Remaining(s.table, stack[..k] + [r]))
  {
    var k := |stack| - 1;
    ValuesLength(s.table, stack);
    if s.table[stack[k]].right == EmptySet {
      AdvanceEmpty(s, stack);
    } else {
      AdvanceRight(s, stack);
    }
  }

  /**
    Runs `iter(ldd)` to the end: every vector of `[[ldd]]` comes out exactly
    once, so the number of iterations is the size of the set.
   */
  method IterAll(s: Storage, ldd: nat) returns (out: seq<Vector>)
    requires Valid(s) && ldd < |s.table| && ldd != EmptyVector
    ensures out == Enumerate(s.table, ldd)
    ensures forall x :: x in out <==> x in Denote(s.table, ldd)
    ensures Distinct(out)
    ensures |out| == |Denote(s.table, ldd)|
    ensures ldd == EmptySet ==> out == []
  {
    var it := IterNew(s, ldd);
    out := [];
    while true
      invariant IterInv(s, it)
      invariant Enumerate(s.table, ldd) == out + Remaining(s.table, it.stack)
      decreases |Remaining(s.table, it.stack)|
    {
      var r, it' := IterNext(s, it);
      if r.None? {
        break;
      }
      out := out + [r.value];
      it := it';
    }
    assert out == Enumerate(s.table, ldd);
    EnumerateCount(s, ldd);
  }

  /** The enumeration lists `[[n]]` without repetitions, so its length is the size of the set. */
  lemma EnumerateCount(s: Storage, n: nat)
    requires Valid(s) && n < |s.table|
    ensures forall x :: x in Enumerate(s.table, n) <==> x in Denote(s.table, n)
    ensures Distinct(Enumerate(s.table, n))
    ensures |Enumerate(s.table, n)| == |Denote(s.table, n)|
  {
    var xs := Enumerate(s.table, n);
    EnumerateMembers(s, n);
    EnumerateDistinct(s, n);
    DistinctCardinality(xs);
    assert (set x | x in xs) == Denote(s.table, n);
  }

  /** Iterating a singleton yields exactly its one vector. */
  lemma SingletonEnumerates(s: Storage, v: Vector)
    requires Valid(s)
    ensures Enumerate(Operations.Singleton(s, v).0.table, Operations.Singleton(s, v).1) == [v]
  {
    var (s', n) := Operations.Singleton(s, v);
    EnumerateCount(s', n);
    var xs := Enumerate(s'.table, n);
    assert |xs| == 1;
    assert xs[0] in xs;
  }

  // ---------------------------------------------------------------------------
  // `iter` on the 'true' node

  /**
    The first loop of `next` as written, for at most `fuel` rounds: it pushes
    `down` children until one is the 'true' node. `None` means the loop has not
    stopped within `fuel` rounds.
   */
  function DescendAsWritten(s: Storage, stack: seq<nat>, fuel: nat): Option<seq<nat>>
    requires Valid(s) && forall i | 0 <= i < |stack| :: stack[i] < |s.table|
    decreases fuel
  {
    if stack == [] then Some([])
    else
      var top := stack[|stack| - 1];
      var down := s.table[top].down;
      if down == EmptyVector then Some(stack)
      else if fuel == 0 then None
      else
        assert top >= 2 ==> NodeOk(s, top);
        DescendAsWritten(s, stack + [down], fuel - 1)
  }

  /**
    From a stack whose top is a terminal the loop never stops: both terminals
    store the triple `(0, 0, 0)`, so it keeps pushing the 'false' node.
   */
  lemma {:induction false} TerminalNeverStops(s: Storage, stack: seq<nat>, fuel: nat)
    requires Valid(s) && stack != [] && forall i | 0 <= i < |stack| :: stack[i] < |s.table|
    requires stack[|stack| - 1] <= EmptyVector
    ensures DescendAsWritten(s, stack, fuel) == None
    decreases fuel
  {
    if fuel > 0 {
      TerminalNeverStops(s, stack + [EmptySet], fuel - 1);
    }
  }

  /** `iter(true)` as written: the first call of `next` does not return, however long it runs. */
  lemma IterTrueAsWritten(s: Storage, fuel: nat)
    requires Valid(s)
    ensures DescendAsWritten(s, [EmptyVector], fuel) == None
  {
    TerminalNeverStops(s, [EmptyVector], fuel);
  }

  /**
    Iterating any LDD, the 'true' node included: for 'true' the one empty
    vector, otherwise the stack-driven iterator.
   */
  method IterVectors(s: Storage, ldd: nat) returns (out: seq<Vector>)
    requires Valid(s) && ldd < |s.table|
    ensures out == Enumerate(s.table, ldd)
    ensures forall x :: x in out <==> x in Denote(s.table, ldd)
    ensures Distinct(out)
    ensures |out| == |Denote(s.table, ldd)|
    ensures ldd == EmptyVector ==> out == [[]]
  {
    if ldd == EmptyVector {
      out := [[]];
      EnumerateCount(s, ldd);
    } else {
      out := IterAll(s, ldd);
    }
  }
}
