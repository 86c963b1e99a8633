/** The set operations on LDDs: singleton, union and membership. */
module Operations {
  import opened Wrappers
  import opened Storage

  /**
    `{ v }`: inserts the values of `v` from last to first, each on top of the
    previous result with an empty right sibling list.
   */
  function Singleton(s: Storage, v: Vector): (res: (Storage, nat))
    requires Valid(s)
    ensures Valid(res.0) && Extends(s, res.0) && res.1 < |res.0.table|
    ensures Denote(res.0.table, res.1) == {v}
    ensures res.0.height[res.1] == |v|
    ensures |v| == 0 ==> res == (s, EmptyVector)
    decreases |v|
  {
    if |v| == 0 then
      (s, EmptyVector)
    else
      var (s1, down) := Singleton(s, v[1..]);
      SingletonStep(s1, v, down);
      Insert(s1, v[0], down, EmptySet)
  }

  /** Putting `v[0]` in front of the handle of `{v[1..]}`, with no right sibling, is allowed and gives `{v}`. */
  lemma SingletonStep(s: Storage, v: Vector, down: nat)
    requires Valid(s) && |v| > 0 && down < |s.table| && Denote(s.table, down) == {v[1..]}
    ensures InsertAllowed(s, v[0], down, EmptySet)
    ensures Prepend(v[0], Denote(s.table, down)) + Denote(s.table, EmptySet) == {v}
  {
    DenoteEmpty(s, down);
    assert [v[0]] + v[1..] == v;
    assert Prepend(v[0], {v[1..]}) == {v};
  }

  /**
    `singleton` as the source computes it: starting from the empty vector,
    it inserts the values from last to first, each with the empty set as its
    right sibling. It builds exactly the storage and node of `Singleton`.
   */
  method SingletonLoop(s: Storage, v: Vector) returns (s': Storage, root: nat)
    requires Valid(s)
    ensures (s', root) == Singleton(s, v)
    ensures Valid(s') && Extends(s, s') && root < |s'.table|
    ensures Denote(s'.table, root) == {v}
  {
    s', root := s, EmptyVector;
    var i := |v|;
    assert v[|v|..] == [];
    while i > 0
      invariant 0 <= i <= |v|
      invariant (s', root) == Singleton(s, v[i..])
    {
      i := i - 1;
      assert v[i..][1..] == v[i + 1..];
      assert root != EmptySet by { DenoteEmpty(s', root); }
      var step := Insert(s', v[i], root, EmptySet);
      s', root := step.0, step.1;
    }
    assert v[0..] == v;
  }

  /**
    What `union(a, b)` promises: the result denotes `[[a]] + [[b]]` in a valid
    extension of the storage, together with the shape facts (emptiness, height
    and head value) that let the caller pass its own `insert` checks.
   */
  ghost predicate IsUnion(s: Storage, a: nat, b: nat, res: (Storage, nat))
    requires Valid(s) && a < |s.table| && b < |s.table|
  {
    && Valid(res.0) && Extends(s, res.0) && res.1 < |res.0.table|
    && Denote(res.0.table, res.1) == Denote(s.table, a) + Denote(s.table, b)
    && (res.1 == EmptySet <==> a == EmptySet && b == EmptySet)
    && (res.1 == EmptyVector ==> a == EmptyVector || b == EmptyVector)
    && (res.1 != EmptySet ==> res.0.height[res.1] == (if a != EmptySet then s.height[a] else s.height[b]))
    && (res.1 >= 2 ==>
          || (a >= 2 && res.0.table[res.1].value == s.table[a].value)
          || (b >= 2 && res.0.table[res.1].value == s.table[b].value))
  }

  /** The operands of `union` that operations must accept: both empty-set-or-of-equal-height. */
  ghost predicate UnionArgs(s: Storage, a: nat, b: nat)
  {
    && Valid(s) && a < |s.table| && b < |s.table|
    && (a == EmptySet || b == EmptySet || s.height[a] == s.height[b])
  }

  /** Union of two LDDs, by merging their sorted sibling lists. */
  function Union(s: Storage, a: nat, b: nat): (res: (Storage, nat))
    requires UnionArgs(s, a, b)
    ensures IsUnion(s, a, b, res)
    ensures a == b ==> res == (s, a)
    ensures a == EmptySet ==> res == (s, b)
    ensures b == EmptySet ==> res == (s, a)
    decreases a + b, 1
  {
    if a == b then
      (s, a)
    else if a == EmptySet then
      DenoteEmpty(s, b);
      (s, b)
    else if b == EmptySet then
      DenoteEmpty(s, a);
      (s, a)
    else
      BothNodes(s, a, b);
      if s.table[a].value < s.table[b].value then
        UnionLess(s, a, b)
      else if s.table[a].value == s.table[b].value then
        UnionEqual(s, a, b)
      else
        UnionGreater(s, a, b)
  }

  /** Two distinct non-empty operands of equal height are both inner nodes. */
  lemma BothNodes(s: Storage, a: nat, b: nat)
    requires UnionArgs(s, a, b) && a != b && a != EmptySet && b != EmptySet
    ensures a >= 2 && b >= 2
  {
    if a >= 2 { assert NodeOk(s, a); }
    if b >= 2 { assert NodeOk(s, b); }
  }

  /** The operands of one recursive step of `union`: two inner nodes of equal height. */
  ghost predicate NodeArgs(s: Storage, a: nat, b: nat)
  {
    UnionArgs(s, a, b) && a >= 2 && b >= 2
  }

  /** `value(a) < value(b)`: keep `a`'s head and merge its right siblings with `b`. */
  function UnionLess(s: Storage, a: nat, b: nat): (res: (Storage, nat))
    requires NodeArgs(s, a, b) && s.table[a].value < s.table[b].value
    ensures IsUnion(s, a, b, res)
    decreases a + b, 0
  {
    var na := s.table[a];
    assert NodeOk(s, a) && NodeOk(s, b);
    var p := Union(s, na.right, b);
    LessStep(s, a, b, p);
    Insert(p.0, na.value, na.down, p.1)
  }

  /** The recursive result of the smaller-head case meets `insert`'s checks and yields the union. */
  lemma LessStep(s: Storage, a: nat, b: nat, p: (Storage, nat))
    requires NodeArgs(s, a, b) && s.table[a].value < s.table[b].value
    requires NodeOk(s, a) && NodeOk(s, b)
    requires IsUnion(s, s.table[a].right, b, p)
    ensures InsertAllowed(p.0, s.table[a].value, s.table[a].down, p.1)
    ensures IsUnion(s, a, b, Insert(p.0, s.table[a].value, s.table[a].down, p.1))
  {
    DenoteFrame(s.table, p.0.table, s.table[a].down);
  }

  /** `value(a) == value(b)`: one head whose `down` and `right` are the unions of both. */
  function UnionEqual(s: Storage, a: nat, b: nat): (res: (Storage, nat))
    requires NodeArgs(s, a, b) && s.table[a].value == s.table[b].value
    ensures IsUnion(s, a, b, res)
    decreases a + b, 0
  {
    var na, nb := s.table[a], s.table[b];
    assert NodeOk(s, a) && NodeOk(s, b);
    var p1 := Union(s, na.down, nb.down);
    EqualRightArgs(s, a, b, p1);
    var p2 := Union(p1.0, na.right, nb.right);
    EqualStep(s, a, b, p1, p2);
    Insert(p2.0, na.value, p1.1, p2.1)
  }

  /** After merging the `down` children, the right siblings are unchanged and still of equal height. */
  lemma EqualRightArgs(s: Storage, a: nat, b: nat, p1: (Storage, nat))
    requires NodeArgs(s, a, b) && NodeOk(s, a) && NodeOk(s, b)
    requires IsUnion(s, s.table[a].down, s.table[b].down, p1)
    ensures UnionArgs(p1.0, s.table[a].right, s.table[b].right)
    ensures Denote(p1.0.table, s.table[a].right) == Denote(s.table, s.table[a].right)
    ensures Denote(p1.0.table, s.table[b].right) == Denote(s.table, s.table[b].right)
    ensures p1.0.height[s.table[a].right] == s.height[s.table[a].right]
    ensures p1.0.height[s.table[b].right] == s.height[s.table[b].right]
    ensures p1.0.table[s.table[a].right] == s.table[s.table[a].right]
    ensures p1.0.table[s.table[b].right] == s.table[s.table[b].right]
  {
    DenoteFrame(s.table, p1.0.table, s.table[a].right);
    DenoteFrame(s.table, p1.0.table, s.table[b].right);
  }

  /** The recursive results of the equal-heads case meet `insert`'s checks and yield the union. */
  lemma EqualStep(s: Storage, a: nat, b: nat, p1: (Storage, nat), p2: (Storage, nat))
    requires NodeArgs(s, a, b) && s.table[a].value == s.table[b].value
    requires NodeOk(s, a) && NodeOk(s, b)
    requires IsUnion(s, s.table[a].down, s.table[b].down, p1)
    requires UnionArgs(p1.0, s.table[a].right, s.table[b].right)
    requires IsUnion(p1.0, s.table[a].right, s.table[b].right, p2)
    ensures InsertAllowed(p2.0, s.table[a].value, p1.1, p2.1)
    ensures IsUnion(s, a, b, Insert(p2.0, s.table[a].value, p1.1, p2.1))
  {
    EqualRightArgs(s, a, b, p1);
    EqualStepChecks(s, a, b, p1, p2);
    var na, nb := s.table[a], s.table[b];
    DenoteFrame(p1.0.table, p2.0.table, p1.1);
    MergeEqualHeads(na.value, Denote(p2.0.table, p1.1), Denote(p2.0.table, p2.1),
      Denote(s.table, na.down), Denote(s.table, nb.down), Denote(s.table, na.right), Denote(s.table, nb.right));
    var res := Insert(p2.0, na.value, p1.1, p2.1);
    assert Denote(res.0.table, res.1) == Denote(s.table, a) + Denote(s.table, b);
    ExtendsTrans(s, p1.0, p2.0);
    ExtendsTrans(s, p2.0, res.0);
  }

  /** The `insert` checks of the equal-heads case. */
  lemma EqualStepChecks(s: Storage, a: nat, b: nat, p1: (Storage, nat), p2: (Storage, nat))
    requires NodeArgs(s, a, b) && s.table[a].value == s.table[b].value
    requires NodeOk(s, a) && NodeOk(s, b)
    requires IsUnion(s, s.table[a].down, s.table[b].down, p1)
    requires UnionArgs(p1.0, s.table[a].right, s.table[b].right)
    requires p1.0.height[s.table[a].right] == s.height[s.table[a].right]
    requires IsUnion(p1.0, s.table[a].right, s.table[b].right, p2)
    ensures InsertAllowed(p2.0, s.table[a].value, p1.1, p2.1)
    ensures p2.0.height[p1.1] + 1 == s.height[a]
  {
    assert p2.0.height[p1.1] == p1.0.height[p1.1];
  }

  /** The set algebra of the equal-heads case. */
  lemma MergeEqualHeads(v: u64, d: set<Vector>, r: set<Vector>,
                        ad: set<Vector>, bd: set<Vector>, ar: set<Vector>, br: set<Vector>)
    requires d == ad + bd && r == ar + br
    ensures Prepend(v, d) + r == (Prepend(v, ad) + ar) + (Prepend(v, bd) + br)
  {
    PrependUnion(v, ad, bd);
  }

  /** `value(a) > value(b)`: keep `b`'s head and merge `a` with `b`'s right siblings. */
  function UnionGreater(s: Storage, a: nat, b: nat): (res: (Storage, nat))
    requires NodeArgs(s, a, b) && s.table[a].value > s.table[b].value
    ensures IsUnion(s, a, b, res)
    decreases a + b, 0
  {
    var nb := s.table[b];
    assert NodeOk(s, a) && NodeOk(s, b);
    var p := Union(s, a, nb.right);
    GreaterStep(s, a, b, p);
    Insert(p.0, nb.value, nb.down, p.1)
  }

  /** The recursive result of the larger-head case meets `insert`'s checks and yields the union. */
  lemma GreaterStep(s: Storage, a: nat, b: nat, p: (Storage, nat))
    requires NodeArgs(s, a, b) && s.table[a].value > s.table[b].value
    requires NodeOk(s, a) && NodeOk(s, b)
    requires IsUnion(s, a, s.table[b].right, p)
    ensures InsertAllowed(p.0, s.table[b].value, s.table[b].down, p.1)
    ensures IsUnion(s, a, b, Insert(p.0, s.table[b].value, s.table[b].down, p.1))
  {
    DenoteFrame(s.table, p.0.table, s.table[b].down);
  }

  lemma PrependUnion(v: u64, xs: set<Vector>, ys: set<Vector>)
    ensures Prepend(v, xs + ys) == Prepend(v, xs) + Prepend(v, ys)
  {
  }

  /**
    `union` as written: no check that the operands have the same height, and
    each `insert` assertion is a check, `None` where the source panics. The
    terminals store `(0, 0, 0)`, so a terminal operand is read as a node with
    value 0 and both children 'false'.
   */
  function UnionAsWritten(s: Storage, a: nat, b: nat): (res: Option<(Storage, nat)>)
    requires Valid(s) && a < |s.table| && b < |s.table|
    ensures res.Some? ==> Valid(res.value.0) && Extends(s, res.value.0) && res.value.1 < |res.value.0.table|
    decreases a + b
  {
    if a == b then Some((s, a))
    else if a == EmptySet then Some((s, b))
    else if b == EmptySet then Some((s, a))
    else
      var na, nb := s.table[a], s.table[b];
      ChildrenBelow(s, a);
      ChildrenBelow(s, b);
      if na.value < nb.value then
        match UnionAsWritten(s, na.right, b)
        case None => None
        case Some(p) => InsertChecked(s, p, na.value, na.down)
      else if na.value == nb.value then
        match UnionAsWritten(s, na.down, nb.down)
        case None => None
        case Some(p1) =>
          match UnionAsWritten(p1.0, na.right, nb.right)
          case None => None
          case Some(p2) =>
            ExtendsTrans(s, p1.0, p2.0);
            if InsertAllowed(p2.0, na.value, p1.1, p2.1) then
              var res := Insert(p2.0, na.value, p1.1, p2.1);
              ExtendsTrans(s, p2.0, res.0);
              Some(res)
            else None
      else
        match UnionAsWritten(s, a, nb.right)
        case None => None
        case Some(p) => InsertChecked(s, p, nb.value, nb.down)
  }

  /** `insert(value, down, p.1)` in the storage `p.0` grown from `s`, or `None` where it would panic. */
  function InsertChecked(s: Storage, p: (Storage, nat), value: u64, down: nat): (res: Option<(Storage, nat)>)
    requires Valid(s) && Valid(p.0) && Extends(s, p.0) && p.1 < |p.0.table|
    ensures res.Some? ==> Valid(res.value.0) && Extends(s, res.value.0) && res.value.1 < |res.value.0.table|
    ensures res.Some? <==> InsertAllowed(p.0, value, down, p.1)
  {
    if InsertAllowed(p.0, value, down, p.1) then
      var res := Insert(p.0, value, down, p.1);
      ExtendsTrans(s, p.0, res.0);
      Some(res)
    else None
  }

  /** The children of a node other than 'false' are smaller handles; the terminal 'true' stores 0 for both. */
  lemma ChildrenBelow(s: Storage, a: nat)
    requires Valid(s) && 1 <= a < |s.table|
    ensures s.table[a].down < a && s.table[a].right < a
  {
    if a >= 2 { assert NodeOk(s, a); }
  }

  /** On operands of equal height, `union` as written never panics and computes what `Union` does. */
  lemma {:induction false} UnionAsWrittenAgrees(s: Storage, a: nat, b: nat)
    requires UnionArgs(s, a, b)
    ensures UnionAsWritten(s, a, b) == Some(Union(s, a, b))
    decreases a + b, 1
  {
    if a != b && a != EmptySet && b != EmptySet {
      BothNodes(s, a, b);
      var na, nb := s.table[a], s.table[b];
      assert NodeOk(s, a) && NodeOk(s, b);
      if na.value < nb.value {
        UnionAsWrittenAgrees(s, na.right, b);
        LessStep(s, a, b, Union(s, na.right, b));
      } else if na.value == nb.value {
        EqualAgrees(s, a, b);
      } else {
        UnionAsWrittenAgrees(s, a, nb.right);
        GreaterStep(s, a, b, Union(s, a, nb.right));
      }
    }
  }

  /** The equal-heads case of `UnionAsWrittenAgrees`. */
  lemma {:induction false} EqualAgrees(s: Storage, a: nat, b: nat)
    requires NodeArgs(s, a, b) && a != b && s.table[a].value == s.table[b].value
    ensures UnionAsWritten(s, a, b) == Some(Union(s, a, b))
    decreases a + b, 0
  {
    var na, nb := s.table[a], s.table[b];
    assert NodeOk(s, a) && NodeOk(s, b);
    UnionAsWrittenAgrees(s, na.down, nb.down);
    var p1 := Union(s, na.down, nb.down);
    EqualRightArgs(s, a, b, p1);
    UnionAsWrittenAgrees(p1.0, na.right, nb.right);
    var p2 := Union(p1.0, na.right, nb.right);
    EqualStep(s, a, b, p1, p2);
    var res := Insert(p2.0, na.value, p1.1, p2.1);
    assert Union(s, a, b) == res;
    assert UnionAsWritten(s, a, b) == Some(res);
  }

  /**
    With operands of different heights, `union` as written loses vectors: the
    union of 'true' (`{<>}`) and `{<0>}` is the node of `{<0>}` itself, which
    does not hold the empty vector.
   */
  lemma UnionMixedHeightsAsWritten()
    ensures var (s, n) := Insert(New(), 0, EmptyVector, EmptySet);
      && UnionAsWritten(s, EmptyVector, n) == Some((s, n))
      && Denote(s.table, n) == {[0]}
      && [] in Denote(s.table, EmptyVector) + Denote(s.table, n)
      && [] !in Denote(s.table, n)
  {
    var (s, n) := Insert(New(), 0, EmptyVector, EmptySet);
    assert Denote(s.table, n) == {[0]} by {
      assert Denote(New().table, EmptyVector) == {[]};
      assert [0] + [] == [0];
      assert forall x | x in Prepend(0, {[]}) :: x == [0];
      assert [0] in Prepend(0, {[]});
    }
    assert Indexed(s, n);
  }

  /** Membership of `v` in an LDD; a vector of the wrong length is never a member. */
  function ElementOf(s: Storage, v: Vector, n: nat): (r: bool)
    requires Valid(s) && n < |s.table|
    ensures r <==> v in Denote(s.table, n)
    ensures |v| == 0 ==> (r <==> n == EmptyVector)
    decreases n, 1
  {
    if |v| == 0 then
      assert v == [];
      assert v in Denote(s.table, n) <==> n == EmptyVector by {
        if n >= 2 { DenoteHeads(s, n); }
      }
      n == EmptyVector
    else if n == EmptyVector then
      false
    else
      ScanSiblings(s, v, n)
  }

  /**
    The loop over `iter_right(n)` inside `element_of`: stops with `false` as
    soon as a sibling's value exceeds `v[0]`, and descends on a match.
   */
  function ScanSiblings(s: Storage, v: Vector, n: nat): (r: bool)
    requires Valid(s) && n < |s.table| && n != EmptyVector && |v| > 0
    ensures r <==> v in Denote(s.table, n)
    decreases n, 0
  {
    if n == EmptySet then
      false
    else
      var node := s.table[n];
      ScanStep(s, v, n);
      if node.value == v[0] then
        ElementOf(s, v[1..], node.down)
      else if node.value > v[0] then
        false
      else
        ScanSiblings(s, v, node.right)
  }

  /** How the first entry of `v`, against a node's value, decides membership in the node. */
  lemma {:induction false} ScanStep(s: Storage, v: Vector, n: nat)
    requires Valid(s) && 2 <= n < |s.table| && |v| > 0
    ensures s.table[n].down < n && s.table[n].right < n && s.table[n].right != EmptyVector
    ensures s.table[n].value == v[0] ==> (v in Denote(s.table, n) <==> v[1..] in Denote(s.table, s.table[n].down))
    ensures s.table[n].value > v[0] ==> v !in Denote(s.table, n)
    ensures s.table[n].value < v[0] ==> (v in Denote(s.table, n) <==> v in Denote(s.table, s.table[n].right))
  {
    assert NodeOk(s, n);
    Decompose(s, n);
    DenoteHeads(s, n);
    assert v == [v[0]] + v[1..];
  }

  /** Vectors shorter or longer than the stored ones are never members. */
  lemma WrongLengthNotMember(s: Storage, v: Vector, n: nat)
    requires Valid(s) && n < |s.table| && n != EmptySet
    requires |v| != s.height[n]
    ensures !ElementOf(s, v, n)
  {
    DenoteLengths(s, n);
  }

  /** Membership in a union is membership in either operand. */
  lemma MemberUnion(s: Storage, a: nat, b: nat, v: Vector)
    requires UnionArgs(s, a, b)
    ensures var (s', r) := Union(s, a, b);
      ElementOf(s', v, r) <==> ElementOf(s, v, a) || ElementOf(s, v, b)
  {
  }

  /** Union is commutative: swapping the operands gives the same storage and the same handle. */
  lemma {:induction false} UnionCommutes(s: Storage, a: nat, b: nat)
    requires UnionArgs(s, a, b)
    ensures Union(s, a, b) == Union(s, b, a)
    decreases a + b
  {
    if a != b && a != EmptySet && b != EmptySet {
      var na, nb := s.table[a], s.table[b];
      BothNodes(s, a, b);
      assert NodeOk(s, a) && NodeOk(s, b);
      if na.value < nb.value {
        UnionCommutes(s, na.right, b);
      } else if na.value == nb.value {
        UnionCommutes(s, na.down, nb.down);
        var s1 := Union(s, na.down, nb.down).0;
        UnionCommutes(s1, na.right, nb.right);
      } else {
        UnionCommutes(s, a, nb.right);
      }
    }
  }
}
