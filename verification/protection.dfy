/**
  The protection set: a table of root slots `(node index, valid)` whose
  invalid slots form a free list threaded through the table itself. The list
  starts at `free`, each free slot holds the next free slot, and the last one
  points to itself. `Ldd` handles own one slot each.
 */
module Protection {
  import opened Wrappers

  /** The root table, the head of the free list and the number of `protect` calls so far. */
  datatype ProtectionSet = ProtectionSet(roots: seq<(nat, bool)>, free: Option<nat>, insertions: nat)

  /** `ProtectionSet::new`: no slots, an empty free list. */
  function NewSet(): (ps: ProtectionSet)
    ensures ps.roots == [] && ps.free == None && ps.insertions == 0
    ensures FreeList(ps, [])
  {
    ProtectionSet([], None, 0)
  }

  /** The slot `protect` may read: the free-list head has to lie inside the table. */
  predicate HeadInRange(ps: ProtectionSet)
  {
    ps.free.Some? ==> ps.free.value < |ps.roots|
  }

  /**
    `protect(index)`: takes the head of the free list, or a new slot at the end
    when the list is empty, stores `(index, true)` there and returns the slot.
   */
  function Protect(ps: ProtectionSet, index: nat): (r: (ProtectionSet, nat))
    requires HeadInRange(ps)
    ensures r.1 < |r.0.roots| && r.0.roots[r.1] == (index, true)
    ensures r.0.insertions == ps.insertions + 1
    ensures ps.free == None ==> r.1 == |ps.roots| && r.0.roots == ps.roots + [(index, true)] && r.0.free == None
    ensures ps.free.Some? ==> && r.1 == ps.free.value && |r.0.roots| == |ps.roots|
                              && (forall i | 0 <= i < |ps.roots| && i != r.1 :: r.0.roots[i] == ps.roots[i])
                              && r.0.free == (if ps.roots[r.1].0 == r.1 then None else Some(ps.roots[r.1].0))
  {
    var insertions := ps.insertions + 1;
    match ps.free
    case None =>
      (ProtectionSet(ps.roots + [(index, true)], None, insertions), |ps.roots|)
    case Some(first) =>
      var next := ps.roots[first];
      var free := if first == next.0 then None else Some(next.0);
      (ProtectionSet(ps.roots[first := (index, true)], free, insertions), first)
  }

  /**
    `unprotect(root)`: marks the slot invalid and makes it the new free-list
    head, linked to the old head, or to itself when the list was empty.
   */
  function Unprotect(ps: ProtectionSet, root: nat): (r: ProtectionSet)
    requires root < |ps.roots|
    ensures |r.roots| == |ps.roots| && r.free == Some(root) && r.insertions == ps.insertions
    ensures r.roots[root] == (if ps.free.Some? then ps.free.value else root, false)
    ensures forall i | 0 <= i < |ps.roots| && i != root :: r.roots[i] == ps.roots[i]
  {
    var link := match ps.free case None => root case Some(next) => next;
    ProtectionSet(ps.roots[root := (link, false)], Some(root), ps.insertions)
  }

  /**
    `chain` is the free list of `ps`: it starts at `free`, holds distinct
    slots of the table, each free slot links to the next, the last links to
    itself, and the free slots are exactly the invalid ones.
   */
  ghost predicate FreeList(ps: ProtectionSet, chain: seq<nat>)
  {
    && (ps.free == None <==> chain == [])
    && (chain != [] ==> ps.free == Some(chain[0]))
    && (forall k | 0 <= k < |chain| :: chain[k] < |ps.roots|)
    && (forall k, l | 0 <= k < l < |chain| :: chain[k] != chain[l])
    && (forall k | 0 <= k < |chain| - 1 :: ps.roots[chain[k]] == (chain[k + 1], false))
    && (chain != [] ==> ps.roots[chain[|chain| - 1]] == (chain[|chain| - 1], false))
    && (forall i | 0 <= i < |ps.roots| :: !ps.roots[i].1 <==> i in chain)
  }

  /** `protect` keeps the free list, shortened by its head, and hands out a slot that was free or new. */
  lemma ProtectKeeps(ps: ProtectionSet, chain: seq<nat>, index: nat)
    requires FreeList(ps, chain)
    ensures HeadInRange(ps)
    ensures FreeList(Protect(ps, index).0, if chain == [] then [] else chain[1..])
    ensures Protect(ps, index).1 == |ps.roots| || !ps.roots[Protect(ps, index).1].1
  {
    var (ps', r) := Protect(ps, index);
    if chain != [] {
      var rest := chain[1..];
      if |chain| > 1 {
        assert ps.roots[chain[0]].0 == chain[1] != chain[0];
      }
      forall i | 0 <= i < |ps'.roots| ensures !ps'.roots[i].1 <==> i in rest {
        if i != r {
          assert i in chain <==> i in rest;
        }
      }
      forall k | 0 <= k < |rest| - 1 ensures ps'.roots[rest[k]] == (rest[k + 1], false) {
        assert ps.roots[chain[k + 1]] == (chain[k + 2], false);
      }
    }
  }

  /** `unprotect` of a valid slot pushes it onto the free list. */
  lemma UnprotectKeeps(ps: ProtectionSet, chain: seq<nat>, root: nat)
    requires FreeList(ps, chain) && root < |ps.roots| && ps.roots[root].1
    ensures FreeList(Unprotect(ps, root), [root] + chain)
  {
    var ps' := Unprotect(ps, root);
    var chain' := [root] + chain;
    forall k | 0 <= k < |chain'| - 1 ensures ps'.roots[chain'[k]] == (chain'[k + 1], false) {
      if k > 0 {
        assert chain'[k] == chain[k - 1] && chain'[k + 1] == chain[k];
      }
    }
  }

  /** Last in, first out: `protect` straight after `unprotect(r)` returns `r` and restores the free list. */
  lemma Lifo(ps: ProtectionSet, r: nat, index: nat)
    requires r < |ps.roots| && ps.free != Some(r)
    ensures Protect(Unprotect(ps, r), index).1 == r
    ensures Protect(Unprotect(ps, r), index).0.roots == ps.roots[r := (index, true)]
    ensures Protect(Unprotect(ps, r), index).0.free == ps.free
  {
  }

  /** One call on the protection set. */
  datatype Call = ProtectCall(index: nat) | UnprotectCall(root: nat)

  /** Runs the calls in order; `None` when one of them would index outside the table. */
  ghost function Run(ps: ProtectionSet, calls: seq<Call>): Option<ProtectionSet>
    decreases |calls|
  {
    if calls == [] then Some(ps)
    else match calls[0]
      case ProtectCall(i) => if HeadInRange(ps) then Run(Protect(ps, i).0, calls[1..]) else None
      case UnprotectCall(root) => if root < |ps.roots| then Run(Unprotect(ps, root), calls[1..]) else None
  }

  /** Every `unprotect` in the run releases a slot that is valid at that moment, as a dropped handle does. */
  ghost predicate Releases(ps: ProtectionSet, calls: seq<Call>)
    decreases |calls|
  {
    calls != [] ==> match calls[0]
      case ProtectCall(i) => HeadInRange(ps) && Releases(Protect(ps, i).0, calls[1..])
      case UnprotectCall(root) => root < |ps.roots| && ps.roots[root].1 && Releases(Unprotect(ps, root), calls[1..])
  }

  /** A slot that no call unprotects keeps its entry, valid, through any run. */
  lemma {:induction false} StaysProtected(ps: ProtectionSet, chain: seq<nat>, calls: seq<Call>, j: nat)
    requires FreeList(ps, chain) && Releases(ps, calls)
    requires j < |ps.roots| && ps.roots[j].1
    requires forall k | 0 <= k < |calls| :: calls[k] != UnprotectCall(j)
    ensures Run(ps, calls).Some?
    ensures j < |Run(ps, calls).value.roots| && Run(ps, calls).value.roots[j] == ps.roots[j]
    decreases |calls|
  {
    if calls != [] {
      assert forall k | 0 <= k < |calls| - 1 :: calls[1..][k] == calls[k + 1];
      match calls[0]
      case ProtectCall(i) =>
        ProtectKeeps(ps, chain, i);
        var ps' := Protect(ps, i).0;
        assert j < |ps'.roots| && ps'.roots[j] == ps.roots[j];
        StaysProtected(ps', if chain == [] then [] else chain[1..], calls[1..], j);
        assert Run(ps, calls) == Run(ps', calls[1..]);
      case UnprotectCall(root) =>
        UnprotectKeeps(ps, chain, root);
        var ps' := Unprotect(ps, root);
        assert j < |ps'.roots| && ps'.roots[j] == ps.roots[j];
        StaysProtected(ps', [root] + chain, calls[1..], j);
        assert Run(ps, calls) == Run(ps', calls[1..]);
    }
  }

  // ---------------------------------------------------------------------------
  // Iterating over the protected roots

  /** The iterator returned by `iter`: the next slot to look at. */
  datatype ProtSetIter = ProtSetIter(current: nat)

  /** `ProtSetIter::next`: skips invalid slots and yields the node index of the next valid one. */
  function ProtSetNext(ps: ProtectionSet, it: ProtSetIter): (r: (Option<nat>, ProtSetIter))
    ensures r.0.None? <==> forall k | it.current <= k < |ps.roots| :: !ps.roots[k].1
    ensures r.0.None? ==> r.1.current == if it.current < |ps.roots| then |ps.roots| else it.current
    ensures r.0.Some? ==> && it.current < r.1.current <= |ps.roots|
                          && ps.roots[r.1.current - 1] == (r.0.value, true)
                          && forall k | it.current <= k < r.1.current - 1 :: !ps.roots[k].1
    decreases |ps.roots| - it.current
  {
    if it.current >= |ps.roots| then
      (None, it)
    else if ps.roots[it.current].1 then
      (Some(ps.roots[it.current].0), ProtSetIter(it.current + 1))
    else
      ProtSetNext(ps, ProtSetIter(it.current + 1))
  }

  /** The node indices of the valid slots, in slot order. */
  ghost function ValidRoots(roots: seq<(nat, bool)>): seq<nat>
  {
    if roots == [] then []
    else (if roots[0].1 then [roots[0].0] else []) + ValidRoots(roots[1..])
  }

  lemma {:induction false} ValidRootsMembers(roots: seq<(nat, bool)>)
    ensures forall x :: x in ValidRoots(roots) <==> exists i | 0 <= i < |roots| :: roots[i] == (x, true)
    decreases |roots|
  {
    if roots != [] {
      ValidRootsMembers(roots[1..]);
      forall x ensures x in ValidRoots(roots) <==> exists i | 0 <= i < |roots| :: roots[i] == (x, true) {
        if exists i | 0 <= i < |roots| :: roots[i] == (x, true) {
          var i :| 0 <= i < |roots| && roots[i] == (x, true);
          if i > 0 {
            assert roots[1..][i - 1] == (x, true);
          }
        }
        if x in ValidRoots(roots[1..]) {
          var i :| 0 <= i < |roots[1..]| && roots[1..][i] == (x, true);
          assert roots[i + 1] == (x, true);
        }
      }
    }
  }

  /** Invalid slots contribute nothing. */
  lemma {:induction false} SkipInvalid(roots: seq<(nat, bool)>, a: nat, b: nat)
    requires a <= b <= |roots|
    requires forall k | a <= k < b :: !roots[k].1
    ensures ValidRoots(roots[a..]) == ValidRoots(roots[b..])
    decreases b - a
  {
    if a < b {
      assert roots[a..][1..] == roots[a + 1..];
      SkipInvalid(roots, a + 1, b);
    }
  }

  /** The valid slot found after skipping invalid ones comes next among the valid roots. */
  lemma NextValid(roots: seq<(nat, bool)>, a: nat, b: nat, x: nat, out: seq<nat>)
    requires a < b <= |roots| && roots[b - 1] == (x, true)
    requires forall k | a <= k < b - 1 :: !roots[k].1
    ensures out + ValidRoots(roots[a..]) == (out + [x]) + ValidRoots(roots[b..])
  {
    SkipInvalid(roots, a, b - 1);
    assert roots[b - 1..][1..] == roots[b..];
    assert ValidRoots(roots[b - 1..]) == [x] + ValidRoots(roots[b..]);
  }

  /**
    Runs `iter` to the end: the result lists the node indices of the valid
    slots in slot order, and holds exactly the indices some valid slot protects.
   */
  method CollectRoots(ps: ProtectionSet) returns (out: seq<nat>)
    ensures out == ValidRoots(ps.roots)
    ensures forall x :: x in out <==> exists i | 0 <= i < |ps.roots| :: ps.roots[i] == (x, true)
  {
    var it := ProtSetIter(0);
    out := [];
    assert ps.roots[0..] == ps.roots;
    while true
      invariant it.current <= |ps.roots|
      invariant ValidRoots(ps.roots) == out + ValidRoots(ps.roots[it.current..])
      decreases |ps.roots| - it.current
    {
      var step := ProtSetNext(ps, it);
      if step.0.None? {
        SkipInvalid(ps.roots, it.current, |ps.roots|);
        break;
      }
      NextValid(ps.roots, it.current, step.1.current, step.0.value, out);
      out := out + [step.0.value];
      it := step.1;
    }
    assert ps.roots[|ps.roots|..] == [];
    ValidRootsMembers(ps.roots);
  }

  // ---------------------------------------------------------------------------
  // Handles

  /** An `Ldd` handle: the node it refers to and the slot that protects it. */
  datatype Ldd = Ldd(index: nat, root: nat)

  /** The slot of the handle protects its node. */
  ghost predicate Holds(ps: ProtectionSet, l: Ldd)
  {
    l.root < |ps.roots| && ps.roots[l.root] == (l.index, true)
  }

  /** `Ldd::new`: a handle to `index` protected by a slot of its own. */
  function LddNew(ps: ProtectionSet, index: nat): (r: (Ldd, ProtectionSet))
    requires HeadInRange(ps)
    ensures r.0.index == index && Holds(r.1, r.0)
  {
    var (ps', root) := Protect(ps, index);
    (Ldd(index, root), ps')
  }

  /** `Ldd::clone`: a new handle to the same node. */
  function LddClone(ps: ProtectionSet, l: Ldd): (r: (Ldd, ProtectionSet))
    requires HeadInRange(ps)
    ensures r.0.index == l.index && Holds(r.1, r.0)
  {
    LddNew(ps, l.index)
  }

  /** `Ldd::drop`: releases the handle's slot. */
  function LddDrop(ps: ProtectionSet, l: Ldd): (r: ProtectionSet)
    requires l.root < |ps.roots|
    ensures |r.roots| == |ps.roots| && !r.roots[l.root].1
    ensures forall i | 0 <= i < |ps.roots| && i != l.root :: r.roots[i] == ps.roots[i]
  {
    Unprotect(ps, l.root)
  }

  /** Handles are equal when they refer to the same node, whatever their slots. */
  predicate LddEq(a: Ldd, b: Ldd)
  {
    a.index == b.index
  }

  /** The hashed key of a handle: its node index. */
  function LddHash(l: Ldd): nat
  {
    l.index
  }

  /**
    A clone is equal to the original and hashes alike, yet takes a slot of its
    own; the original's slot is untouched, and dropping the clone leaves the
    original protected.
   */
  lemma CloneIsEqual(ps: ProtectionSet, chain: seq<nat>, l: Ldd)
    requires FreeList(ps, chain) && Holds(ps, l)
    ensures HeadInRange(ps)
    ensures LddEq(LddClone(ps, l).0, l) && LddHash(LddClone(ps, l).0) == LddHash(l)
    ensures LddClone(ps, l).0.root != l.root
    ensures Holds(LddClone(ps, l).1, l)
    ensures Holds(LddDrop(LddClone(ps, l).1, LddClone(ps, l).0), l)
  {
    ProtectKeeps(ps, chain, l.index);
  }

  /** Equal handles hash alike. */
  lemma EqualHashEqual(a: Ldd, b: Ldd)
    ensures LddEq(a, b) <==> LddHash(a) == LddHash(b)
  {
  }
}
