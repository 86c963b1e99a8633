/**
  The operation cache: per operator a table from operand node indices to the
  node index of the result. An entry is only ever added as the result of the
  operator itself, so a cached answer equals the computed one.
 */
module Cache {
  import opened Protection

  /** Binary caches and ternary caches, and the protection set that result handles are created in. */
  datatype OperationCache = OperationCache(
    protection: ProtectionSet,
    caches2: seq<map<(nat, nat), nat>>,
    caches3: seq<map<(nat, nat, nat), nat>>)

  /** `OperationCache::new`: two empty binary caches and one empty ternary cache. */
  function CacheNew(ps: ProtectionSet): (c: OperationCache)
    ensures c.protection == ps
    ensures |c.caches2| == 2 && |c.caches3| == 1
    ensures (forall i | 0 <= i < |c.caches2| :: c.caches2[i] == map[]) && (forall i | 0 <= i < |c.caches3| :: c.caches3[i] == map[])
  {
    OperationCache(ps, [map[], map[]], [map[]])
  }

  /** `OperationCache::clear`: empties every ternary cache and then every binary cache. */
  method Clear(c: OperationCache) returns (r: OperationCache)
    ensures r.protection == c.protection
    ensures |r.caches2| == |c.caches2| && |r.caches3| == |c.caches3|
    ensures forall i | 0 <= i < |r.caches2| :: r.caches2[i] == map[]
    ensures forall i | 0 <= i < |r.caches3| :: r.caches3[i] == map[]
  {
    var caches3 := c.caches3;
    for i := 0 to |caches3|
      invariant |caches3| == |c.caches3|
      invariant forall k | 0 <= k < i :: caches3[k] == map[]
    {
      caches3 := caches3[i := map[]];
    }
    var caches2 := c.caches2;
    for i := 0 to |caches2|
      invariant |caches2| == |c.caches2|
      invariant forall k | 0 <= k < i :: caches2[k] == map[]
    {
      caches2 := caches2[i := map[]];
    }
    r := OperationCache(c.protection, caches2, caches3);
  }

  /** `OperationCache::create`: a protected handle to a cached result. */
  function Create(c: OperationCache, index: nat): (r: (Ldd, OperationCache))
    requires HeadInRange(c.protection)
    ensures r.0.index == index && Holds(r.1.protection, r.0)
    ensures r.1.caches2 == c.caches2 && r.1.caches3 == c.caches3
  {
    var (l, ps) := LddNew(c.protection, index);
    (l, c.(protection := ps))
  }

  /** Every entry of a binary cache is the operator's result on its key. */
  ghost predicate Agrees2(m: map<(nat, nat), nat>, f: (nat, nat) -> nat)
  {
    forall k | k in m :: m[k] == f(k.0, k.1)
  }

  /** Every entry of a ternary cache is the operator's result on its key. */
  ghost predicate Agrees3(m: map<(nat, nat, nat), nat>, f: (nat, nat, nat) -> nat)
  {
    forall k | k in m :: m[k] == f(k.0, k.1, k.2)
  }

  /**
    `cache_binary_op`: a hit returns the stored index through a new handle and
    leaves the caches alone; a miss computes `f`, stores the result under the
    operand indices and returns it. While the cache agrees with `f`, the
    result is `f`'s and the cache keeps agreeing.
   */
  function CacheBinaryOp(c: OperationCache, op: nat, a: nat, b: nat, f: (nat, nat) -> nat): (r: (nat, OperationCache))
    requires op < |c.caches2|
    requires (a, b) in c.caches2[op] ==> HeadInRange(c.protection)
    ensures r.1.caches3 == c.caches3 && |r.1.caches2| == |c.caches2|
    ensures (a, b) in c.caches2[op] ==> && r.0 == c.caches2[op][(a, b)] && r.1.caches2 == c.caches2
                                        && r.1.protection == Protect(c.protection, r.0).0
    ensures (a, b) !in c.caches2[op] ==> && r.0 == f(a, b) && r.1.protection == c.protection
                                         && r.1.caches2 == c.caches2[op := r.1.caches2[op]]
                                         && r.1.caches2[op] == c.caches2[op][(a, b) := r.0]
    ensures Agrees2(c.caches2[op], f) ==> r.0 == f(a, b) && Agrees2(r.1.caches2[op], f)
  {
    var key := (a, b);
    if key in c.caches2[op] then
      var result := c.caches2[op][key];
      var (l, c') := Create(c, result);
      (l.index, c')
    else
      var result := f(a, b);
      var m: map<(nat, nat), nat> := c.caches2[op][key := result];
      (result, c.(caches2 := c.caches2[op := m]))
  }

  /** `f` gives the same result for swapped operands. */
  ghost predicate Commutative(f: (nat, nat) -> nat)
  {
    forall x, y :: f(x, y) == f(y, x)
  }

  /**
    `cache_comm_binary_op`: orders the operands so the smaller index comes
    first, so `(a, b)` and `(b, a)` share one entry.
   */
  function CacheCommBinaryOp(c: OperationCache, op: nat, a: nat, b: nat, f: (nat, nat) -> nat): (r: (nat, OperationCache))
    requires op < |c.caches2|
    requires (a, b) in c.caches2[op] || (b, a) in c.caches2[op] ==> HeadInRange(c.protection)
    ensures r.1.caches3 == c.caches3 && |r.1.caches2| == |c.caches2|
    ensures forall i | 0 <= i < |c.caches2| && i != op :: r.1.caches2[i] == c.caches2[i]
    ensures forall k | k in r.1.caches2[op] :: k in c.caches2[op] || (k.0 <= k.1 && {k.0, k.1} == {a, b})
    ensures Agrees2(c.caches2[op], f) && Commutative(f) ==> r.0 == f(a, b) && Agrees2(r.1.caches2[op], f)
  {
    if a < b then CacheBinaryOp(c, op, a, b, f) else CacheBinaryOp(c, op, b, a, f)
  }

  /** Swapping the operands of the commutative variant changes nothing at all. */
  lemma CommSymmetric(c: OperationCache, op: nat, a: nat, b: nat, f: (nat, nat) -> nat)
    requires op < |c.caches2|
    requires (a, b) in c.caches2[op] || (b, a) in c.caches2[op] ==> HeadInRange(c.protection)
    ensures CacheCommBinaryOp(c, op, a, b, f) == CacheCommBinaryOp(c, op, b, a, f)
  {
  }

  /** `cache_terniary_op`: as the binary variant, keyed by three operand indices. */
  function CacheTernaryOp(c: OperationCache, op: nat, a: nat, b: nat, d: nat, f: (nat, nat, nat) -> nat): (r: (nat, OperationCache))
    requires op < |c.caches3|
    requires (a, b, d) in c.caches3[op] ==> HeadInRange(c.protection)
    ensures r.1.caches2 == c.caches2 && |r.1.caches3| == |c.caches3|
    ensures (a, b, d) in c.caches3[op] ==> && r.0 == c.caches3[op][(a, b, d)] && r.1.caches3 == c.caches3
                                           && r.1.protection == Protect(c.protection, r.0).0
    ensures (a, b, d) !in c.caches3[op] ==> && r.0 == f(a, b, d) && r.1.protection == c.protection
                                            && r.1.caches3 == c.caches3[op := r.1.caches3[op]]
                                            && r.1.caches3[op] == c.caches3[op][(a, b, d) := r.0]
    ensures Agrees3(c.caches3[op], f) ==> r.0 == f(a, b, d) && Agrees3(r.1.caches3[op], f)
  {
    var key := (a, b, d);
    if key in c.caches3[op] then
      var result := c.caches3[op][key];
      var (l, c') := Create(c, result);
      (l.index, c')
    else
      var result := f(a, b, d);
      var m: map<(nat, nat, nat), nat> := c.caches3[op][key := result];
      (result, c.(caches3 := c.caches3[op := m]))
  }

  /** After `clear` every cache agrees with any operator. */
  lemma ClearedAgrees(c: OperationCache, op: nat, f: (nat, nat) -> nat, g: (nat, nat, nat) -> nat)
    requires forall i | 0 <= i < |c.caches2| :: c.caches2[i] == map[]
    requires forall i | 0 <= i < |c.caches3| :: c.caches3[i] == map[]
    ensures op < |c.caches2| ==> Agrees2(c.caches2[op], f)
    ensures op < |c.caches3| ==> Agrees3(c.caches3[op], g)
  {
  }
}
