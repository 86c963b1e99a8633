/**
  Loading a model written by Sylvan: two header fields, the LDD of the
  initial states, the number of transition groups, one projection per group
  and then one relation LDD per group. Two variants: the reachability tool
  keeps a meta vector per group, the example program keeps the projections.
 */
module SylvanModel {
  import opened Wrappers
  import opened Storage
  import opened SylvanFormat
  import opened Sylvan
  import Operations

  // ---------------------------------------------------------------------------
  // Projections

  /** The little-endian 32-bit number at byte offset `at`. */
  function U32At(input: seq<bv8>, at: nat): nat
    requires at + 4 <= |input|
  {
    FromLe32(input[at], input[at + 1], input[at + 2], input[at + 3]) as int
  }

  lemma U32AtShift(input: seq<bv8>, k: nat, at: nat)
    requires k + at + 4 <= |input|
    ensures U32At(input[k..], at) == U32At(input, k + at)
  {
    assert input[k..][at] == input[k + at] && input[k..][at + 1] == input[k + at + 1];
    assert input[k..][at + 2] == input[k + at + 2] && input[k..][at + 3] == input[k + at + 3];
  }

  /** `vs` are the 32-bit numbers at offsets `at`, `at + 4`, ... of `input`. */
  ghost predicate NumbersAt(input: seq<bv8>, at: nat, vs: seq<nat>)
  {
    at + 4 * |vs| <= |input| && forall i | 0 <= i < |vs| :: vs[i] == U32At(input, at + 4 * i)
  }

  /** Numbers read from `input[k..]` are the numbers at the same offsets, moved by `k`, in `input`. */
  lemma U32sShift(input: seq<bv8>, k: nat, vs: seq<nat>)
    requires k <= |input| && NumbersAt(input[k..], 0, vs)
    ensures NumbersAt(input, k, vs)
  {
    forall i | 0 <= i < |vs| ensures vs[i] == U32At(input, k + 4 * i) {
      U32AtShift(input, k, 4 * i);
    }
  }

  /** The number at the front, followed by those from offset 4 on, are the numbers from offset 0 on. */
  lemma NumbersCons(input: seq<bv8>, v: nat, vs: seq<nat>)
    requires 4 <= |input| && v == U32At(input, 0) && NumbersAt(input, 4, vs)
    ensures NumbersAt(input, 0, [v] + vs)
  {
    var ws := [v] + vs;
    forall i | 0 <= i < |ws| ensures ws[i] == U32At(input, 4 * i) {
      if i > 0 {
        assert ws[i] == vs[i - 1] && 4 + 4 * (i - 1) == 4 * i;
      }
    }
  }

  /** `n` numbers of 32 bits, one after the other, or the end of the file. */
  function ReadU32s(input: seq<bv8>, n: nat): (res: Result<(seq<nat>, seq<bv8>), ReadError>)
    ensures |input| < 4 * n <==> res.Failure?
    ensures res.Failure? ==> res.error == EndOfFile
    ensures res.Success? ==> |res.value.0| == n && res.value.1 == input[4 * n..] && NumbersAt(input, 0, res.value.0)
    decreases n
  {
    if n == 0 then
      assert input[0..] == input;
      Success(([], input))
    else
      match ReadU32(input)
      case Failure(e) => Failure(e)
      case Success((v, rest)) =>
        match ReadU32s(rest, n - 1)
        case Failure(e) => Failure(e)
        case Success((vs, rest')) =>
          U32sShift(input, 4, vs);
          NumbersCons(input, v as int, vs);
          assert input[4..][4 * (n - 1)..] == input[4 * n..];
          Success(([v as int] + vs, rest'))
  }

  /** The variables a transition group reads and those it writes. */
  datatype Projection = Projection(read: seq<nat>, write: seq<nat>)

  /**
    `read_projection`: the number of read and of written variables, then the
    read variables, then the written ones, each a 32-bit number.
   */
  function ReadProjection(input: seq<bv8>): (res: Result<(Projection, seq<bv8>), ReadError>)
    ensures res.Failure? <==> |input| < 8 || |input| < 8 + 4 * (U32At(input, 0) + U32At(input, 4))
    ensures res.Failure? ==> res.error == EndOfFile
    ensures res.Success? ==> ProjectionAt(input, res.value.0, res.value.1)
  {
    if |input| < 8 then Failure(EndOfFile)
    else
      var nr, nw := U32At(input, 0), U32At(input, 4);
      match ReadU32s(input[8..], nr)
      case Failure(e) => Failure(e)
      case Success((read, rest)) =>
        match ReadU32s(rest, nw)
        case Failure(e) => Failure(e)
        case Success((write, rest')) =>
          ProjectionLayout(input, read, rest, write, rest');
          Success((Projection(read, write), rest'))
  }

  /**
    Where a projection sits in the input: the two counts, the read variables
    after them, the written ones after those, and what follows.
   */
  ghost predicate ProjectionAt(input: seq<bv8>, p: Projection, rest: seq<bv8>)
  {
    && |input| >= 8 + 4 * (|p.read| + |p.write|)
    && |p.read| == U32At(input, 0) && |p.write| == U32At(input, 4)
    && NumbersAt(input, 8, p.read) && NumbersAt(input, 8 + 4 * |p.read|, p.write)
    && rest == input[8 + 4 * (|p.read| + |p.write|)..]
  }

  /** Numbers read from `input[at..]` are the numbers at offsets `at`, `at + 4`, ... of `input`. */
  lemma NumbersFrom(input: seq<bv8>, at: nat, vs: seq<nat>, rest: seq<bv8>)
    requires at <= |input| && NumbersAt(input[at..], 0, vs) && rest == input[at..][4 * |vs|..]
    ensures NumbersAt(input, at, vs) && rest == input[at + 4 * |vs|..]
  {
    assert input[at..][4 * |vs|..] == input[at + 4 * |vs|..];
    U32sShift(input, at, vs);
  }

  /** The two lists of numbers read after the counts lay a projection out as `ProjectionAt` says. */
  lemma ProjectionLayout(input: seq<bv8>, read: seq<nat>, rest: seq<bv8>, write: seq<nat>, rest': seq<bv8>)
    requires |input| >= 8
    requires |read| == U32At(input, 0) && NumbersAt(input[8..], 0, read) && rest == input[8..][4 * |read|..]
    requires |write| == U32At(input, 4) && NumbersAt(rest, 0, write) && rest' == rest[4 * |write|..]
    ensures ProjectionAt(input, Projection(read, write), rest')
  {
    NumbersFrom(input, 8, read, rest);
    NumbersFrom(input, 8 + 4 * |read|, write, rest');
    assert 8 + 4 * |read| + 4 * |write| == 8 + 4 * (|read| + |write|);
  }

  /** `n` items read one after the other by `step`, each where the one before ended. */
  function Repeat<T>(step: seq<bv8> -> Result<(T, seq<bv8>), ReadError>, input: seq<bv8>, n: nat)
    : (res: Result<(seq<T>, seq<bv8>), ReadError>)
    ensures res.Success? ==> |res.value.0| == n
    decreases n
  {
    if n == 0 then Success(([], input))
    else
      match step(input)
      case Failure(e) => Failure(e)
      case Success((x, rest)) =>
        match Repeat(step, rest, n - 1)
        case Failure(e) => Failure(e)
        case Success((xs, rest')) => Success(([x] + xs, rest'))
  }

  /** Reading one item more, where the first `n` ended, is reading `n + 1` of them. */
  lemma {:induction false} RepeatSnoc<T>(step: seq<bv8> -> Result<(T, seq<bv8>), ReadError>, input: seq<bv8>, n: nat,
                                         xs: seq<T>, rest: seq<bv8>)
    requires Repeat(step, input, n) == Success((xs, rest))
    ensures step(rest).Failure? ==> Repeat(step, input, n + 1) == Failure(step(rest).error)
    ensures step(rest).Success? ==>
      Repeat(step, input, n + 1) == Success((xs + [step(rest).value.0], step(rest).value.1))
    decreases n
  {
    if n == 0 {
      if step(rest).Success? {
        assert [step(rest).value.0] + [] == xs + [step(rest).value.0];
      }
    } else {
      var (x0, rest0) := step(input).value;
      var (xs0, _) := Repeat(step, rest0, n - 1).value;
      RepeatSnoc(step, rest0, n - 1, xs0, rest);
      if step(rest).Success? {
        assert [x0] + (xs0 + [step(rest).value.0]) == xs + [step(rest).value.0];
      }
    }
  }

  /** Once the first `m` items cannot be read, neither can any longer run. */
  lemma {:induction false} RepeatFails<T>(step: seq<bv8> -> Result<(T, seq<bv8>), ReadError>, input: seq<bv8>, m: nat, n: nat)
    requires m <= n && Repeat(step, input, m).Failure?
    ensures Repeat(step, input, n) == Failure(Repeat(step, input, m).error)
    decreases m
  {
    if step(input).Success? {
      RepeatFails(step, step(input).value.1, m - 1, n - 1);
    }
  }

  // ---------------------------------------------------------------------------
  // Meta vectors

  /** The largest entry, or 0 when there is none, as `iter().max()` with the default of `load_model`. */
  function MaxOr0(xs: seq<nat>): (m: nat)
    ensures forall i | 0 <= i < |xs| :: xs[i] <= m
    ensures xs == [] ==> m == 0
    ensures xs != [] ==> m in xs
  {
    if xs == [] then 0
    else
      var m := MaxOr0(xs[1..]);
      assert xs == [xs[0]] + xs[1..];
      if xs[0] >= m then xs[0] else m
  }

  /** A variable the projection names. */
  predicate Mentions(p: Projection, x: nat)
  {
    x in p.read || x in p.write
  }

  /**
    The meta length as `load_model` of the reachability tool computes it:
    the largest variable either projection names.
   */
  function MetaLengthAsWritten(p: Projection): (n: nat)
    ensures forall x: nat | Mentions(p, x) :: x <= n
    ensures p.read != [] || p.write != [] ==> Mentions(p, n)
  {
    var a, b := MaxOr0(p.read), MaxOr0(p.write);
    if a >= b then a else b
  }

  /** A group that reads variable 0 only gets a meta vector without a position for it. */
  lemma MetaLengthAsWrittenExample()
    ensures MetaLengthAsWritten(Projection([0], [])) == 0
    ensures Mentions(Projection([0], []), 0)
    ensures MetaLength(Projection([0], [])) == 1
  {
  }

  /**
    The meta length meant: one position for every variable up to the
    largest one named, and none when the projections are empty.
   */
  function MetaLength(p: Projection): (n: nat)
    ensures forall x: nat | Mentions(p, x) :: x < n
    ensures n == 0 || Mentions(p, n - 1)
    ensures p.read != [] || p.write != [] ==> n == MetaLengthAsWritten(p) + 1
  {
    if p.read == [] && p.write == [] then 0 else MetaLengthAsWritten(p) + 1
  }

  /** No shorter vector has a position for every variable the projection names. */
  lemma MetaLengthLeast(p: Projection, n: nat)
    requires forall x: nat | Mentions(p, x) :: x < n
    ensures MetaLength(p) <= n
  {
    if MetaLength(p) > 0 {
      assert Mentions(p, MetaLength(p) - 1);
    }
  }

  /** The meta vector `load_model` pushes: a 0 for every position. */
  function MetaVector(p: Projection): (v: Vector)
    ensures |v| == MetaLength(p)
    ensures forall i | 0 <= i < |v| :: v[i] == 0
  {
    seq(MetaLength(p), _ => 0)
  }

  // ---------------------------------------------------------------------------
  // Loading

  /**
    The two header fields, the vector length and Sylvan's unused `k`, and
    then the LDD of the initial states. The reader numbers on after the
    initial states' records, and each node it holds stands for its record.
   */
  function ReadInitial(s: Storage, input: seq<bv8>): (res: Result<Loaded, ReadError>)
    requires Valid(s)
    ensures |input| < 8 ==> res == Failure(EndOfFile)
    ensures res.Success? ==> |input| >= 8 && InitialOk(s, input, res.value)
  {
    if |input| < 8 then Failure(EndOfFile)
    else
      var l := ReadLdd(ReaderNew(), s, input[8..]);
      if l.Success? then
        InitialDenote(s, input);
        l
      else
        l
  }

  /**
    What the LDD of the initial states, read from behind the header, leaves:
    a reader holding its records, under numbers 2 on, a valid storage that
    only grew, and a root standing for the set the file gives it.
   */
  ghost predicate InitialOk(s: Storage, input: seq<bv8>, l: Loaded)
    requires |input| >= 8
  {
    && Framed(input[8..])
    && ReaderOk(l.reader, l.storage) && Extends(s, l.storage)
    && l.reader.lastIndex == 2 + WordAt(input[8..], 0)
    && Denotes(l.reader, l.storage, History(map[], 2, input[8..]))
    && l.root < |l.storage.table|
    && Denote(l.storage.table, l.root)
       == LddSet(History(map[], 2, input[8..]), input[8..])
  }

  /** The LDD of the initial states, once read, is as `InitialOk` says. */
  lemma InitialDenote(s: Storage, input: seq<bv8>)
    requires Valid(s) && |input| >= 8 && ReadLdd(ReaderNew(), s, input[8..]).Success?
    ensures InitialOk(s, input, ReadLdd(ReaderNew(), s, input[8..]).value)
  {
    ReadLddDenote(ReaderNew(), s, input[8..], map[]);
  }

  /** Appending nodes keeps what every handle of `xs` denotes. */
  lemma FrameAll(t: seq<Node>, t': seq<Node>, xs: seq<nat>)
    requires Prefix(t, t') && forall j | 0 <= j < |xs| :: xs[j] < |t|
    ensures forall j | 0 <= j < |xs| :: xs[j] < |t'| && Denote(t', xs[j]) == Denote(t, xs[j])
  {
    forall j | 0 <= j < |xs| ensures xs[j] < |t'| && Denote(t', xs[j]) == Denote(t, xs[j]) {
      DenoteFrame(t, t', xs[j]);
    }
  }

  /** LDDs read one after the other: their roots, the reader and storage afterwards, and the input left over. */
  datatype Relations = Relations(roots: seq<nat>, reader: SylvanReader, storage: Storage, rest: seq<bv8>)

  /**
    What reading one LDD from `input` with reader `r` left in `l`, when the
    reader's nodes stood for `records`: the reader holds the new records as
    well, and the root stands for the set the file gives it.
   */
  ghost predicate LddDenotes(r: SylvanReader, input: seq<bv8>, records: map<nat, Entry>, l: Loaded)
  {
    && Framed(input) && ReaderOk(l.reader, l.storage)
    && Denotes(l.reader, l.storage, History(records, r.lastIndex, input))
    && l.root < |l.storage.table|
    && Denote(l.storage.table, l.root) == LddSet(History(records, r.lastIndex, input), input)
  }

  /**
    One more LDD of the file, read by `read_ldd` where the last one ended:
    the reader numbers on by the node count, and when the reader's nodes
    stood for `records`, the root stands for the set the file gives it.
   */
  method NextLdd(r: SylvanReader, s: Storage, input: seq<bv8>, ghost records: map<nat, Entry>) returns (res: Result<Loaded, ReadError>)
    requires ReaderOk(r, s)
    ensures res == ReadLdd(r, s, input)
    ensures !Framed(input) ==> res.Failure?
    ensures res.Success? ==>
      && Framed(input) && ReaderOk(res.value.reader, res.value.storage) && Extends(s, res.value.storage)
      && res.value.root < |res.value.storage.table|
      && res.value.reader.lastIndex == r.lastIndex + WordAt(input, 0)
      && res.value.rest == input[16 + 16 * WordAt(input, 0)..]
    ensures res.Success? && Denotes(r, s, records) ==> LddDenotes(r, input, records, res.value)
  {
    res := ReadLdd(r, s, input);
    if res.Success? {
      ReadLddGrows(r, s, input);
      if Denotes(r, s, records) {
        ReadLddDenote(r, s, input, records);
      }
    }
  }

  /** What LDDs of the file stand for, with the records they number and where they end. */
  datatype FileLdds = FileLdds(sets: seq<set<Vector>>, records: map<nat, Entry>, next: nat, rest: seq<bv8>)

  /**
    What `n` LDDs written one after the other stand for, from the file alone:
    the records of each are numbered on from `next`, after those of the LDDs
    before it, and each root index stands for its record's set.
   */
  ghost function FileSets(records: map<nat, Entry>, next: nat, input: seq<bv8>, n: nat): (f: Option<FileLdds>)
    ensures f.Some? ==> |f.value.sets| == n
    decreases n
  {
    if n == 0 then Some(FileLdds([], records, next, input))
    else
      match FileSets(records, next, input, n - 1)
      case None => None
      case Some(f) => FileNext(f)
  }

  /** One more LDD of the file after those `f` describes, or none when the input does not hold one. */
  ghost function FileNext(f: FileLdds): (g: Option<FileLdds>)
  {
    if !Framed(f.rest) then None
    else
      var records' := History(f.records, f.next, f.rest);
      Some(FileLdds(f.sets + [LddSet(records', f.rest)], records', f.next + WordAt(f.rest, 0),
                    f.rest[16 + 16 * WordAt(f.rest, 0)..]))
  }

  /**
    The roots read are, one by one, nodes standing for the sets `f` lists,
    and the reader holds the records of `f` and ends where `f` does.
   */
  ghost predicate RootsFollow(rs: Relations, f: FileLdds)
  {
    && |rs.roots| == |f.sets|
    && f.next == rs.reader.lastIndex && f.rest == rs.rest
    && ReaderOk(rs.reader, rs.storage) && Denotes(rs.reader, rs.storage, f.records)
    && forall i | 0 <= i < |f.sets| :: rs.roots[i] < |rs.storage.table| && Denote(rs.storage.table, rs.roots[i]) == f.sets[i]
  }

  /**
    The roots read are, one by one, nodes standing for the sets of the `n`
    LDDs the file holds from `input` on, and the reader ends where the file does.
   */
  ghost predicate RootsDenote(rs: Relations, records: map<nat, Entry>, next: nat, input: seq<bv8>, n: nat)
  {
    var f := FileSets(records, next, input, n);
    f.Some? && RootsFollow(rs, f.value)
  }

  /** The file holding one more LDD after the first `n` adds what `FileNext` says. */
  lemma FileSetsSnoc(records: map<nat, Entry>, next: nat, input: seq<bv8>, n: nat, f: FileLdds)
    requires FileSets(records, next, input, n) == Some(f)
    ensures FileSets(records, next, input, n + 1) == FileNext(f)
  {
  }

  /** One more LDD read after those `f` describes extends what they stand for by its root. */
  lemma RootsSnoc(rs: Relations, l: Loaded, f: FileLdds)
    requires RootsFollow(rs, f)
    requires Framed(rs.rest) && Prefix(rs.storage.table, l.storage.table)
    requires l.reader.lastIndex == rs.reader.lastIndex + WordAt(rs.rest, 0) && l.rest == rs.rest[16 + 16 * WordAt(rs.rest, 0)..]
    requires LddDenotes(rs.reader, rs.rest, f.records, l)
    ensures FileNext(f).Some?
    ensures RootsFollow(Relations(rs.roots + [l.root], l.reader, l.storage, l.rest), FileNext(f).value)
  {
    RootsExtend(rs.storage.table, l.storage.table, rs.roots, l.root, f.sets, LddSet(History(f.records, f.next, f.rest), f.rest));
  }

  /** Roots standing for `sets` keep doing so as the storage grows, and one more root adds its set. */
  lemma RootsExtend(t: seq<Node>, t': seq<Node>, roots: seq<nat>, root: nat, sets: seq<set<Vector>>, last: set<Vector>)
    requires Prefix(t, t') && |roots| == |sets|
    requires forall i | 0 <= i < |roots| :: roots[i] < |t| && Denote(t, roots[i]) == sets[i]
    requires root < |t'| && Denote(t', root) == last
    ensures forall i | 0 <= i < |roots| + 1 :: (roots + [root])[i] < |t'| && Denote(t', (roots + [root])[i]) == (sets + [last])[i]
  {
    FrameAll(t, t', roots);
    forall i | 0 <= i < |roots| + 1 ensures (roots + [root])[i] < |t'| && Denote(t', (roots + [root])[i]) == (sets + [last])[i] {
      if i < |roots| {
        assert (roots + [root])[i] == roots[i] && (sets + [last])[i] == sets[i];
      }
    }
  }

  /**
    One more LDD read after the roots of `rs`: when those stood for the sets
    `f` lists, the new root stands for the set of the file's next LDD.
   */
  method NextRoot(rs: Relations, ghost f: FileLdds, ghost follows: bool) returns (res: Result<Relations, ReadError>)
    requires ReaderOk(rs.reader, rs.storage)
    requires follows ==> RootsFollow(rs, f)
    ensures res.Success? ==>
      && |res.value.roots| == |rs.roots| + 1
      && ReaderOk(res.value.reader, res.value.storage) && Extends(rs.storage, res.value.storage)
    ensures res.Success? && follows ==> FileNext(f).Some? && RootsFollow(res.value, FileNext(f).value)
  {
    var l := NextLdd(rs.reader, rs.storage, rs.rest, f.records);
    if l.Failure? {
      return Failure(l.error);
    }
    if follows {
      RootsSnoc(rs, l.value, f);
    }
    return Success(Relations(rs.roots + [l.value.root], l.value.reader, l.value.storage, l.value.rest));
  }

  /**
    `n` LDDs read in a loop, one after the other, as the relations of the
    transition groups: when the reader's nodes stood for `records`, each
    root stands for the set the file gives its LDD.
   */
  method ReadRelations(r: SylvanReader, s: Storage, input: seq<bv8>, n: nat, ghost records: map<nat, Entry>)
      returns (res: Result<Relations, ReadError>)
    requires ReaderOk(r, s)
    ensures res.Success? ==> |res.value.roots| == n && ReaderOk(res.value.reader, res.value.storage) && Extends(s, res.value.storage)
    ensures res.Success? && Denotes(r, s, records) ==> RootsDenote(res.value, records, r.lastIndex, input, n)
  {
    var rs := Relations([], r, s, input);
    ghost var denotes := Denotes(r, s, records);
    ghost var f := FileLdds([], records, r.lastIndex, input);
    for i := 0 to n
      invariant ReaderOk(rs.reader, rs.storage) && Extends(s, rs.storage) && |rs.roots| == i
      invariant denotes ==> FileSets(records, r.lastIndex, input, i) == Some(f) && RootsFollow(rs, f)
    {
      var next := NextRoot(rs, f, denotes);
      if next.Failure? {
        return Failure(next.error);
      }
      if denotes {
        FileSetsSnoc(records, r.lastIndex, input, i, f);
        f := FileNext(f).value;
      }
      ExtendsTrans(s, rs.storage, next.value.storage);
      rs := next.value;
    }
    return Success(rs);
  }

  /** Each handle of `metas` is a node of `t` holding the one meta vector of the projection at its position. */
  ghost predicate MetasOk(t: seq<Node>, ps: seq<Projection>, metas: seq<nat>)
  {
    |ps| == |metas| && forall j | 0 <= j < |metas| :: metas[j] < |t| && Denote(t, metas[j]) == {MetaVector(ps[j])}
  }

  /** A meta vector inserted after the others leaves theirs in place. */
  lemma MetasSnoc(t: seq<Node>, t': seq<Node>, ps: seq<Projection>, metas: seq<nat>, p: Projection, meta: nat)
    requires MetasOk(t, ps, metas) && Prefix(t, t')
    requires meta < |t'| && Denote(t', meta) == {MetaVector(p)}
    ensures MetasOk(t', ps + [p], metas + [meta])
  {
    FrameAll(t, t', metas);
    var ps', metas' := ps + [p], metas + [meta];
    forall j | 0 <= j < |metas'| ensures metas'[j] < |t'| && Denote(t', metas'[j]) == {MetaVector(ps'[j])} {
      if j < |metas| {
        assert metas'[j] == metas[j] && ps'[j] == ps[j];
      }
    }
  }

  /** One projection and its meta vector, inserted into the storage. */
  method NextMeta(r: SylvanReader, s: Storage, input: seq<bv8>)
      returns (res: Result<(Projection, seq<bv8>, Storage, nat), ReadError>)
    requires ReaderOk(r, s)
    ensures res.Failure? ==> ReadProjection(input).Failure? && res.error == ReadProjection(input).error
    ensures res.Success? ==>
      var (p, rest, s', meta) := res.value;
      && ReadProjection(input) == Success((p, rest))
      && ReaderOk(r, s') && Extends(s, s')
      && meta < |s'.table| && Denote(s'.table, meta) == {MetaVector(p)}
  {
    var proj := ReadProjection(input);
    if proj.Failure? {
      return Failure(proj.error);
    }
    var (p, rest) := proj.value;
    var s', meta := Operations.SingletonLoop(s, MetaVector(p));
    ReaderOkExtends(r, s, s');
    return Success((p, rest, s', meta));
  }

  /**
    The projections of the groups: the meta vector of each is inserted as
    it is read, and the nodes read before keep their meaning.
   */
  method ReadMetas(r: SylvanReader, s: Storage, input: seq<bv8>, n: nat)
      returns (res: Result<(seq<Projection>, seq<nat>, Storage, seq<bv8>), ReadError>)
    requires ReaderOk(r, s)
    ensures res.Success? ==>
      var (ps, metas, s', rest) := res.value;
      && Repeat(ReadProjection, input, n) == Success((ps, rest))
      && ReaderOk(r, s') && Extends(s, s') && |metas| == n
      && MetasOk(s'.table, ps, metas)
  {
    var ps: seq<Projection> := [];
    var metas: seq<nat> := [];
    var s', rest := s, input;
    for i := 0 to n
      invariant ReaderOk(r, s') && Extends(s, s')
      invariant |ps| == |metas| == i
      invariant Repeat(ReadProjection, input, i) == Success((ps, rest))
      invariant MetasOk(s'.table, ps, metas)
    {
      var next := NextMeta(r, s', rest);
      RepeatSnoc(ReadProjection, input, i, ps, rest);
      if next.Failure? {
        return Failure(next.error);
      }
      var (p, rest', s'', meta) := next.value;
      MetasSnoc(s'.table, s''.table, ps, metas, p, meta);
      ExtendsTrans(s, s', s'');
      ps, metas, s', rest := ps + [p], metas + [meta], s'', rest';
    }
    return Success((ps, metas, s', rest));
  }

  /** A transition group of the reachability tool: its relation and its meta vector. */
  datatype Transition = Transition(relation: nat, meta: nat)

  /**
    The groups after the initial states, as the file gives them: one for
    each projection, each with a meta vector that is the one all-zero vector
    of its meta length, and a relation standing for the set of the LDD at
    the same position after the projections. The relations' records are
    numbered on from `next`, after the `records` read before.
   */
  ghost predicate TransitionsOk(t: seq<Node>, records: map<nat, Entry>, next: nat, input: seq<bv8>,
                                transitions: seq<Transition>)
  {
    && |input| >= 4 && |transitions| == U32At(input, 0)
    && Repeat(ReadProjection, input[4..], |transitions|).Success?
    && var (ps, rest) := Repeat(ReadProjection, input[4..], |transitions|).value;
       && FileSets(records, next, rest, |transitions|).Some?
       && var sets := FileSets(records, next, rest, |transitions|).value.sets;
          forall i | 0 <= i < |transitions| ::
            && transitions[i].relation < |t| && transitions[i].meta < |t|
            && Denote(t, transitions[i].meta) == {MetaVector(ps[i])}
            && Denote(t, transitions[i].relation) == sets[i]
  }

  /** The transitions pairing each relation with the meta vector at the same position. */
  function Transitions(roots: seq<nat>, metas: seq<nat>): (ts: seq<Transition>)
    requires |roots| == |metas|
    ensures |ts| == |roots| && forall i | 0 <= i < |ts| :: ts[i] == Transition(roots[i], metas[i])
  {
    if roots == [] then [] else [Transition(roots[0], metas[0])] + Transitions(roots[1..], metas[1..])
  }

  /** Transitions made of the meta vectors and of the relations read after them are as the file gives them. */
  lemma TransitionsBuilt(t: seq<Node>, input: seq<bv8>, ps: seq<Projection>, rest: seq<bv8>, metas: seq<nat>,
                         rs: Relations, records: map<nat, Entry>, next: nat)
    requires |input| >= 4 && Repeat(ReadProjection, input[4..], U32At(input, 0)) == Success((ps, rest))
    requires MetasOk(t, ps, metas) && Prefix(t, rs.storage.table)
    requires RootsDenote(rs, records, next, rest, |ps|)
    ensures TransitionsOk(rs.storage.table, records, next, input, Transitions(rs.roots, metas))
  {
    FrameAll(t, rs.storage.table, metas);
  }

  /**
    The groups after the initial states: the projections with their meta
    vectors, then the relations, read on by the reader of the initial states.
   */
  method ReadTransitions(r: SylvanReader, s: Storage, input: seq<bv8>, ghost records: map<nat, Entry>)
      returns (res: Result<(seq<Transition>, Storage), ReadError>)
    requires ReaderOk(r, s)
    ensures |input| < 4 ==> res == Failure(EndOfFile)
    ensures res.Success? ==> Valid(res.value.1) && Extends(s, res.value.1)
    ensures res.Success? && Denotes(r, s, records) ==> TransitionsOk(res.value.1.table, records, r.lastIndex, input, res.value.0)
  {
    if |input| < 4 {
      return Failure(EndOfFile);
    }
    var n := U32At(input, 0);
    var metas := ReadMetas(r, s, input[4..], n);
    if metas.Failure? {
      return Failure(metas.error);
    }
    var (ps, ms, s', rest) := metas.value;
    ghost var denotes := Denotes(r, s, records);
    if denotes {
      DenotesExtends(r, s, s', records);
    }
    var rels := ReadRelations(r, s', rest, n, records);
    if rels.Failure? {
      return Failure(rels.error);
    }
    var rs := rels.value;
    ExtendsTrans(s, s', rs.storage);
    var transitions := Transitions(rs.roots, ms);
    if denotes {
      TransitionsBuilt(s'.table, input, ps, rest, ms, rs, records, r.lastIndex);
    }
    return Success((transitions, rs.storage));
  }

  /**
    `load_model` of the reachability tool, with the root lookup of
    `node_from_index` and the meta length that has a position for every
    variable: the initial states keep the set the file gives them, and
    each relation stands for the set of its LDD in the file.
   */
  method LoadModel(s: Storage, input: seq<bv8>) returns (res: Result<(nat, seq<Transition>, Storage), ReadError>)
    requires Valid(s)
    ensures |input| < 8 ==> res == Failure(EndOfFile)
    ensures res.Success? ==> (ReadInitial(s, input).Success? &&
      var first := ReadInitial(s, input).value;
      var (initial, transitions, s') := res.value;
      && Valid(s') && Extends(s, s')
      && initial == first.root && initial < |s'.table|
      && Denote(s'.table, initial) == Denote(first.storage.table, first.root)
      && TransitionsOk(s'.table, History(map[], 2, input[8..]), 2 + WordAt(input[8..], 0), first.rest, transitions))
  {
    var first := ReadInitial(s, input);
    if first.Failure? {
      return Failure(first.error);
    }
    var after := TransitionsAfter(s, input, first.value);
    if after.Failure? {
      return Failure(after.error);
    }
    return Success((first.value.root, after.value.0, after.value.1));
  }

  /** The transitions after the initial states `l`, read on with the reader and storage `l` left. */
  method TransitionsAfter(s: Storage, input: seq<bv8>, l: Loaded) returns (res: Result<(seq<Transition>, Storage), ReadError>)
    requires |input| >= 8 && InitialOk(s, input, l)
    ensures res.Success? ==> (
      var (transitions, s') := res.value;
      && Valid(s') && Extends(s, s') && l.root < |s'.table|
      && Denote(s'.table, l.root) == Denote(l.storage.table, l.root)
      && TransitionsOk(s'.table, History(map[], 2, input[8..]), 2 + WordAt(input[8..], 0), l.rest, transitions))
  {
    var Loaded(initial, reader, st, rest) := l;
    ghost var records := History(map[], 2, input[8..]);
    var read := ReadTransitions(reader, st, rest, records);
    if read.Failure? {
      return Failure(read.error);
    }
    var (transitions, st') := read.value;
    DenoteFrame(st.table, st'.table, initial);
    ExtendsTrans(s, st, st');
    return Success((transitions, st'));
  }

  /** A transition group of the example program: its projections and its relation. */
  datatype GroupTransition = GroupTransition(readProj: seq<nat>, writeProj: seq<nat>, relation: nat)

  /**
    The groups after the initial states, each carrying its projection as
    read, in file order, and a relation standing for the set of the LDD at
    the same position after the projections.
   */
  ghost predicate GroupsOk(t: seq<Node>, records: map<nat, Entry>, next: nat, input: seq<bv8>, groups: seq<GroupTransition>)
  {
    && |input| >= 4 && |groups| == U32At(input, 0)
    && Repeat(ReadProjection, input[4..], |groups|).Success?
    && var (ps, rest) := Repeat(ReadProjection, input[4..], |groups|).value;
       && FileSets(records, next, rest, |groups|).Some?
       && var sets := FileSets(records, next, rest, |groups|).value.sets;
          forall i | 0 <= i < |groups| ::
            && groups[i].readProj == ps[i].read && groups[i].writeProj == ps[i].write
            && groups[i].relation < |t| && Denote(t, groups[i].relation) == sets[i]
  }

  /** The groups pairing each projection with the relation at the same position. */
  function Groups(ps: seq<Projection>, roots: seq<nat>): (gs: seq<GroupTransition>)
    requires |ps| == |roots|
    ensures |gs| == |ps| && forall i | 0 <= i < |gs| :: gs[i] == GroupTransition(ps[i].read, ps[i].write, roots[i])
  {
    if ps == [] then [] else [GroupTransition(ps[0].read, ps[0].write, roots[0])] + Groups(ps[1..], roots[1..])
  }

  /** Groups made of the projections read and of the relations read after them are as the file gives them. */
  lemma GroupsBuilt(input: seq<bv8>, ps: seq<Projection>, rest: seq<bv8>, rs: Relations, records: map<nat, Entry>, next: nat)
    requires |input| >= 4 && Repeat(ReadProjection, input[4..], U32At(input, 0)) == Success((ps, rest))
    requires RootsDenote(rs, records, next, rest, |ps|)
    ensures GroupsOk(rs.storage.table, records, next, input, Groups(ps, rs.roots))
  {
  }

  /** `n` projections read in a loop, one after the other: the same as reading them recursively. */
  method ReadProjectionList(input: seq<bv8>, n: nat) returns (res: Result<(seq<Projection>, seq<bv8>), ReadError>)
    ensures res == Repeat(ReadProjection, input, n)
  {
    var ps: seq<Projection> := [];
    var rest := input;
    for i := 0 to n
      invariant Repeat(ReadProjection, input, i) == Success((ps, rest))
    {
      var proj := ReadProjection(rest);
      RepeatSnoc(ReadProjection, input, i, ps, rest);
      if proj.Failure? {
        RepeatFails(ReadProjection, input, i + 1, n);
        return Failure(proj.error);
      }
      ps, rest := ps + [proj.value.0], proj.value.1;
    }
    return Success((ps, rest));
  }

  /** The groups after the initial states: all projections first, then one relation for each group, in order. */
  method ReadGroups(r: SylvanReader, s: Storage, input: seq<bv8>, ghost records: map<nat, Entry>)
      returns (res: Result<(seq<GroupTransition>, Storage), ReadError>)
    requires ReaderOk(r, s)
    ensures |input| < 4 ==> res == Failure(EndOfFile)
    ensures res.Success? ==> Valid(res.value.1) && Extends(s, res.value.1)
    ensures res.Success? && Denotes(r, s, records) ==> GroupsOk(res.value.1.table, records, r.lastIndex, input, res.value.0)
  {
    if |input| < 4 {
      return Failure(EndOfFile);
    }
    var n := U32At(input, 0);
    var projections := ReadProjectionList(input[4..], n);
    if projections.Failure? {
      return Failure(projections.error);
    }
    var (ps, rest) := projections.value;
    var rels := ReadRelations(r, s, rest, n, records);
    if rels.Failure? {
      return Failure(rels.error);
    }
    var rs := rels.value;
    var groups := Groups(ps, rs.roots);
    if Denotes(r, s, records) {
      GroupsBuilt(input, ps, rest, rs, records, r.lastIndex);
    }
    return Success((groups, rs.storage));
  }

  /**
    `load_model` of the example program, with the root lookup of
    `node_from_index`: the initial states keep the set the file gives them,
    and each relation stands for the set of its LDD in the file.
   */
  method LoadGroups(s: Storage, input: seq<bv8>) returns (res: Result<(nat, seq<GroupTransition>, Storage), ReadError>)
    requires Valid(s)
    ensures |input| < 8 ==> res == Failure(EndOfFile)
    ensures res.Success? ==> (ReadInitial(s, input).Success? &&
      var first := ReadInitial(s, input).value;
      var (initial, groups, s') := res.value;
      && Valid(s') && Extends(s, s')
      && initial == first.root && initial < |s'.table|
      && Denote(s'.table, initial) == Denote(first.storage.table, first.root)
      && GroupsOk(s'.table, History(map[], 2, input[8..]), 2 + WordAt(input[8..], 0), first.rest, groups))
  {
    var first := ReadInitial(s, input);
    if first.Failure? {
      return Failure(first.error);
    }
    var after := GroupsAfter(s, input, first.value);
    if after.Failure? {
      return Failure(after.error);
    }
    return Success((first.value.root, after.value.0, after.value.1));
  }

  /** The groups after the initial states `l`, read on with the reader and storage `l` left. */
  method GroupsAfter(s: Storage, input: seq<bv8>, l: Loaded) returns (res: Result<(seq<GroupTransition>, Storage), ReadError>)
    requires |input| >= 8 && InitialOk(s, input, l)
    ensures res.Success? ==> (
      var (groups, s') := res.value;
      && Valid(s') && Extends(s, s') && l.root < |s'.table|
      && Denote(s'.table, l.root) == Denote(l.storage.table, l.root)
      && GroupsOk(s'.table, History(map[], 2, input[8..]), 2 + WordAt(input[8..], 0), l.rest, groups))
  {
    var Loaded(initial, reader, st, rest) := l;
    ghost var records := History(map[], 2, input[8..]);
    var read := ReadGroups(reader, st, rest, records);
    if read.Failure? {
      return Failure(read.error);
    }
    var (groups, st') := read.value;
    DenoteFrame(st.table, st'.table, initial);
    ExtendsTrans(s, st, st');
    return Success((groups, st'));
  }
}
