/**
  Reading LDDs written by Sylvan: the nodes of a file are numbered from 2 in
  the order they are read, across every LDD one reader reads; indices 0 and
  1 stand for the empty set and the empty vector.
 */
module Sylvan {
  import opened Wrappers
  import opened Storage
  import opened SylvanFormat

  /** The reader's state: the node read under each file index, and the next index to assign. */
  datatype SylvanReader = SylvanReader(indexedSet: map<nat, nat>, lastIndex: nat)

  /** `SylvanReader::new`: nothing read yet, numbering starts at 2. */
  function ReaderNew(): (r: SylvanReader)
    ensures r.indexedSet == map[] && r.lastIndex == 2
  {
    SylvanReader(map[], 2)
  }

  /** Every file index read so far lies in `2 .. lastIndex` and names an inner node of the storage. */
  ghost predicate ReaderOk(r: SylvanReader, s: Storage)
  {
    && Valid(s) && 2 <= r.lastIndex
    && forall k | k in r.indexedSet :: 2 <= k < r.lastIndex && 2 <= r.indexedSet[k] < |s.table|
  }

  /**
    `node_from_index`: 0 and 1 are the terminals, any other index must name a
    node read before; an unknown index makes `unwrap` panic.
   */
  function NodeFromIndex(r: SylvanReader, s: Storage, index: nat): (res: Result<nat, ReadError>)
    ensures index == 0 ==> res == Success(EmptySet)
    ensures index == 1 ==> res == Success(EmptyVector)
    ensures index >= 2 ==> (res.Success? <==> index in r.indexedSet)
    ensures index >= 2 && res.Success? ==> res.value == r.indexedSet[index]
    ensures res.Failure? ==> res.error == UnknownIndex(index)
    ensures ReaderOk(r, s) && res.Success? ==> res.value < |s.table| && (index >= 2 ==> index < r.lastIndex)
  {
    if index == 0 then Success(EmptySet)
    else if index == 1 then Success(EmptyVector)
    else if index in r.indexedSet then Success(r.indexedSet[index])
    else Failure(UnknownIndex(index))
  }

  /** A decoded record with its fields as numbers: the value and the file indices of the children. */
  datatype Entry = Entry(value: u64, down: nat, right: nat)

  /**
    The record at the front of the input, decoded as `read_ldd` does it with
    the two words `a` (bytes 0 to 7) and `b` (bytes 8 to 15), written here as
    numbers: `right` is bytes 0 to 5 without the mark bit, `down` is `b`
    without its low 17 bits, and the value is bytes 6 to 9.
   */
  function EntryAt(input: seq<bv8>): (e: Entry)
    requires |input| >= 16
    ensures e.value < 0x1_0000_0000 && e.down < 0x8000_0000_0000 && e.right < 0x8000_0000_0000
  {
    NumberBound(input, 6, 4);
    NumberBound(input, 8, 8);
    NumberBound(input, 0, 6);
    Entry(LeNumber(input, 6, 4), WordAt(input, 8) / 0x2_0000, LeNumber(input, 0, 6) / 2)
  }

  // ---------------------------------------------------------------------------
  // What a file describes

  /** The set the record under file index `k` stands for, given the records by index. */
  ghost function FileDenote(records: map<nat, Entry>, k: nat): set<Vector>
    decreases k
  {
    if k == 0 then {}
    else if k == 1 then {[]}
    else if k in records && records[k].down < k && records[k].right < k then
      Prepend(records[k].value, FileDenote(records, records[k].down)) + FileDenote(records, records[k].right)
    else {}
  }

  /** Every node the reader holds denotes the set its record stands for. */
  ghost predicate Denotes(r: SylvanReader, s: Storage, records: map<nat, Entry>)
    requires ReaderOk(r, s)
  {
    && records.Keys == r.indexedSet.Keys
    && forall k | k in r.indexedSet :: Denote(s.table, r.indexedSet[k]) == FileDenote(records, k)
  }

  /** Records under later indices do not change what earlier ones stand for. */
  lemma {:induction false} FileDenoteFrame(records: map<nat, Entry>, next: nat, rec: Entry, j: nat)
    requires forall k | k in records :: k < next
    requires j < next
    ensures FileDenote(records[next := rec], j) == FileDenote(records, j)
    decreases j
  {
    if j >= 2 && j in records {
      var d, rt := records[j].down, records[j].right;
      if d < j && rt < j {
        FileDenoteFrame(records, next, rec, d);
        FileDenoteFrame(records, next, rec, rt);
      }
    }
  }

  // ---------------------------------------------------------------------------
  // Reading

  /**
    One record of `read_ldd`: decodes it, looks up its children, inserts the
    node and registers it under the next file index. A child index not read
    before, or a node `insert` would reject, makes the source panic.
   */
  function ReadNode(r: SylvanReader, s: Storage, rec: Entry): (res: Result<(SylvanReader, Storage), ReadError>)
    requires ReaderOk(r, s)
    ensures NodeFromIndex(r, s, rec.down).Failure? ==> res == Failure(UnknownIndex(rec.down))
    ensures NodeFromIndex(r, s, rec.down).Success? && NodeFromIndex(r, s, rec.right).Failure? ==>
      res == Failure(UnknownIndex(rec.right))
    ensures NodeFromIndex(r, s, rec.down).Success? && NodeFromIndex(r, s, rec.right).Success? ==>
      var down, right := NodeFromIndex(r, s, rec.down).value, NodeFromIndex(r, s, rec.right).value;
      && (!InsertAllowed(s, rec.value, down, right) ==> res == Failure(InvalidNode))
      && (InsertAllowed(s, rec.value, down, right) ==>
            res.Success? && r.lastIndex in res.value.0.indexedSet &&
            (res.value.1, res.value.0.indexedSet[r.lastIndex]) == Insert(s, rec.value, down, right))
    ensures res.Success? ==>
      && ReaderOk(res.value.0, res.value.1) && Extends(s, res.value.1)
      && res.value.0.lastIndex == r.lastIndex + 1
      && r.lastIndex !in r.indexedSet
      && res.value.0.indexedSet.Keys == r.indexedSet.Keys + {r.lastIndex}
      && (forall k | k in r.indexedSet :: res.value.0.indexedSet[k] == r.indexedSet[k])
  {
    match NodeFromIndex(r, s, rec.down)
    case Failure(e) => Failure(e)
    case Success(down) =>
      match NodeFromIndex(r, s, rec.right)
      case Failure(e) => Failure(e)
      case Success(right) =>
        if !InsertAllowed(s, rec.value, down, right) then
          Failure(InvalidNode)
        else
          var (s', n) := Insert(s, rec.value, down, right);
          Success((SylvanReader(r.indexedSet[r.lastIndex := n], r.lastIndex + 1), s'))
  }

  /** The children of a node read from the file stand for what their records stand for. */
  lemma ChildDenotes(r: SylvanReader, s: Storage, records: map<nat, Entry>, index: nat)
    requires ReaderOk(r, s) && Denotes(r, s, records)
    requires NodeFromIndex(r, s, index).Success?
    ensures NodeFromIndex(r, s, index).value < |s.table|
    ensures Denote(s.table, NodeFromIndex(r, s, index).value) == FileDenote(records, index)
  {
  }

  /** A record under the next index stands for its value prepended to its down child, joined with its right child. */
  lemma {:induction false} FileDenoteNext(records: map<nat, Entry>, next: nat, rec: Entry)
    requires forall k | k in records :: k < next
    requires 2 <= next && rec.down < next && rec.right < next
    ensures FileDenote(records[next := rec], next)
      == Prepend(rec.value, FileDenote(records, rec.down)) + FileDenote(records, rec.right)
  {
    FileDenoteFrame(records, next, rec, rec.down);
    FileDenoteFrame(records, next, rec, rec.right);
  }

  /** The node a record is read into denotes the set the record stands for. */
  lemma {:induction false} NewNodeDenotes(r: SylvanReader, s: Storage, rec: Entry, records: map<nat, Entry>, r': SylvanReader, s': Storage)
    requires ReaderOk(r, s) && Denotes(r, s, records)
    requires ReadNode(r, s, rec) == Success((r', s'))
    ensures r.lastIndex in r'.indexedSet && r'.indexedSet[r.lastIndex] < |s'.table|
    ensures Denote(s'.table, r'.indexedSet[r.lastIndex]) == FileDenote(records[r.lastIndex := rec], r.lastIndex)
  {
    var down, right := NodeFromIndex(r, s, rec.down).value, NodeFromIndex(r, s, rec.right).value;
    assert (s', r'.indexedSet[r.lastIndex]) == Insert(s, rec.value, down, right);
    ChildDenotes(r, s, records, rec.down);
    ChildDenotes(r, s, records, rec.right);
    FileDenoteNext(records, r.lastIndex, rec);
  }

  /** The nodes read before a record keep the sets their records stand for. */
  lemma {:induction false} OldNodesDenote(r: SylvanReader, s: Storage, rec: Entry, records: map<nat, Entry>, r': SylvanReader, s': Storage)
    requires ReaderOk(r, s) && Denotes(r, s, records)
    requires ReadNode(r, s, rec) == Success((r', s'))
    ensures forall k | k in r.indexedSet ::
      k in r'.indexedSet && r'.indexedSet[k] < |s'.table| &&
      Denote(s'.table, r'.indexedSet[k]) == FileDenote(records[r.lastIndex := rec], k)
  {
    forall k | k in r.indexedSet
      ensures k in r'.indexedSet && r'.indexedSet[k] < |s'.table|
      ensures Denote(s'.table, r'.indexedSet[k]) == FileDenote(records[r.lastIndex := rec], k)
    {
      DenoteFrame(s.table, s'.table, r.indexedSet[k]);
      FileDenoteFrame(records, r.lastIndex, rec, k);
    }
  }

  /** A node read from the file denotes the set its record stands for; the nodes read before keep theirs. */
  lemma {:induction false} ReadNodeDenotes(r: SylvanReader, s: Storage, rec: Entry, records: map<nat, Entry>, r': SylvanReader, s': Storage)
    requires ReaderOk(r, s) && Denotes(r, s, records)
    requires ReadNode(r, s, rec) == Success((r', s'))
    ensures ReaderOk(r', s') && Denotes(r', s', records[r.lastIndex := rec])
  {
    NewNodeDenotes(r, s, rec, records, r', s');
    OldNodesDenote(r, s, rec, records, r', s');
  }

  /** The reader and storage after reading `n` more nodes: nothing read before is lost or changed. */
  ghost predicate Grown(r: SylvanReader, s: Storage, r': SylvanReader, s': Storage, n: nat)
  {
    && ReaderOk(r', s') && Extends(s, s')
    && r'.lastIndex == r.lastIndex + n
    && (forall k :: k in r'.indexedSet <==> k in r.indexedSet || r.lastIndex <= k < r.lastIndex + n)
    && (forall k | k in r.indexedSet :: r'.indexedSet[k] == r.indexedSet[k])
  }

  /** Growing by `m` nodes and then by `n` more is growing by `m + n`. */
  lemma GrownTrans(r: SylvanReader, s: Storage, r1: SylvanReader, s1: Storage, r2: SylvanReader, s2: Storage, m: nat, n: nat)
    requires Grown(r, s, r1, s1, m) && Grown(r1, s1, r2, s2, n)
    ensures Grown(r, s, r2, s2, m + n)
  {
    ExtendsTrans(s, s1, s2);
  }

  /**
    Decoded records read one after the other, numbered on from the reader's
    next index; whatever the reader's nodes stood for before, they still do,
    and each new node stands for what its record does.
   */
  function ReadEntries(r: SylvanReader, s: Storage, recs: seq<Entry>): (res: Result<(SylvanReader, Storage), ReadError>)
    requires ReaderOk(r, s)
    ensures res.Success? ==> Grown(r, s, res.value.0, res.value.1, |recs|)
    ensures res.Success? ==> forall records | Denotes(r, s, records) ::
      Denotes(res.value.0, res.value.1, Numbered(records, r.lastIndex, recs))
    decreases |recs|
  {
    if recs == [] then Success((r, s))
    else
      match ReadNode(r, s, recs[0])
      case Failure(e) => Failure(e)
      case Success((r1, s1)) =>
        var res := ReadEntries(r1, s1, recs[1..]);
        if res.Success? then
          EntriesStep(r, s, recs, r1, s1, res.value.0, res.value.1);
          res
        else
          res
  }

  /** The records numbered from `start` on, added to those already numbered. */
  ghost function Numbered(records: map<nat, Entry>, start: nat, recs: seq<Entry>): map<nat, Entry>
    decreases |recs|
  {
    if recs == [] then records else Numbered(records[start := recs[0]], start + 1, recs[1..])
  }

  lemma {:induction false} NumberedFirst(r: SylvanReader, s: Storage, records: map<nat, Entry>, start: nat, next: nat,
                      recs: seq<Entry>, first: Entry, others: seq<Entry>)
    requires ReaderOk(r, s) && recs != [] && first == recs[0] && others == recs[1..] && next == start + 1
    requires Denotes(r, s, Numbered(records[start := first], next, others))
    ensures Denotes(r, s, Numbered(records, start, recs))
  {
    assert Numbered(records, start, recs) == Numbered(records[start := first], next, others);
  }

  /** Reading the first record and then the others grows the reader and keeps every node's meaning. */
  lemma {:induction false} EntriesStep(r: SylvanReader, s: Storage, recs: seq<Entry>, r1: SylvanReader, s1: Storage,
                    r': SylvanReader, s': Storage)
    requires ReaderOk(r, s) && recs != [] && ReadNode(r, s, recs[0]) == Success((r1, s1))
    requires ReaderOk(r1, s1) && Grown(r1, s1, r', s', |recs| - 1)
    requires forall records | Denotes(r1, s1, records) :: Denotes(r', s', Numbered(records, r1.lastIndex, recs[1..]))
    ensures Grown(r, s, r', s', |recs|)
    ensures forall records | Denotes(r, s, records) :: Denotes(r', s', Numbered(records, r.lastIndex, recs))
  {
    var first, others := recs[0], recs[1..];
    assert Grown(r, s, r1, s1, 1);
    GrownTrans(r, s, r1, s1, r', s', 1, |others|);
    assert r1.lastIndex == r.lastIndex + 1;
    forall records | Denotes(r, s, records) ensures Denotes(r', s', Numbered(records, r.lastIndex, recs)) {
      ReadNodeDenotes(r, s, first, records, r1, s1);
      assert Denotes(r', s', Numbered(records[r.lastIndex := first], r1.lastIndex, others));
      NumberedFirst(r', s', records, r.lastIndex, r1.lastIndex, recs, first, others);
    }
  }

  /** The records of the input, decoded in file order. */
  function Records(input: seq<bv8>, count: nat): (recs: seq<Entry>)
    requires |input| >= 16 * count
    ensures |recs| == count
  {
    if count == 0 then []
    else [EntryAt(input)] + Records(input[16..], count - 1)
  }

  /** The first `count` records of the input, all decoded first and then read in file order. */
  function ReadDecoded(r: SylvanReader, s: Storage, input: seq<bv8>, count: nat): Result<(SylvanReader, Storage), ReadError>
    requires ReaderOk(r, s) && |input| >= 16 * count
  {
    ReadEntries(r, s, Records(input, count))
  }

  /**
    `count` records, each read as soon as it is decoded. Reading stops at
    the first record that cannot be read or the end of the input; when it
    succeeds it is reading the decoded records one after the other.
   */
  function ReadRecords(r: SylvanReader, s: Storage, input: seq<bv8>, count: nat): (res: Result<(SylvanReader, Storage, seq<bv8>), ReadError>)
    requires ReaderOk(r, s)
    ensures |input| < 16 * count ==> res.Failure?
    ensures res.Success? ==>
      && |input| >= 16 * count
      && ReadDecoded(r, s, input, count) == Success((res.value.0, res.value.1))
      && res.value.2 == input[16 * count..]
    decreases count
  {
    if count == 0 then
      assert input[0..] == input;
      Success((r, s, input))
    else if |input| < 16 then
      Failure(EndOfFile)
    else
      var rec := EntryAt(input);
      match ReadNode(r, s, rec)
      case Failure(e) => Failure(e)
      case Success((r1, s1)) =>
        var res := ReadRecords(r1, s1, input[16..], count - 1);
        if res.Success? then
          assert input[16..][16 * (count - 1)..] == input[16 * count..];
          assert Records(input, count)[1..] == Records(input[16..], count - 1);
          res
        else
          res
  }

  /** An LDD read from the input, the reader and storage afterwards, and the input left over. */
  datatype Loaded = Loaded(root: nat, reader: SylvanReader, storage: Storage, rest: seq<bv8>)

  /** The input holds a node count, that many records and a root index. */
  predicate Framed(input: seq<bv8>)
  {
    |input| >= 8 && |input| >= 16 + 16 * WordAt(input, 0)
  }

  /** The root index of the LDD at the front of the input, written after its records. */
  function RootIndex(input: seq<bv8>): nat
    requires Framed(input)
  {
    WordAt(input, 8 + 16 * WordAt(input, 0))
  }

  /** The root index after the records, looked up as `node_from_index` does it. */
  function ReadRoot(r: SylvanReader, s: Storage, input: seq<bv8>): (res: Result<Loaded, ReadError>)
    ensures |input| < 8 ==> res == Failure(EndOfFile)
    ensures res.Success? ==>
      && |input| >= 8
      && NodeFromIndex(r, s, WordAt(input, 0)) == Success(res.value.root)
      && res.value == Loaded(res.value.root, r, s, input[8..])
  {
    if |input| < 8 then Failure(EndOfFile)
    else
      match ReadU64(input)
      case Failure(e) => Failure(e)
      case Success((index, rest)) =>
        match NodeFromIndex(r, s, index)
        case Failure(e) => Failure(e)
        case Success(root) => Success(Loaded(root, r, s, rest))
  }

  /**
    `read_ldd` with the root looked up as `node_from_index` does it, so a
    root index of 0 or 1 gives the empty set or the empty vector.
   */
  function ReadLdd(r: SylvanReader, s: Storage, input: seq<bv8>): (res: Result<Loaded, ReadError>)
    requires ReaderOk(r, s)
    ensures !Framed(input) ==> res.Failure?
    ensures res.Success? ==> (Framed(input) &&
      var count := WordAt(input, 0);
      && ReadDecoded(r, s, input[8..], count) == Success((res.value.reader, res.value.storage))
      && res.value.rest == input[16 + 16 * count..])
  {
    if |input| < 8 then Failure(EndOfFile)
    else
      var count := WordAt(input, 0);
      var recs := ReadRecords(r, s, input[8..], count);
      if recs.Failure? then Failure(recs.error)
      else
        LddTail(input, count, recs.value.2);
        ReadRoot(recs.value.0, recs.value.1, recs.value.2)
  }

  /** What follows the records is the root index and then the rest of the input. */
  lemma LddTail(input: seq<bv8>, count: nat, rest: seq<bv8>)
    requires |input| >= 8 && count == WordAt(input, 0)
    requires |input| >= 8 + 16 * count && rest == input[8..][16 * count..]
    ensures |rest| < 8 <==> !Framed(input)
    ensures |rest| >= 8 ==> Framed(input) && WordAt(rest, 0) == RootIndex(input) && rest[8..] == input[16 + 16 * count..]
  {
    var off := 8 + 16 * count;
    assert rest == input[off..];
    if |rest| >= 8 {
      WordShift(input, off);
      assert rest[8..] == input[off + 8..];
    }
  }

  /** The root read is the node `node_from_index` gives for the root index after the records. */
  lemma ReadLddRoot(r: SylvanReader, s: Storage, input: seq<bv8>)
    requires ReaderOk(r, s)
    requires ReadLdd(r, s, input).Success?
    ensures Framed(input)
    ensures var l := ReadLdd(r, s, input).value;
      NodeFromIndex(l.reader, l.storage, RootIndex(input)) == Success(l.root)
  {
    var count := WordAt(input, 0);
    var recs := ReadRecords(r, s, input[8..], count).value;
    LddTail(input, count, recs.2);
  }

  /**
    `read_ldd` only adds nodes: every node read before keeps its index, the
    reader numbers on by the node count, and the root is a node of the storage.
   */
  lemma ReadLddGrows(r: SylvanReader, s: Storage, input: seq<bv8>)
    requires ReaderOk(r, s)
    requires ReadLdd(r, s, input).Success?
    ensures Framed(input)
    ensures var l := ReadLdd(r, s, input).value;
      && Grown(r, s, l.reader, l.storage, WordAt(input, 0))
      && l.root < |l.storage.table|
      && |l.rest| < |input|
  {
    var l := ReadLdd(r, s, input).value;
    assert ReadDecoded(r, s, input[8..], WordAt(input, 0)) == Success((l.reader, l.storage));
    ReadLddRoot(r, s, input);
  }

  /** Adding nodes to the storage keeps the reader's indices valid. */
  lemma ReaderOkExtends(r: SylvanReader, s: Storage, s': Storage)
    requires ReaderOk(r, s) && Valid(s') && Extends(s, s')
    ensures ReaderOk(r, s')
  {
  }

  /** Adding nodes to the storage keeps what every node the reader holds stands for. */
  lemma DenotesExtends(r: SylvanReader, s: Storage, s': Storage, records: map<nat, Entry>)
    requires ReaderOk(r, s) && Denotes(r, s, records) && Valid(s') && Extends(s, s')
    ensures ReaderOk(r, s') && Denotes(r, s', records)
  {
    forall k | k in r.indexedSet ensures Denote(s'.table, r.indexedSet[k]) == FileDenote(records, k) {
      DenoteFrame(s.table, s'.table, r.indexedSet[k]);
    }
  }

  /** The records one call of `read_ldd` adds, numbered from the reader's next index. */
  ghost function History(records: map<nat, Entry>, next: nat, input: seq<bv8>): map<nat, Entry>
    requires Framed(input)
  {
    Numbered(records, next, Records(input[8..], WordAt(input, 0)))
  }

  /** The set the root index after the records stands for, given the records by index. */
  ghost function LddSet(records: map<nat, Entry>, input: seq<bv8>): set<Vector>
    requires Framed(input)
  {
    FileDenote(records, RootIndex(input))
  }

  /**
    The LDD read denotes exactly the set the file's root record stands for,
    every node read before keeps its index, and the reader moves on by the
    number of records.
   */
  lemma ReadLddDenote(r: SylvanReader, s: Storage, input: seq<bv8>, records: map<nat, Entry>)
    requires ReaderOk(r, s) && Denotes(r, s, records)
    requires ReadLdd(r, s, input).Success?
    ensures Framed(input)
    ensures var l := ReadLdd(r, s, input).value;
      && Grown(r, s, l.reader, l.storage, WordAt(input, 0))
      && Denotes(l.reader, l.storage, History(records, r.lastIndex, input))
      && l.root < |l.storage.table|
      && Denote(l.storage.table, l.root) == LddSet(History(records, r.lastIndex, input), input)
  {
    var l := ReadLdd(r, s, input).value;
    var recs := Records(input[8..], WordAt(input, 0));
    assert ReadEntries(r, s, recs) == Success((l.reader, l.storage));
    ReadLddRoot(r, s, input);
    ChildDenotes(l.reader, l.storage, History(records, r.lastIndex, input), RootIndex(input));
  }

  /** The root index as `read_ldd` looks it up: only among the nodes read, without the terminals. */
  function ReadRootAsWritten(r: SylvanReader, s: Storage, input: seq<bv8>): (res: Result<Loaded, ReadError>)
    ensures |input| < 8 ==> res == Failure(EndOfFile)
    ensures |input| >= 8 && WordAt(input, 0) !in r.indexedSet ==> res == Failure(UnknownIndex(WordAt(input, 0)))
    ensures res.Success? ==>
      && |input| >= 8 && WordAt(input, 0) in r.indexedSet
      && res.value == Loaded(r.indexedSet[WordAt(input, 0)], r, s, input[8..])
  {
    if |input| < 8 then Failure(EndOfFile)
    else
      match ReadU64(input)
      case Failure(e) => Failure(e)
      case Success((index, rest)) =>
        if index in r.indexedSet then Success(Loaded(r.indexedSet[index], r, s, rest))
        else Failure(UnknownIndex(index))
  }

  /** `read_ldd` as written: a root index of 0 or 1 is not found, and the source panics. */
  function ReadLddAsWritten(r: SylvanReader, s: Storage, input: seq<bv8>): (res: Result<Loaded, ReadError>)
    requires ReaderOk(r, s)
    ensures res.Success? ==> ReaderOk(res.value.reader, res.value.storage) && res.value.root >= 2
  {
    if |input| < 8 then Failure(EndOfFile)
    else
      match ReadRecords(r, s, input[8..], WordAt(input, 0))
      case Failure(e) => Failure(e)
      case Success((r', s', rest)) => ReadRootAsWritten(r', s', rest)
  }

  /**
    A file holding the empty set, with no records and root index 0: the
    reader as written panics on it, the corrected one returns the empty set.
   */
  lemma EmptySetFileAsWritten()
    ensures ReadLddAsWritten(ReaderNew(), New(), Zeros(16)) == Failure(UnknownIndex(0))
    ensures ReadLdd(ReaderNew(), New(), Zeros(16)).Success?
    ensures ReadLdd(ReaderNew(), New(), Zeros(16)).value.root == EmptySet
  {
    var input := Zeros(16);
    NumberZeros(input, 0, 8);
    var rest := input[8..];
    assert input[8..][16 * 0..] == rest && |rest| == 8;
    assert forall i | 0 <= i < 8 :: rest[i] == input[8 + i];
    NumberZeros(rest, 0, 8);
  }

  /** `n` zero bytes. */
  function Zeros(n: nat): (bs: seq<bv8>)
    ensures |bs| == n && forall i | 0 <= i < n :: bs[i] == 0
  {
    seq(n, _ => 0)
  }
}
