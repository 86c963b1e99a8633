/**
  The binary layout of Sylvan's LDD files: little-endian 32- and 64-bit
  words, and the two-word node record
  `RmRR RRRR RRRR VVVV | VVVV DcDD DDDD DDDD`, with V the value, D the down
  index, R the right index, m the mark bit and c the copy bit.

  `DecodeRecord`, `DecodeValue`, `FlagsIgnored`, `EncodedFields` and
  `DecodeEncode` state this layout on their own; they are not the decoding the
  reader performs, which reads each record arithmetically in `Sylvan.EntryAt`.
 */
module SylvanFormat {
  import opened Wrappers

  /** A positive number. */
  type pos = n: int | n > 0 witness 1

  /** A failure while reading a file: the input ended early, or the reader would panic. */
  datatype ReadError = EndOfFile | UnknownIndex(index: nat) | InvalidNode

  /** `u64::to_le_bytes`. */
  function LeBytes64(x: bv64): (bs: seq<bv8>)
    ensures |bs| == 8
  {
    [ (x & 0xFF) as bv8, ((x >> 8) & 0xFF) as bv8, ((x >> 16) & 0xFF) as bv8, ((x >> 24) & 0xFF) as bv8,
      ((x >> 32) & 0xFF) as bv8, ((x >> 40) & 0xFF) as bv8, ((x >> 48) & 0xFF) as bv8, ((x >> 56) & 0xFF) as bv8 ]
  }

  /** `u64::from_le_bytes`. */
  function FromLe64(bs: seq<bv8>): bv64
    requires |bs| == 8
  {
    (bs[0] as bv64) | (bs[1] as bv64 << 8) | (bs[2] as bv64 << 16) | (bs[3] as bv64 << 24)
    | (bs[4] as bv64 << 32) | (bs[5] as bv64 << 40) | (bs[6] as bv64 << 48) | (bs[7] as bv64 << 56)
  }

  /** `u32::from_le_bytes` of four bytes. */
  function FromLe32(b0: bv8, b1: bv8, b2: bv8, b3: bv8): bv32
  {
    (b0 as bv32) | (b1 as bv32 << 8) | (b2 as bv32 << 16) | (b3 as bv32 << 24)
  }

  /** A word to bytes and back. */
  lemma WordRoundTrip(x: bv64)
    ensures FromLe64(LeBytes64(x)) == x
  {
  }

  /**
    The number the `k` little-endian bytes from offset `at` stand for, as
    `u64::from_le_bytes` gives it when the result is used as a count or an
    index: each byte weighs 256 times the one before it.
   */
  function LeNumber(bs: seq<bv8>, at: nat, k: nat): nat
    requires at + k <= |bs|
    decreases k
  {
    if k == 0 then 0 else bs[at] as int + 0x100 * LeNumber(bs, at + 1, k - 1)
  }

  /** `256^k`, the first number `k` bytes cannot hold. */
  function Pow256(k: nat): pos
  {
    if k == 0 then 1 else 0x100 * Pow256(k - 1)
  }

  /** Zero bytes stand for 0. */
  lemma {:induction false} NumberZeros(bs: seq<bv8>, at: nat, k: nat)
    requires at + k <= |bs|
    requires forall i | at <= i < at + k :: bs[i] == 0
    ensures LeNumber(bs, at, k) == 0
    decreases k
  {
    if k > 0 {
      NumberZeros(bs, at + 1, k - 1);
    }
  }

  /** What `k` bytes stand for is below `256^k`. */
  lemma {:induction false} NumberBound(bs: seq<bv8>, at: nat, k: nat)
    requires at + k <= |bs|
    ensures LeNumber(bs, at, k) < Pow256(k)
    decreases k
  {
    if k > 0 {
      NumberBound(bs, at + 1, k - 1);
    }
  }

  /** The bytes stand for the same number wherever the sequence holding them starts. */
  lemma {:induction false} NumberShift(bs: seq<bv8>, off: nat, at: nat, k: nat)
    requires off + at + k <= |bs|
    ensures LeNumber(bs[off..], at, k) == LeNumber(bs, off + at, k)
    decreases k
  {
    if k > 0 {
      NumberShift(bs, off, at + 1, k - 1);
    }
  }

  /** The little-endian word at byte offset `at`. */
  function WordAt(input: seq<bv8>, at: nat): nat
    requires at + 8 <= |input|
  {
    LeNumber(input, at, 8)
  }

  /** The word at offset `off` is the first word of the input from `off` on. */
  lemma WordShift(input: seq<bv8>, off: nat)
    requires off + 8 <= |input|
    ensures WordAt(input[off..], 0) == WordAt(input, off)
  {
    NumberFrom(input, off, 8);
  }

  /** `NumberShift` from offset 0. */
  lemma NumberFrom(bs: seq<bv8>, off: nat, k: nat)
    requires off + k <= |bs|
    ensures LeNumber(bs[off..], 0, k) == LeNumber(bs, off, k)
  {
    NumberShift(bs, off, 0, k);
  }

  /** `read_u64`: eight bytes, little endian, as a number, or the end of the file. */
  function ReadU64(input: seq<bv8>): (r: Result<(nat, seq<bv8>), ReadError>)
    ensures |input| < 8 <==> r == Failure(EndOfFile)
    ensures r.Success? ==> r.value == (WordAt(input, 0), input[8..])
    ensures r.Success? ==> r.value.0 < 0x1_0000_0000_0000_0000
  {
    if |input| < 8 then Failure(EndOfFile)
    else
      NumberBound(input, 0, 8);
      Success((WordAt(input, 0), input[8..]))
  }

  /** `read_u32`: four bytes, little endian, or the end of the file. */
  function ReadU32(input: seq<bv8>): (r: Result<(bv32, seq<bv8>), ReadError>)
    ensures |input| < 4 <==> r == Failure(EndOfFile)
    ensures r.Success? ==> r.value == (FromLe32(input[0], input[1], input[2], input[3]), input[4..])
  {
    if |input| < 4 then Failure(EndOfFile) else Success((FromLe32(input[0], input[1], input[2], input[3]), input[4..]))
  }

  /** A decoded node record: the value and the file's own indices for `down` and `right`. */
  datatype Record = Record(value: bv32, down: bv64, right: bv64)

  /**
    The decoding in `read_ldd`: `right` is `a` without its top sixteen bits,
    shifted past the mark bit; `down` is `b` shifted past the value bits and
    the copy bit; the value is made of the two top bytes of `a` and the two
    bottom bytes of `b`.
   */
  function DecodeRecord(a: bv64, b: bv64): (r: Record)
    ensures r.right <= 0x7FFF_FFFF_FFFF && r.down <= 0x7FFF_FFFF_FFFF
  {
    var right := (a & 0x0000ffffffffffff) >> 1;
    var down := b >> 17;
    // Bytes 6 and 7 of `a` and bytes 0 and 1 of `b`, as `to_le_bytes` numbers them.
    var value := FromLe32(LeBytes64(a)[6], LeBytes64(a)[7], LeBytes64(b)[0], LeBytes64(b)[1]);
    Record(value, down, right)
  }

  /** The value is `(a >> 48) | ((b & 0xFFFF) << 16)`. */
  lemma DecodeValue(a: bv64, b: bv64)
    ensures DecodeRecord(a, b).value as bv64 == (a >> 48) | ((b & 0xFFFF) << 16)
  {
  }

  /** The mark bit (bit 0 of `a`) and the copy bit (bit 16 of `b`) make no difference. */
  lemma FlagsIgnored(a: bv64, b: bv64)
    ensures DecodeRecord(a ^ 1, b) == DecodeRecord(a, b)
    ensures DecodeRecord(a, b ^ 0x1_0000) == DecodeRecord(a, b)
  {
    DecodeValue(a, b);
    DecodeValue(a ^ 1, b);
    DecodeValue(a, b ^ 0x1_0000);
    assert ((a ^ 1) >> 48) == a >> 48;
    assert (b ^ 0x1_0000) & 0xFFFF == b & 0xFFFF;
    assert ((a ^ 1) & 0x0000ffffffffffff) >> 1 == (a & 0x0000ffffffffffff) >> 1;
    assert (b ^ 0x1_0000) >> 17 == b >> 17;
  }

  /** The bounds a record has to meet to fit the layout. */
  predicate Fits(r: Record)
  {
    r.right <= 0x7FFF_FFFF_FFFF && r.down <= 0x7FFF_FFFF_FFFF
  }

  /** The two words of a record, with the mark and copy bits clear. */
  function EncodeRecord(r: Record): (words: (bv64, bv64))
    requires Fits(r)
  {
    var value, down, right := r.value as bv64, r.down, r.right;
    ((right << 1) | ((value & 0xFFFF) << 48), (down << 17) | (value >> 16))
  }

  lemma EncodedFields(v: bv64, down: bv64, right: bv64)
    requires v <= 0xFFFF_FFFF && right <= 0x7FFF_FFFF_FFFF && down <= 0x7FFF_FFFF_FFFF
    ensures (((right << 1) | ((v & 0xFFFF) << 48)) >> 48) | ((((down << 17) | (v >> 16)) & 0xFFFF) << 16) == v
    ensures (((right << 1) | ((v & 0xFFFF) << 48)) & 0x0000ffffffffffff) >> 1 == right
    ensures ((down << 17) | (v >> 16)) >> 17 == down
  {
  }

  /** Decoding an encoded record gives it back. */
  lemma DecodeEncode(r: Record)
    requires Fits(r)
    ensures DecodeRecord(EncodeRecord(r).0, EncodeRecord(r).1) == r
  {
    var (a, b) := EncodeRecord(r);
    DecodeValue(a, b);
    EncodedFields(r.value as bv64, r.down, r.right);
  }
}
