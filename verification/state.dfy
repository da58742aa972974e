/** The register store of a Druid-compatible HyperLogLog sketch: five header
    fields and 1024 bytes that pack 2048 four-bit registers. */
module HllState {
  import opened Nibbles

  /** `1 << 11` buckets: eleven bits of the hash choose the bucket. */
  const NumBuckets := 2048
  /** Two buckets per byte: `NumBuckets >> 1`. */
  const NumBucketBytes := 1024
  /** The largest value a four-bit cell holds. */
  const Range := 15

  /** A sketch. `regs` holds bytes as the Python implementation's unbounded integers: a
      renormalisation of a sketch whose `count` field does not match its
      cells can push a byte out of [0, 255]. */
  datatype Sketch = Sketch(
    version: nat,
    offset: nat,
    count: nat,
    ovfRegister: nat,
    ovfBucket: nat,
    regs: seq<int>)

  /** What the operations need in order not to raise: a full register array,
      and an overflow holder that can be re-added. */
  predicate Shaped(s: Sketch)
  {
    && |s.regs| == NumBucketBytes
    && s.ovfRegister < 256
    && s.ovfBucket < NumBuckets
  }

  predicate IsBytes(regs: seq<int>)
  {
    forall i :: 0 <= i < |regs| ==> 0 <= regs[i] < 256
  }

  /** The store invariant: every register byte is a byte, and the non-zero
      count field equals the number of non-zero cells. */
  predicate WellFormed(s: Sketch)
  {
    && Shaped(s)
    && IsBytes(s.regs)
    && s.count == NonZeroCells(s.regs)
  }

  /** The offset-relative value stored for bucket `b`. */
  function Register(s: Sketch, b: nat): (c: nat)
    requires |s.regs| == NumBucketBytes && b < NumBuckets
    ensures c <= Range
  {
    Cell(s.regs, b)
  }

  /** The register magnitude bucket `b` represents: the offset plus its cell. */
  function Value(s: Sketch, b: nat): nat
    requires |s.regs| == NumBucketBytes && b < NumBuckets
  {
    s.offset + Register(s, b)
  }

  /** `b` is the bucket of the overflow holder of `s`. A holder register of
      0, as in the empty sketch, holds nothing: it never fits a window. */
  predicate HolderAt(s: Sketch, b: nat)
  {
    s.ovfRegister > 0 && s.ovfBucket == b
  }

  /** The sketch built without a buffer: version 1, everything else zero. */
  function Empty(): (s: Sketch)
    ensures WellFormed(s) && s.version == 1
    ensures s.count == 0 && s.ovfRegister == 0
    ensures forall b :: 0 <= b < NumBuckets ==> Value(s, b) == 0
  {
    var regs := seq(NumBucketBytes, i => 0);
    NonZeroCellsZero(regs);
    Sketch(1, 0, 0, 0, 0, regs)
  }

  /** Under the invariant the count field is the number of buckets whose
      register is non-zero, hence at most 2048. */
  lemma CountIsNonZeroRegisters(s: Sketch)
    requires WellFormed(s)
    ensures s.count == NonZeroBuckets(s.regs, NumBuckets)
    ensures s.count <= NumBuckets
  {
    NonZeroCellsCountsBuckets(s.regs, NumBucketBytes);
    assert s.regs[..NumBucketBytes] == s.regs;
    NonZeroCellsFull(s.regs);
  }
}
