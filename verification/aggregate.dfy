/** `getHLLUVM`: union a list of sketches into a fresh one and serialize. */
module Aggregate {
  import opened Nibbles
  import opened HllState
  import opened Codec
  import opened Merge

  /** Every buffer of the list can be merged. */
  predicate AllMergeable(bufs: seq<seq<Byte>>)
  {
    forall k :: 0 <= k < |bufs| ==> Mergeable(bufs[k])
  }

  /** Every buffer of the list decodes to a sketch that keeps the invariant. */
  predicate AllWellFormed(bufs: seq<seq<Byte>>)
  {
    forall k :: 0 <= k < |bufs| ==> Mergeable(bufs[k]) && WellFormed(DecodeFields(bufs[k]))
  }

  /** `union` of each buffer in turn, left to right. The offset ends at least
      as high as every offset met on the way. */
  function UnionAll(s: Sketch, bufs: seq<seq<Byte>>): (r: Sketch)
    requires Shaped(s) && AllMergeable(bufs)
    ensures Shaped(r) && r.version == s.version && r.offset >= s.offset
    ensures forall k :: 0 <= k < |bufs| ==> r.offset >= bufs[k][1]
    decreases |bufs|
  {
    if |bufs| == 0 then s
    else
      var t := Union(s, bufs[0]);
      assert forall k :: 1 <= k < |bufs| ==> bufs[k] == bufs[1..][k - 1];
      UnionAll(t, bufs[1..])
  }

  /** `getHLLUVM` before the base64 step. Writing the header fails when the
      merged offset has reached 256 (`chr` of a value above a byte). */
  function GetHllUvm(bufs: seq<seq<Byte>>): (r: Result<seq<Byte>>)
    requires AllMergeable(bufs)
    ensures r.Success? ==> |r.value| == HeaderBytes + NumBucketBytes && r.value[0] == 1
    ensures r.Failure? ==> r.error == ByteOutOfRange
  {
    var m := UnionAll(Empty(), bufs);
    if Encodable(m) then Success(Encode(m)) else Failure(ByteOutOfRange)
  }

  /** The fold keeps the invariant and bounds its start and every sketch in
      the list, bucket by bucket. */
  lemma {:induction false} UnionAllBounds(s: Sketch, bufs: seq<seq<Byte>>)
    requires WellFormed(s) && AllWellFormed(bufs)
    ensures var r := UnionAll(s, bufs);
            && WellFormed(r)
            && (forall b :: 0 <= b < NumBuckets ==> Value(r, b) >= Value(s, b))
            && (forall k, b :: 0 <= k < |bufs| && 0 <= b < NumBuckets ==>
                  Value(r, b) >= Value(DecodeFields(bufs[k]), b))
    decreases |bufs|
  {
    if |bufs| > 0 {
      var t := Union(s, bufs[0]);
      UnionBounds(s, bufs[0]);
      var rest := bufs[1..];
      AllWellFormedTail(bufs);
      UnionAllBounds(t, rest);
      assert UnionAll(s, bufs) == UnionAll(t, rest);
      BoundsStep(s, t, UnionAll(t, rest), bufs);
    }
  }

  /** The inductive step of `UnionAllBounds`: `t` bounds `s` and the first
      listed sketch, `r` bounds `t` and the rest of the list. */
  lemma BoundsStep(s: Sketch, t: Sketch, r: Sketch, bufs: seq<seq<Byte>>)
    requires Shaped(s) && Shaped(t) && Shaped(r) && AllMergeable(bufs) && |bufs| > 0
    requires forall b :: 0 <= b < NumBuckets ==> Value(t, b) >= Value(s, b)
    requires forall b :: 0 <= b < NumBuckets ==> Value(t, b) >= Value(DecodeFields(bufs[0]), b)
    requires forall b :: 0 <= b < NumBuckets ==> Value(r, b) >= Value(t, b)
    requires forall k, b :: 0 <= k < |bufs[1..]| && 0 <= b < NumBuckets ==>
               Value(r, b) >= Value(DecodeFields(bufs[1..][k]), b)
    ensures forall b :: 0 <= b < NumBuckets ==> Value(r, b) >= Value(s, b)
    ensures forall k, b :: 0 <= k < |bufs| && 0 <= b < NumBuckets ==>
              Value(r, b) >= Value(DecodeFields(bufs[k]), b)
  {
    forall k, b | 0 <= k < |bufs| && 0 <= b < NumBuckets
      ensures Value(r, b) >= Value(DecodeFields(bufs[k]), b)
    {
      if k > 0 {
        assert bufs[k] == bufs[1..][k - 1];
      }
    }
  }

  /** The tail of a list of well-formed buffers is one too. */
  lemma AllWellFormedTail(bufs: seq<seq<Byte>>)
    requires AllWellFormed(bufs) && |bufs| > 0
    ensures AllWellFormed(bufs[1..]) && AllMergeable(bufs[1..])
  {
    assert forall k :: 1 <= k < |bufs| ==> bufs[k] == bufs[1..][k - 1];
  }

  /** The larger of `v` and every listed sketch's magnitude at bucket `b`. */
  function MaxFrom(v: int, bufs: seq<seq<Byte>>, b: nat): (m: int)
    requires AllMergeable(bufs) && b < NumBuckets
    ensures m >= v
    ensures forall k :: 0 <= k < |bufs| ==> m >= Value(DecodeFields(bufs[k]), b)
    ensures m == v || exists k :: 0 <= k < |bufs| && m == Value(DecodeFields(bufs[k]), b)
    decreases |bufs|
  {
    if |bufs| == 0 then v
    else
      assert forall k :: 1 <= k < |bufs| ==> bufs[k] == bufs[1..][k - 1];
      var m := MaxFrom(Max(v, Value(DecodeFields(bufs[0]), b)), bufs[1..], b);
      assert m == Max(v, Value(DecodeFields(bufs[0]), b)) ==>
               m == v || m == Value(DecodeFields(bufs[0]), b);
      m
  }

  /** Raising the start by at most `d` raises the max by at most `d`. */
  lemma {:induction false} MaxFromShift(v: int, w: int, d: nat, bufs: seq<seq<Byte>>, b: nat)
    requires AllMergeable(bufs) && b < NumBuckets && v <= w + d
    ensures MaxFrom(v, bufs, b) <= MaxFrom(w, bufs, b) + d
    decreases |bufs|
  {
    if |bufs| > 0 {
      assert forall k :: 1 <= k < |bufs| ==> bufs[k] == bufs[1..][k - 1];
      var x := Value(DecodeFields(bufs[0]), b);
      MaxFromShift(Max(v, x), Max(w, x), d, bufs[1..], b);
    }
  }

  /** `b` is not the bucket of the overflow holder of `s` nor of any listed
      sketch. */
  predicate NoHolderAt(s: Sketch, bufs: seq<seq<Byte>>, b: nat)
    requires AllMergeable(bufs)
  {
    !HolderAt(s, b) && forall k :: 0 <= k < |bufs| ==> !HolderAt(DecodeFields(bufs[k]), b)
  }

  /** Outside the holders' buckets, `r` is at most the max over `s` and the
      list, plus the offset `r` gained over `s`. */
  predicate WithinMaxPlusGain(r: Sketch, s: Sketch, bufs: seq<seq<Byte>>)
    requires Shaped(r) && Shaped(s) && AllMergeable(bufs)
  {
    forall b :: 0 <= b < NumBuckets && NoHolderAt(s, bufs, b) ==>
      Value(r, b) <= MaxFrom(Value(s, b), bufs, b) + (r.offset - s.offset)
  }

  /** Outside the holders' buckets, `r` is exactly the max over `s` and the
      list. */
  predicate IsMaxOfAll(r: Sketch, s: Sketch, bufs: seq<seq<Byte>>)
    requires Shaped(r) && Shaped(s) && AllMergeable(bufs)
  {
    forall b :: 0 <= b < NumBuckets && NoHolderAt(s, bufs, b) ==> Value(r, b) == MaxFrom(Value(s, b), bufs, b)
  }

  /** The fold seen from above: outside the holders' buckets, every bucket
      ends at most at the max over the start and the list, plus the offset
      the fold gained over the start; and exactly at that max when the offset
      did not move (no list offset above the start's, no trim). */
  lemma {:induction false} UnionAllUpper(s: Sketch, bufs: seq<seq<Byte>>)
    requires WellFormed(s) && AllWellFormed(bufs)
    ensures var r := UnionAll(s, bufs);
            && WithinMaxPlusGain(r, s, bufs)
            && (r.offset == s.offset ==> IsMaxOfAll(r, s, bufs))
    decreases |bufs|
  {
    if |bufs| > 0 {
      var o := DecodeFields(bufs[0]);
      var t := Union(s, bufs[0]);
      var rest := bufs[1..];
      AllWellFormedTail(bufs);
      assert UnionAll(s, bufs) == UnionAll(t, rest);
      var r := UnionAll(t, rest);
      assert WellFormed(t) by {
        UnionBounds(s, bufs[0]);
      }
      UnionAllUpper(t, rest);
      UnionUpper(s, bufs[0]);
      FoldStep(s, o, t, r, bufs);
    }
  }

  /** The inductive step of `UnionAllUpper`: a first `union` (`s` to `t`)
      within the bounds of `UnionUpper`, and the rest of the fold (`t` to `r`)
      within the bounds of `UnionAllUpper`, give its bounds for the whole
      list. */
  lemma FoldStep(s: Sketch, o: Sketch, t: Sketch, r: Sketch, bufs: seq<seq<Byte>>)
    requires AllMergeable(bufs) && |bufs| > 0 && o == DecodeFields(bufs[0])
    requires Shaped(s) && Shaped(t) && Shaped(r)
    requires t.offset >= s.offset && t.offset >= o.offset && r.offset >= t.offset
    requires (t.ovfBucket, t.ovfRegister) == (s.ovfBucket, s.ovfRegister)
          || (t.ovfBucket, t.ovfRegister) == (o.ovfBucket, o.ovfRegister)
    requires forall b :: 0 <= b < NumBuckets && !HolderAt(s, b) && !HolderAt(o, b) ==>
               Value(t, b) <= Max(Value(s, b), Value(o, b)) + (t.offset - Max(s.offset, o.offset))
    requires t.offset - Max(s.offset, o.offset) == 0 ==>
               forall b :: 0 <= b < NumBuckets && !HolderAt(s, b) && !HolderAt(o, b) ==>
                 Value(t, b) == Max(Value(s, b), Value(o, b))
    requires AllMergeable(bufs[1..])
    requires WithinMaxPlusGain(r, t, bufs[1..])
    requires r.offset == t.offset ==> IsMaxOfAll(r, t, bufs[1..])
    ensures WithinMaxPlusGain(r, s, bufs)
    ensures r.offset == s.offset ==> IsMaxOfAll(r, s, bufs)
  {
    var rest := bufs[1..];
    assert forall k :: 1 <= k < |bufs| ==> bufs[k] == rest[k - 1];
    forall b | 0 <= b < NumBuckets && NoHolderAt(s, bufs, b)
      ensures Value(r, b) <= MaxFrom(Value(s, b), bufs, b) + (r.offset - s.offset)
      ensures r.offset == s.offset ==> Value(r, b) == MaxFrom(Value(s, b), bufs, b)
    {
      assert !HolderAt(o, b) && NoHolderAt(t, rest, b);
      FoldStepAt(s, o, t, r, bufs, b);
    }
  }

  /** One step of `UnionAllUpper` at bucket `b`: the first `union` (`s` to
      `t`) within its bound, then the rest of the fold (`t` to `r`) within
      its bound, give the bound of the whole fold. */
  lemma FoldStepAt(s: Sketch, o: Sketch, t: Sketch, r: Sketch, bufs: seq<seq<Byte>>, b: nat)
    requires AllMergeable(bufs) && |bufs| > 0 && o == DecodeFields(bufs[0]) && b < NumBuckets
    requires Shaped(s) && Shaped(t) && Shaped(r)
    requires t.offset >= s.offset && t.offset >= o.offset && r.offset >= t.offset
    requires Value(t, b) <= Max(Value(s, b), Value(o, b)) + (t.offset - Max(s.offset, o.offset))
    requires t.offset == Max(s.offset, o.offset) ==> Value(t, b) == Max(Value(s, b), Value(o, b))
    requires AllMergeable(bufs[1..])
    requires Value(r, b) <= MaxFrom(Value(t, b), bufs[1..], b) + (r.offset - t.offset)
    requires r.offset == t.offset ==> Value(r, b) == MaxFrom(Value(t, b), bufs[1..], b)
    ensures Value(r, b) <= MaxFrom(Value(s, b), bufs, b) + (r.offset - s.offset)
    ensures r.offset == s.offset ==> Value(r, b) == MaxFrom(Value(s, b), bufs, b)
  {
    var m := Max(Value(s, b), Value(o, b));
    assert MaxFrom(Value(s, b), bufs, b) == MaxFrom(m, bufs[1..], b);
    MaxFromShift(Value(t, b), m, t.offset - s.offset, bufs[1..], b);
  }

  /** `getHLLUVM` succeeds exactly when the merged offset is below 256; its
      output then decodes to a sketch that keeps the invariant and bounds
      every input sketch, bucket by bucket. Outside the input holders'
      buckets it is at most the bucket-wise max of the inputs plus its
      offset, and exactly that max when its offset is 0. */
  lemma GetHllUvmBounds(bufs: seq<seq<Byte>>)
    requires AllWellFormed(bufs)
    ensures var m := UnionAll(Empty(), bufs);
            var r := GetHllUvm(bufs);
            && (r.Success? <==> m.offset < 256)
            && (r.Success? ==>
                  && Decode(r.value) == Success(m)
                  && WellFormed(m)
                  && (forall k, b :: 0 <= k < |bufs| && 0 <= b < NumBuckets ==>
                        Value(m, b) >= Value(DecodeFields(bufs[k]), b))
                  && WithinMaxPlusGain(m, Empty(), bufs)
                  && (m.offset == 0 ==> IsMaxOfAll(m, Empty(), bufs)))
  {
    var m := UnionAll(Empty(), bufs);
    UnionAllBounds(Empty(), bufs);
    UnionAllUpper(Empty(), bufs);
    NonZeroCellsFull(m.regs);
    if m.offset < 256 {
      DecodeEncodeExact(m);
    }
  }
}
