/** `union`: merge another sketch, given as a decoded buffer, into this one.
    The sketch with the larger offset receives; cells are merged byte by byte
    with a nibble-wise max against the other side lowered by the offset
    difference; a trim may follow every byte; finally the other side's
    overflow holder goes through `add`. */
module Merge {
  import opened Nibbles
  import opened HllState
  import opened Renormalize
  import opened Insert
  import opened Codec

  /** A buffer `union` can merge without raising: 1031 bytes, and an
      overflow holder whose bucket can be re-added. */
  predicate Mergeable(buf: seq<Byte>)
  {
    |buf| >= HeaderBytes && Shaped(DecodeFields(buf))
  }

  /** The swap at the start of `union`: `s` stays the receiver only when its
      offset is strictly larger; on a tie the other side receives. The
      receiver keeps `s`'s version, whatever the other side's version byte.
      Returns (receiver, other side). */
  function Align(s: Sketch, o: Sketch): (p: (Sketch, Sketch))
    ensures p.0.offset == Max(s.offset, o.offset) && p.0.offset >= p.1.offset
    ensures p.0.version == s.version
    ensures multiset{p.0.(version := 0), p.1.(version := 0)} == multiset{s.(version := 0), o.(version := 0)}
    ensures s.offset > o.offset ==> p == (s, o)
    ensures s.offset <= o.offset ==> p.1 == s
    ensures Shaped(s) && Shaped(o) ==> Shaped(p.0) && Shaped(p.1)
    ensures WellFormed(s) && WellFormed(o) ==> WellFormed(p.0) && WellFormed(p.1)
  {
    if s.offset > o.offset then (s, o) else (o.(version := s.version), s)
  }

  /** One step of the merge loop on byte `i`, before its trim: each cell
      becomes the max of its own value and the other side's cell less
      `diff`, and the count gains one for each cell that leaves zero. */
  function MergeByte(s: Sketch, i: nat, ob: int, diff: nat): (r: Sketch)
    requires |s.regs| == NumBucketBytes && i < NumBucketBytes
    ensures |r.regs| == NumBucketBytes
    ensures r.(count := s.count, regs := s.regs) == s
    ensures forall j :: 0 <= j < NumBucketBytes && j != i ==> r.regs[j] == s.regs[j]
    ensures 0 <= r.regs[i] < 256
    ensures Hi(r.regs[i]) == Max(Hi(s.regs[i]), Hi(ob) - diff)
    ensures Lo(r.regs[i]) == Max(Lo(s.regs[i]), Lo(ob) - diff)
    ensures r.count == s.count - NonZeroIn(s.regs[i]) + NonZeroIn(r.regs[i])
  {
    var v := s.regs[i];
    // `(o & 0xf0) - (diff << 4)` is 16 * (Hi(ob) - diff); the max of two
    // multiples of 16 is 16 times the max of the cells.
    var hi := Max(Hi(v), Hi(ob) - diff);
    var lo := Max(Lo(v), Lo(ob) - diff);
    s.(regs := s.regs[i := Pack(hi, lo)],
       count := s.count
                + (if Hi(v) == 0 && hi > 0 then 1 else 0)
                + (if Lo(v) == 0 && lo > 0 then 1 else 0))
  }

  /** The merge loop over `rest`, the other side's bytes not yet visited:
      the byte at its head has index `NumBucketBytes - |rest|`. A zero byte
      is skipped; any other byte is merged and then trimmed. `diff` is the
      offset difference computed once before the loop: a trim inside the
      loop raises the receiver's offset but does not change `diff`. */
  function MergeRegisters(s: Sketch, rest: seq<int>, diff: nat): (r: Sketch)
    requires Shaped(s) && |rest| <= NumBucketBytes
    ensures Shaped(r)
    ensures r.version == s.version && r.ovfRegister == s.ovfRegister && r.ovfBucket == s.ovfBucket
    ensures r.offset >= s.offset
    decreases |rest|
  {
    if |rest| == 0 then s
    else if rest[0] == 0 then MergeRegisters(s, rest[1..], diff)
    else MergeRegisters(TrimBucket(MergeByte(s, NumBucketBytes - |rest|, rest[0], diff)), rest[1..], diff)
  }

  /** The body of `union` after the swap: the merge loop with the offset
      difference taken once, then `add` of the other side's overflow holder.
      On two sketches that keep the invariant the result keeps it, bounds
      both sides bucket by bucket, and accounts for both overflow holders. */
  function MergeAligned(rcv: Sketch, oth: Sketch): (r: Sketch)
    requires Shaped(rcv) && Shaped(oth) && rcv.offset >= oth.offset
    ensures Shaped(r) && r.version == rcv.version && r.offset >= rcv.offset
    ensures (r.ovfBucket, r.ovfRegister) == (rcv.ovfBucket, rcv.ovfRegister)
         || (r.ovfBucket, r.ovfRegister) == (oth.ovfBucket, oth.ovfRegister)
    ensures WellFormed(rcv) && WellFormed(oth) ==>
              && WellFormed(r)
              && (forall b :: 0 <= b < NumBuckets ==> Value(r, b) >= Value(rcv, b))
              && (forall b :: 0 <= b < NumBuckets ==> Value(r, b) >= Value(oth, b))
    ensures WellFormed(rcv) && WellFormed(oth) ==>
              && rcv.ovfRegister <= r.ovfRegister
              && (oth.ovfRegister <= r.ovfRegister || oth.ovfRegister <= Value(r, oth.ovfBucket))
    ensures WellFormed(rcv) && WellFormed(oth) ==>
              AtMostMaxLifted(r, rcv, oth)
    ensures WellFormed(rcv) && WellFormed(oth) && r.offset == rcv.offset ==>
              IsMaxOutside(r, rcv, oth)
  {
    var merged := MergeRegisters(rcv, oth.regs, rcv.offset - oth.offset);
    var r := Add(merged, oth.ovfBucket, oth.ovfRegister);
    if WellFormed(rcv) && WellFormed(oth) then
      MergeThenAdd(rcv, oth);
      MergeThenAddUpper(rcv, oth);
      r
    else
      r
  }

  /** `union(others)` on the decoded buffer of the other sketch. The result's
      offset is at least both offsets. */
  function Union(s: Sketch, buf: seq<Byte>): (r: Sketch)
    requires Shaped(s) && Mergeable(buf)
    ensures Shaped(r) && r.version == s.version
    ensures r.offset >= s.offset && r.offset >= buf[1]
    ensures (r.ovfBucket, r.ovfRegister) == (s.ovfBucket, s.ovfRegister)
         || (r.ovfBucket, r.ovfRegister) == (DecodeFields(buf).ovfBucket, DecodeFields(buf).ovfRegister)
  {
    var p := Align(s, DecodeFields(buf));
    MergeAligned(p.0, p.1)
  }

  /** Merging a byte keeps the store invariant, lowers no bucket's
      magnitude, and lifts both cells of byte `i` to at least the other
      side's cells less `diff`. */
  lemma MergeByteWellFormed(s: Sketch, i: nat, ob: int, diff: nat)
    requires WellFormed(s) && i < NumBucketBytes
    ensures var m := MergeByte(s, i, ob, diff);
            && WellFormed(m)
            && (forall b :: 0 <= b < NumBuckets ==> Value(m, b) >= Value(s, b))
            && Value(m, 2 * i) >= s.offset + Hi(ob) - diff
            && Value(m, 2 * i + 1) >= s.offset + Lo(ob) - diff
  {
    var m := MergeByte(s, i, ob, diff);
    assert m.regs == s.regs[i := m.regs[i]];
    NonZeroCellsUpdate(s.regs, i, m.regs[i]);
    assert m.offset == s.offset;
    forall b | 0 <= b < NumBuckets
      ensures Value(m, b) >= Value(s, b)
    {
      if b / 2 != i {
        assert m.regs[b / 2] == s.regs[b / 2];
      }
    }
    assert Register(m, 2 * i) == Hi(m.regs[i]);
    assert Register(m, 2 * i + 1) == Lo(m.regs[i]);
  }

  /** One step of the merge loop, a merged byte and its trim, keeps the
      invariant, lowers no bucket, and extends the prefix of buckets that
      bound the other side by the two buckets of byte `i`. */
  lemma MergeStepBounds(s: Sketch, o: Sketch, diff: nat, i: nat)
    requires WellFormed(s) && |o.regs| == NumBucketBytes && i < NumBucketBytes
    requires s.offset >= o.offset + diff
    requires forall b :: 0 <= b < 2 * i ==> Value(s, b) >= Value(o, b)
    ensures var t := TrimBucket(MergeByte(s, i, o.regs[i], diff));
            && WellFormed(t)
            && t.offset >= o.offset + diff
            && (forall b :: 0 <= b < NumBuckets ==> Value(t, b) >= Value(s, b))
            && (forall b :: 0 <= b < 2 * (i + 1) ==> Value(t, b) >= Value(o, b))
  {
    var m := MergeByte(s, i, o.regs[i], diff);
    MergeByteWellFormed(s, i, o.regs[i], diff);
    TrimPreserves(m);
    var t := TrimBucket(m);
    assert Register(o, 2 * i) == Hi(o.regs[i]) && Register(o, 2 * i + 1) == Lo(o.regs[i]);
    forall b | 0 <= b < 2 * (i + 1)
      ensures Value(t, b) >= Value(o, b)
    {
      if b >= 2 * i {
        assert b == 2 * i || b == 2 * i + 1;
      }
    }
  }

  /** A zero byte of the other side, which the loop skips, is already
      bounded: both of its buckets sit at the other side's offset. */
  lemma SkipStepBounds(s: Sketch, o: Sketch, diff: nat, i: nat)
    requires |s.regs| == NumBucketBytes && |o.regs| == NumBucketBytes && i < NumBucketBytes
    requires o.regs[i] == 0 && s.offset >= o.offset + diff
    requires forall b :: 0 <= b < 2 * i ==> Value(s, b) >= Value(o, b)
    ensures forall b :: 0 <= b < 2 * (i + 1) ==> Value(s, b) >= Value(o, b)
  {
    assert Register(o, 2 * i) == 0 && Register(o, 2 * i + 1) == 0;
    forall b | 0 <= b < 2 * (i + 1)
      ensures Value(s, b) >= Value(o, b)
    {
      if b >= 2 * i {
        assert b == 2 * i || b == 2 * i + 1;
      }
    }
  }

  /** The merge loop keeps the invariant and ends with every bucket at least
      as large as on both sides: the receiver it started from, and the other
      side, whose offset plus `diff` is not above the receiver's. */
  lemma {:induction false} MergeRegistersBounds(s: Sketch, o: Sketch, diff: nat, i: nat)
    requires WellFormed(s) && |o.regs| == NumBucketBytes && i <= NumBucketBytes
    requires s.offset >= o.offset + diff
    requires forall b :: 0 <= b < 2 * i ==> Value(s, b) >= Value(o, b)
    ensures var r := MergeRegisters(s, o.regs[i..], diff);
            && WellFormed(r)
            && (forall b :: 0 <= b < NumBuckets ==> Value(r, b) >= Value(s, b))
            && (forall b :: 0 <= b < NumBuckets ==> Value(r, b) >= Value(o, b))
    decreases NumBucketBytes - i
  {
    if i < NumBucketBytes {
      var rest := o.regs[i..];
      assert rest[0] == o.regs[i] && rest[1..] == o.regs[i + 1..];
      if o.regs[i] == 0 {
        SkipStepBounds(s, o, diff, i);
        MergeRegistersBounds(s, o, diff, i + 1);
      } else {
        var t := TrimBucket(MergeByte(s, i, o.regs[i], diff));
        MergeStepBounds(s, o, diff, i);
        MergeRegistersBounds(t, o, diff, i + 1);
      }
    }
  }

  /** One step of the merge loop, seen from above: the two buckets of byte
      `i` become exactly the larger of their magnitude and the other side's
      cell lifted by the receiver's current offset less `diff`; every other
      bucket keeps its magnitude (the trim moves the offset, not the values). */
  lemma MergeStepExact(s: Sketch, o: Sketch, diff: nat, i: nat)
    requires WellFormed(s) && |o.regs| == NumBucketBytes && i < NumBucketBytes
    ensures var t := TrimBucket(MergeByte(s, i, o.regs[i], diff));
            && WellFormed(t) && t.offset >= s.offset
            && (forall b :: 0 <= b < NumBuckets && b / 2 != i ==> Value(t, b) == Value(s, b))
            && (forall b :: 0 <= b < NumBuckets && b / 2 == i ==>
                  Value(t, b) == Max(Value(s, b), s.offset - diff + Register(o, b)))
  {
    var m := MergeByte(s, i, o.regs[i], diff);
    MergeByteWellFormed(s, i, o.regs[i], diff);
    TrimPreserves(m);
    forall b | 0 <= b < NumBuckets
      ensures b / 2 != i ==> Value(m, b) == Value(s, b)
      ensures b / 2 == i ==> Value(m, b) == Max(Value(s, b), s.offset - diff + Register(o, b))
    {
      if b / 2 != i {
        assert m.regs[b / 2] == s.regs[b / 2];
      }
    }
  }

  /** Buckets below `n` have the same magnitude in `r` as in `s`. */
  predicate KeptBelow(r: Sketch, s: Sketch, n: nat)
    requires |r.regs| == NumBucketBytes && |s.regs| == NumBucketBytes
  {
    forall b :: 0 <= b < n && b < NumBuckets ==> Value(r, b) == Value(s, b)
  }

  /** From bucket `n` on, `r` is at most the larger of `s` and the other
      side's cell lifted by `r`'s offset less `diff`. */
  predicate BoundedFrom(r: Sketch, s: Sketch, o: Sketch, diff: nat, n: nat)
    requires |r.regs| == NumBucketBytes && |s.regs| == NumBucketBytes && |o.regs| == NumBucketBytes
  {
    forall b :: n <= b < NumBuckets ==> Value(r, b) <= Max(Value(s, b), r.offset - diff + Register(o, b))
  }

  /** From bucket `n` on, `r` is exactly the larger of `s` and the other
      side's cell lifted by `s`'s offset less `diff`. */
  predicate ExactFrom(r: Sketch, s: Sketch, o: Sketch, diff: nat, n: nat)
    requires |r.regs| == NumBucketBytes && |s.regs| == NumBucketBytes && |o.regs| == NumBucketBytes
  {
    forall b :: n <= b < NumBuckets ==> Value(r, b) == Max(Value(s, b), s.offset - diff + Register(o, b))
  }

  /** Outside the buckets of the holders of `x` and `y`, `r` is at most the
      larger of `x`'s magnitude and `y`'s raised by the offset `r` gained
      over `x`. */
  predicate AtMostMaxLifted(r: Sketch, x: Sketch, y: Sketch)
    requires |r.regs| == NumBucketBytes && |x.regs| == NumBucketBytes && |y.regs| == NumBucketBytes
  {
    forall b :: 0 <= b < NumBuckets && !HolderAt(x, b) && !HolderAt(y, b) ==>
      Value(r, b) <= Max(Value(x, b), Value(y, b) + (r.offset - x.offset))
  }

  /** Outside the buckets of the holders of `x` and `y`, `r` is exactly the
      larger of `x`'s and `y`'s magnitudes. */
  predicate IsMaxOutside(r: Sketch, x: Sketch, y: Sketch)
    requires |r.regs| == NumBucketBytes && |x.regs| == NumBucketBytes && |y.regs| == NumBucketBytes
  {
    forall b :: 0 <= b < NumBuckets && !HolderAt(x, b) && !HolderAt(y, b) ==>
      Value(r, b) == Max(Value(x, b), Value(y, b))
  }

  /** Chaining one loop step (`s` to `t`, only byte `i` moved) with the
      rest of the loop (`t` to `r`, from byte `i + 1`) gives the bounds of
      `MergeRegistersUpper` from byte `i`. */
  lemma StepThenRest(s: Sketch, t: Sketch, r: Sketch, o: Sketch, diff: nat, i: nat)
    requires |s.regs| == NumBucketBytes && |t.regs| == NumBucketBytes
    requires |r.regs| == NumBucketBytes && |o.regs| == NumBucketBytes && i < NumBucketBytes
    requires s.offset <= t.offset <= r.offset
    requires forall b :: 0 <= b < NumBuckets && b / 2 != i ==> Value(t, b) == Value(s, b)
    requires forall b :: 0 <= b < NumBuckets && b / 2 == i ==>
               Value(t, b) == Max(Value(s, b), s.offset - diff + Register(o, b))
    requires KeptBelow(r, t, 2 * (i + 1)) && BoundedFrom(r, t, o, diff, 2 * (i + 1))
    requires r.offset == t.offset ==> ExactFrom(r, t, o, diff, 2 * (i + 1))
    ensures KeptBelow(r, s, 2 * i) && BoundedFrom(r, s, o, diff, 2 * i)
    ensures r.offset == s.offset ==> ExactFrom(r, s, o, diff, 2 * i)
  {
    forall b | 0 <= b < NumBuckets
      ensures b < 2 * i ==> Value(r, b) == Value(s, b)
      ensures 2 * i <= b ==> Value(r, b) <= Max(Value(s, b), r.offset - diff + Register(o, b))
      ensures r.offset == s.offset && 2 * i <= b ==>
                Value(r, b) == Max(Value(s, b), s.offset - diff + Register(o, b))
    {
      if b < 2 * (i + 1) {
        assert Value(r, b) == Value(t, b);
        if b >= 2 * i {
          assert b / 2 == i;
        }
      }
    }
  }

  /** The merge loop over `rest`, the other side's bytes from index `i` on,
      seen from above: buckets before byte `i` keep their magnitude; a later
      bucket ends no higher than the larger of its magnitude and the other
      side's cell lifted by the final offset less `diff`; and if no trim
      happened, exactly there. */
  lemma {:induction false} MergeRegistersUpper(s: Sketch, o: Sketch, diff: nat, rest: seq<int>, i: nat)
    requires WellFormed(s) && |o.regs| == NumBucketBytes && i <= NumBucketBytes
    requires rest == o.regs[i..]
    ensures var r := MergeRegisters(s, rest, diff);
            && KeptBelow(r, s, 2 * i) && BoundedFrom(r, s, o, diff, 2 * i)
            && (r.offset == s.offset ==> ExactFrom(r, s, o, diff, 2 * i))
    decreases |rest|
  {
    if |rest| > 0 {
      assert rest[0] == o.regs[i] && rest[1..] == o.regs[i + 1..];
      if rest[0] == 0 {
        SkipStepExact(s, o, diff, i);
        MergeRegistersUpper(s, o, diff, rest[1..], i + 1);
        StepThenRest(s, s, MergeRegisters(s, rest[1..], diff), o, diff, i);
      } else {
        var t := TrimBucket(MergeByte(s, i, o.regs[i], diff));
        MergeStepExact(s, o, diff, i);
        MergeRegistersUpper(t, o, diff, rest[1..], i + 1);
        StepThenRest(s, t, MergeRegisters(t, rest[1..], diff), o, diff, i);
      }
    }
  }

  /** A zero byte of the other side, which the loop skips, leaves its two
      buckets where the exact form of a merged step would put them. */
  lemma SkipStepExact(s: Sketch, o: Sketch, diff: nat, i: nat)
    requires |s.regs| == NumBucketBytes && |o.regs| == NumBucketBytes && i < NumBucketBytes
    requires o.regs[i] == 0
    ensures forall b :: 0 <= b < NumBuckets && b / 2 == i ==>
              Value(s, b) == Max(Value(s, b), s.offset - diff + Register(o, b))
  {
    assert Register(o, 2 * i) == 0 && Register(o, 2 * i + 1) == 0;
    forall b | 0 <= b < NumBuckets && b / 2 == i
      ensures Value(s, b) == Max(Value(s, b), s.offset - diff + Register(o, b))
    {
      assert b == 2 * i || b == 2 * i + 1;
    }
  }

  /** The merge loop over the whole register array and the final `add`
      keep the invariant and bound both sides; the receiver's holder stays in
      the slot or is displaced by a larger one, the other side's is re-added. */
  lemma MergeThenAdd(rcv: Sketch, oth: Sketch)
    requires WellFormed(rcv) && WellFormed(oth) && rcv.offset >= oth.offset
    ensures var r := Add(MergeRegisters(rcv, oth.regs, rcv.offset - oth.offset), oth.ovfBucket, oth.ovfRegister);
            && WellFormed(r)
            && (forall b :: 0 <= b < NumBuckets ==> Value(r, b) >= Value(rcv, b))
            && (forall b :: 0 <= b < NumBuckets ==> Value(r, b) >= Value(oth, b))
            && rcv.ovfRegister <= r.ovfRegister
            && (oth.ovfRegister <= r.ovfRegister || oth.ovfRegister <= Value(r, oth.ovfBucket))
  {
    var merged := MergeRegisters(rcv, oth.regs, rcv.offset - oth.offset);
    assert oth.regs[0..] == oth.regs;
    MergeRegistersBounds(rcv, oth, rcv.offset - oth.offset, 0);
    AddKeepsBounds(merged, oth.ovfBucket, oth.ovfRegister, rcv, oth);
    AddRecords(merged, oth.ovfBucket, oth.ovfRegister);
  }

  /** The merge loop and the final `add` seen from above: outside the two
      holders' buckets, every bucket ends at most at the larger of the
      receiver's magnitude and the other side's raised by the number of trims
      (the offset gained), and exactly at the larger of the two magnitudes
      when no trim happened. */
  lemma MergeThenAddUpper(rcv: Sketch, oth: Sketch)
    requires WellFormed(rcv) && WellFormed(oth) && rcv.offset >= oth.offset
    ensures var r := Add(MergeRegisters(rcv, oth.regs, rcv.offset - oth.offset), oth.ovfBucket, oth.ovfRegister);
            && AtMostMaxLifted(r, rcv, oth)
            && (r.offset == rcv.offset ==> IsMaxOutside(r, rcv, oth))
  {
    LoopWellFormed(rcv, oth);
    LoopUpper(rcv, oth);
    AddAfterLoop(rcv, oth, MergeRegisters(rcv, oth.regs, rcv.offset - oth.offset));
  }

  /** The final `add` of `union` on any store `merged` that the loop could
      have produced: it moves only the holders' buckets, so the loop's bounds
      carry over to the result. */
  lemma AddAfterLoop(rcv: Sketch, oth: Sketch, merged: Sketch)
    requires WellFormed(rcv) && WellFormed(oth) && WellFormed(merged)
    requires rcv.offset >= oth.offset && merged.offset >= rcv.offset
    requires merged.ovfBucket == rcv.ovfBucket && merged.ovfRegister == rcv.ovfRegister
    requires BoundedFrom(merged, rcv, oth, rcv.offset - oth.offset, 0)
    requires merged.offset == rcv.offset ==> ExactFrom(merged, rcv, oth, rcv.offset - oth.offset, 0)
    ensures var r := Add(merged, oth.ovfBucket, oth.ovfRegister);
            && AtMostMaxLifted(r, rcv, oth)
            && (r.offset == rcv.offset ==> IsMaxOutside(r, rcv, oth))
  {
    var r := Add(merged, oth.ovfBucket, oth.ovfRegister);
    AddFrame(merged, oth.ovfBucket, oth.ovfRegister);
    assert forall b :: 0 <= b < NumBuckets && !HolderAt(rcv, b) && !HolderAt(oth, b) ==>
             Value(r, b) == Value(merged, b);
    LoopThenFrame(rcv, oth, merged, r);
  }

  /** The whole merge loop, from above. */
  lemma LoopUpper(rcv: Sketch, oth: Sketch)
    requires WellFormed(rcv) && Shaped(oth) && rcv.offset >= oth.offset
    ensures var d := rcv.offset - oth.offset;
            var merged := MergeRegisters(rcv, oth.regs, d);
            && BoundedFrom(merged, rcv, oth, d, 0)
            && (merged.offset == rcv.offset ==> ExactFrom(merged, rcv, oth, d, 0))
  {
    assert oth.regs == oth.regs[0..];
    MergeRegistersUpper(rcv, oth, rcv.offset - oth.offset, oth.regs, 0);
  }

  /** The whole merge loop keeps the store invariant. */
  lemma LoopWellFormed(rcv: Sketch, oth: Sketch)
    requires WellFormed(rcv) && WellFormed(oth) && rcv.offset >= oth.offset
    ensures WellFormed(MergeRegisters(rcv, oth.regs, rcv.offset - oth.offset))
  {
    assert oth.regs[0..] == oth.regs;
    MergeRegistersBounds(rcv, oth, rcv.offset - oth.offset, 0);
  }

  /** The arithmetic of `MergeThenAddUpper`: the loop's bounds, with `diff`
      the offset difference, rewritten in the other side's magnitudes, then
      carried through an `add` that moves only the two holders' buckets. */
  lemma LoopThenFrame(rcv: Sketch, oth: Sketch, merged: Sketch, r: Sketch)
    requires Shaped(rcv) && Shaped(oth) && Shaped(merged) && Shaped(r)
    requires rcv.offset >= oth.offset && rcv.offset <= merged.offset <= r.offset
    requires BoundedFrom(merged, rcv, oth, rcv.offset - oth.offset, 0)
    requires merged.offset == rcv.offset ==> ExactFrom(merged, rcv, oth, rcv.offset - oth.offset, 0)
    requires forall b :: 0 <= b < NumBuckets && !HolderAt(rcv, b) && !HolderAt(oth, b) ==>
               Value(r, b) == Value(merged, b)
    ensures AtMostMaxLifted(r, rcv, oth)
    ensures r.offset == rcv.offset ==> IsMaxOutside(r, rcv, oth)
  {
    var d := rcv.offset - oth.offset;
    forall b | 0 <= b < NumBuckets && !HolderAt(rcv, b) && !HolderAt(oth, b)
      ensures Value(r, b) <= Max(Value(rcv, b), Value(oth, b) + (r.offset - rcv.offset))
      ensures r.offset == rcv.offset ==> Value(r, b) == Max(Value(rcv, b), Value(oth, b))
    {
      assert Value(r, b) == Value(merged, b);
      assert merged.offset - d + Register(oth, b) == Value(oth, b) + (merged.offset - rcv.offset);
    }
  }

  /** `add` on a sketch that bounds two others bucket by bucket still bounds
      them, and keeps the invariant. */
  lemma AddKeepsBounds(m: Sketch, bucket: nat, register: nat, x: Sketch, y: Sketch)
    requires WellFormed(m) && bucket < NumBuckets && register < 256
    requires |x.regs| == NumBucketBytes && |y.regs| == NumBucketBytes
    requires forall b :: 0 <= b < NumBuckets ==> Value(m, b) >= Value(x, b)
    requires forall b :: 0 <= b < NumBuckets ==> Value(m, b) >= Value(y, b)
    ensures var r := Add(m, bucket, register);
            && WellFormed(r)
            && (forall b :: 0 <= b < NumBuckets ==> Value(r, b) >= Value(x, b))
            && (forall b :: 0 <= b < NumBuckets ==> Value(r, b) >= Value(y, b))
  {
    AddWellFormed(m, bucket, register);
  }

  /** `union` keeps the store invariant and is an upper bound of both
      sketches: no bucket ends below its magnitude on either side. */
  lemma UnionBounds(s: Sketch, buf: seq<Byte>)
    requires WellFormed(s) && Mergeable(buf) && WellFormed(DecodeFields(buf))
    ensures var r := Union(s, buf);
            && WellFormed(r)
            && (forall b :: 0 <= b < NumBuckets ==> Value(r, b) >= Value(s, b))
            && (forall b :: 0 <= b < NumBuckets ==> Value(r, b) >= Value(DecodeFields(buf), b))
  {
    var o := DecodeFields(buf);
    var p := Align(s, o);
    assert Union(s, buf) == MergeAligned(p.0, p.1);
    if s.offset > o.offset {
      assert p == (s, o);
    } else {
      assert p == (o.(version := s.version), s);
      assert forall b :: 0 <= b < NumBuckets ==> Value(p.0, b) == Value(o, b);
    }
  }

  /** `union` is no more than the bucket-wise max of both sketches, plus
      one for each trim the merge needed (the offset the result gained over
      the larger of the two offsets); with no trim it is exactly that max.
      The two overflow holders' buckets are excepted: the final `add` can
      place a holder in its cell. */
  lemma UnionUpper(s: Sketch, buf: seq<Byte>)
    requires WellFormed(s) && Mergeable(buf) && WellFormed(DecodeFields(buf))
    ensures var r := Union(s, buf);
            var o := DecodeFields(buf);
            var k := r.offset - Max(s.offset, o.offset);
            && (forall b :: 0 <= b < NumBuckets && !HolderAt(s, b) && !HolderAt(o, b) ==>
                  Value(r, b) <= Max(Value(s, b), Value(o, b)) + k)
            && (k == 0 ==>
                  forall b :: 0 <= b < NumBuckets && !HolderAt(s, b) && !HolderAt(o, b) ==>
                    Value(r, b) == Max(Value(s, b), Value(o, b)))
  {
    var o := DecodeFields(buf);
    var p := Align(s, o);
    var r := Union(s, buf);
    assert r == MergeAligned(p.0, p.1);
    if s.offset > o.offset {
      assert p == (s, o);
    } else {
      assert p == (o.(version := s.version), s);
      assert forall b :: 0 <= b < NumBuckets ==> Value(p.0, b) == Value(o, b);
    }
  }

  /** The stale difference: after `k` trims inside the loop the receiver's
      offset is `k` above the offset `diff` was computed from, so a cell the
      other side wins is merged `k` steps above that side's magnitude. */
  lemma MergeAfterTrim(s: Sketch, i: nat, ob: int, diff: nat, otherOffset: nat, k: nat)
    requires |s.regs| == NumBucketBytes && i < NumBucketBytes
    requires s.offset == otherOffset + diff + k
    requires Hi(ob) - diff > Hi(s.regs[i])
    ensures Value(MergeByte(s, i, ob, diff), 2 * i) == otherOffset + Hi(ob) + k
  {
  }

  /** Merging a sketch with itself changes no byte and no count while the
      sketch is not full. */
  lemma {:induction false} MergeRegistersSelf(s: Sketch, i: nat)
    requires WellFormed(s) && s.count < NumBuckets && i <= NumBucketBytes
    ensures MergeRegisters(s, s.regs[i..], 0) == s
    decreases NumBucketBytes - i
  {
    if i < NumBucketBytes {
      MergeRegistersSelf(s, i + 1);
      var rest := s.regs[i..];
      assert rest[0] == s.regs[i] && rest[1..] == s.regs[i + 1..];
      if s.regs[i] != 0 {
        var v := s.regs[i];
        var m := MergeByte(s, i, v, 0);
        Unpack(v);
        Unpack(m.regs[i]);
        assert m.regs[i] == v;
        assert m.regs == s.regs;
        assert m == s;
      }
    }
  }

  /** `union` of a sketch's own encoding gives the sketch back, provided it
      is not full (a full sketch is trimmed on the first merged byte) and its
      overflow holder is outside the window (a holder the window has since
      reached is placed in its cell by the final `add`). */
  lemma UnionSelf(s: Sketch)
    requires WellFormed(s) && Encodable(s) && s.count < NumBuckets
    requires !InWindow(s, s.ovfRegister)
    ensures Mergeable(Encode(s)) && Union(s, Encode(s)) == s
  {
    DecodeEncodeExact(s);
    assert DecodeFields(Encode(s)) == s;
    assert Align(s, s) == (s, s);
    MergeRegistersSelf(s, 0);
    assert s.regs[0..] == s.regs;
    ReaddHolderOnce(s);
  }

  /** Every byte of the other side zero: the merge loop skips them all. */
  lemma {:induction false} MergeRegistersZeroOther(s: Sketch, rest: seq<int>, diff: nat)
    requires Shaped(s) && |rest| <= NumBucketBytes
    requires forall j :: 0 <= j < |rest| ==> rest[j] == 0
    ensures MergeRegisters(s, rest, diff) == s
    decreases |rest|
  {
    if |rest| > 0 {
      assert rest[0] == 0;
      MergeRegistersZeroOther(s, rest[1..], diff);
    }
  }

  /** Merging a sketch with a lower offset, no non-zero byte and no overflow
      holder (register 0, as in the empty sketch) changes nothing: the
      receiver keeps its place, every byte is skipped and the holder is
      below the window. */
  lemma UnionBlank(s: Sketch, buf: seq<Byte>)
    requires Shaped(s) && Mergeable(buf)
    requires DecodeFields(buf).offset < s.offset && DecodeFields(buf).ovfRegister == 0
    requires forall j :: HeaderBytes <= j < |buf| ==> buf[j] == 0
    ensures Union(s, buf) == s
  {
    var o := DecodeFields(buf);
    assert Align(s, o) == (s, o);
    assert Union(s, buf) == MergeAligned(s, o);
    MergeRegistersZeroOther(s, o.regs, s.offset - o.offset);
  }

  /** On a tie the buffer's side receives. When the caller's registers are
      all zero the loop skips every byte, so the result is the buffer's
      sketch under the caller's version, after `add` of the caller's holder
      alone: the buffer's own holder is not re-added. */
  lemma UnionTie(s: Sketch, o: Sketch)
    requires Shaped(s) && Shaped(o) && Encodable(o) && o.count < 65536
    requires s.offset == o.offset
    requires forall j :: 0 <= j < |s.regs| ==> s.regs[j] == 0
    ensures Mergeable(Encode(o))
    ensures Union(s, Encode(o)) == Add(o.(version := s.version), s.ovfBucket, s.ovfRegister)
  {
    DecodeEncodeExact(o);
    assert DecodeFields(Encode(o)) == o;
    assert Align(s, o) == (o.(version := s.version), s);
    MergeRegistersZeroOther(o.(version := s.version), s.regs, 0);
  }

  /** On a tie between two sketches with no non-zero register, the result
      places the caller's holder when the window has reached it, and leaves
      the buffer's holder bucket at the common offset. */
  lemma UnionTiePlacesCaller(s: Sketch, o: Sketch)
    requires WellFormed(s) && WellFormed(o) && Encodable(o) && o.count == 0
    requires s.offset == o.offset && s.version == o.version && s.ovfBucket != o.ovfBucket
    requires InWindow(s, s.ovfRegister)
    requires forall j :: 0 <= j < |s.regs| ==> s.regs[j] == 0
    requires forall c :: 0 <= c < NumBuckets ==> Value(o, c) == o.offset
    ensures Mergeable(Encode(o))
    ensures Value(Union(s, Encode(o)), s.ovfBucket) == s.ovfRegister
    ensures Value(Union(s, Encode(o)), o.ovfBucket) == o.offset
  {
    var r := Add(o, s.ovfBucket, s.ovfRegister);
    assert Value(r, s.ovfBucket) == s.ovfRegister && Value(r, o.ovfBucket) == o.offset by {
      AddBelowFull(o, s.ovfBucket, s.ovfRegister);
    }
    UnionTie(s, o);
    assert o.(version := s.version) == o;
  }

  /** A blank sketch at offset 2 whose overflow holder, register 17 in bucket
      `b`, the window has reached. */
  function TiedHolder(b: nat): (s: Sketch)
    requires b < NumBuckets
    ensures WellFormed(s) && Encodable(s) && s.version == 1 && s.offset == 2 && s.count == 0
    ensures s.ovfBucket == b && s.ovfRegister == 17 && InWindow(s, s.ovfRegister)
    ensures forall j :: 0 <= j < |s.regs| ==> s.regs[j] == 0
    ensures forall c :: 0 <= c < NumBuckets ==> Value(s, c) == 2
  {
    var regs := seq(NumBucketBytes, i => 0);
    NonZeroCellsZero(regs);
    Sketch(1, 2, 0, 17, b, regs)
  }

  /** `union` is not commutative: of two tied blank sketches with holders in
      buckets 0 and 1, each union places only the caller's holder. */
  lemma UnionNotCommutative()
    ensures Mergeable(Encode(TiedHolder(0))) && Mergeable(Encode(TiedHolder(1)))
    ensures Union(TiedHolder(0), Encode(TiedHolder(1))) != Union(TiedHolder(1), Encode(TiedHolder(0)))
  {
    var h0, h1 := TiedHolder(0), TiedHolder(1);
    UnionTiePlacesCaller(h0, h1);
    UnionTiePlacesCaller(h1, h0);
  }

  /** Both overflow holders survive `union`: each one's register is held by
      the result's overflow slot or reached by its bucket's magnitude. */
  lemma UnionRecordsHolders(s: Sketch, buf: seq<Byte>)
    requires WellFormed(s) && Mergeable(buf) && WellFormed(DecodeFields(buf))
    ensures var r := Union(s, buf);
            var o := DecodeFields(buf);
            && (s.ovfRegister <= r.ovfRegister || s.ovfRegister <= Value(r, s.ovfBucket))
            && (o.ovfRegister <= r.ovfRegister || o.ovfRegister <= Value(r, o.ovfBucket))
  {
    var o := DecodeFields(buf);
    var p := Align(s, o);
    assert Union(s, buf) == MergeAligned(p.0, p.1);
    if s.offset > o.offset {
      assert p == (s, o);
    } else {
      assert p == (o.(version := s.version), s);
    }
  }
}
