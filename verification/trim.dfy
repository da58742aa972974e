/** Renormalisation (`trimBucket`): once every cell is non-zero, raise the
    offset by one and take one off every cell. */
module Renormalize {
  import opened Nibbles
  import opened HllState

  /** Every byte less 0x11, as the unbounded `v -= 0x11` of `trimBucket`. */
  function Decremented(regs: seq<int>): (d: seq<int>)
    ensures |d| == |regs|
  {
    seq(|regs|, i requires 0 <= i < |regs| => regs[i] - 0x11)
  }

  /** `trimBucket`: a no-op below 2048 non-zero cells; otherwise one step of
      the offset, every byte decremented by 0x11 and the count recomputed
      from the cells. It runs once and is not repeated. */
  function TrimBucket(s: Sketch): (r: Sketch)
    requires |s.regs| == NumBucketBytes
    ensures |r.regs| == NumBucketBytes
    ensures r.version == s.version && r.ovfRegister == s.ovfRegister && r.ovfBucket == s.ovfBucket
    ensures r == s <==> s.count < NumBuckets
    ensures r != s ==> r.offset == s.offset + 1 && r.count == NonZeroCells(r.regs)
  {
    if s.count < NumBuckets then s
    else
      var regs := Decremented(s.regs);
      s.(offset := s.offset + 1, count := NonZeroCells(regs), regs := regs)
  }

  /** The loop of `trimBucket`: decrement byte by byte, counting the cells that are
      still non-zero as it goes. It computes `TrimBucket`. */
  method TrimBucketInPlace(s: Sketch) returns (r: Sketch)
    requires |s.regs| == NumBucketBytes
    ensures r == TrimBucket(s)
  {
    if s.count < NumBuckets {
      return s;
    }
    var regs := s.regs;
    var count := 0;
    var i := 0;
    while i < NumBucketBytes
      invariant 0 <= i <= NumBucketBytes && |regs| == NumBucketBytes
      invariant forall j :: 0 <= j < i ==> regs[j] == s.regs[j] - 0x11
      invariant forall j :: i <= j < NumBucketBytes ==> regs[j] == s.regs[j]
      invariant count == NonZeroCells(regs[..i])
    {
      var v := regs[i];
      v := v - 0x11;
      if Hi(v) > 0 {
        count := count + 1;
      }
      if Lo(v) > 0 {
        count := count + 1;
      }
      NonZeroCellsAppend(regs[..i], v);
      regs := regs[i := v];
      assert regs[..i + 1] == regs[..i] + [v];
      i := i + 1;
    }
    assert regs == Decremented(s.regs);
    assert regs[..NumBucketBytes] == regs;
    r := s.(offset := s.offset + 1, count := count, regs := regs);
  }

  /** Decrementing a byte whose two cells are non-zero decrements each cell
      and borrows nothing: the byte stays a byte. */
  lemma DecrementByte(v: int)
    requires 0 <= v < 256 && Hi(v) > 0 && Lo(v) > 0
    ensures 0 <= v - 0x11 < 256
    ensures Hi(v - 0x11) == Hi(v) - 1 && Lo(v - 0x11) == Lo(v) - 1
  {
    Unpack(v);
    assert v - 0x11 == Pack(Hi(v) - 1, Lo(v) - 1);
  }

  /** Under the store invariant the trim fires only when every cell is at
      least one, so it keeps the invariant, lowers every cell by exactly one,
      and leaves the magnitude `offset + cell` of every bucket unchanged. */
  lemma TrimPreserves(s: Sketch)
    requires WellFormed(s)
    ensures WellFormed(TrimBucket(s))
    ensures TrimBucket(s).offset >= s.offset
    ensures forall b :: 0 <= b < NumBuckets ==> Value(TrimBucket(s), b) == Value(s, b)
    ensures s.count >= NumBuckets ==>
              forall b :: 0 <= b < NumBuckets ==> Register(TrimBucket(s), b) == Register(s, b) - 1
  {
    NonZeroCellsFull(s.regs);
    if s.count >= NumBuckets {
      var r := TrimBucket(s);
      forall i | 0 <= i < NumBucketBytes
        ensures 0 <= r.regs[i] < 256
        ensures Hi(r.regs[i]) == Hi(s.regs[i]) - 1 && Lo(r.regs[i]) == Lo(s.regs[i]) - 1
      {
        DecrementByte(s.regs[i]);
      }
      forall b | 0 <= b < NumBuckets
        ensures Register(r, b) == Register(s, b) - 1
      {
        assert b / 2 < NumBucketBytes;
      }
    }
  }

  /** The trim is not looped: a sketch whose cells are all 2 is still full
      after one trim, so the count is 2048 when `add` returns. */
  lemma TrimOnceMayStayFull()
    ensures var s := Sketch(1, 0, NumBuckets, 0, 0, seq(NumBucketBytes, i => 0x22));
            WellFormed(s) && TrimBucket(s).count == NumBuckets && TrimBucket(s).offset == 1
  {
    var s := Sketch(1, 0, NumBuckets, 0, 0, seq(NumBucketBytes, i => 0x22));
    assert forall i :: 0 <= i < NumBucketBytes ==> Hi(s.regs[i]) > 0 && Lo(s.regs[i]) > 0;
    NonZeroCellsFull(s.regs);
    var r := TrimBucket(s);
    assert forall i :: 0 <= i < NumBucketBytes ==> r.regs[i] == 0x11;
    assert forall i :: 0 <= i < NumBucketBytes ==> Hi(r.regs[i]) > 0 && Lo(r.regs[i]) > 0;
    NonZeroCellsFull(r.regs);
  }
}
