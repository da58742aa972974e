/** Insertion: `add(bucket, register)` with its single overflow slot, and
    `addValue` on an already hashed value. */
module Insert {
  import opened Nibbles
  import opened HllState
  import opened Rank
  import opened Renormalize

  /** A register is inside the window when `offset < register <= offset + 15`. */
  predicate InWindow(s: Sketch, register: nat)
  {
    s.offset < register <= s.offset + Range
  }

  /** The fitting path of `add` before the trim: store `register - offset`
      in the bucket's cell if it is larger, and count a cell that leaves zero.
      (`register & 0xff` is `register`, which is below 256.) */
  function Place(s: Sketch, bucket: nat, register: nat): (r: Sketch)
    requires Shaped(s) && bucket < NumBuckets && register < 256 && InWindow(s, register)
    ensures Shaped(r)
    ensures r.(count := s.count, regs := s.regs) == s
    ensures forall j :: 0 <= j < NumBucketBytes && j != bucket / 2 ==> r.regs[j] == s.regs[j]
    ensures 0 <= r.regs[bucket / 2] < 256
    ensures Register(r, bucket) == Max(Register(s, bucket), register - s.offset)
    ensures Sibling(bucket) < NumBuckets ==> Register(r, Sibling(bucket)) == Register(s, Sibling(bucket))
    ensures r.count == s.count + (if Register(s, bucket) == 0 then 1 else 0)
  {
    var stored := register - s.offset;
    var i := bucket / 2;
    var v := s.regs[i];
    if bucket % 2 == 0 then
      s.(regs := s.regs[i := Pack(Max(Hi(v), stored), Lo(v))],
         count := if Hi(v) == 0 && stored != 0 then s.count + 1 else s.count)
    else
      s.(regs := s.regs[i := Pack(Hi(v), Max(Lo(v), stored))],
         count := if Lo(v) == 0 && stored != 0 then s.count + 1 else s.count)
  }

  /** `add`. Below the window: nothing. Above it: if the register beats the
      overflow holder, the old holder is re-added and the new pair takes the
      slot; otherwise nothing. Inside it: `Place`, then one trim. */
  function Add(s: Sketch, bucket: nat, register: nat): (r: Sketch)
    requires Shaped(s) && bucket < NumBuckets && register < 256
    ensures Shaped(r) && r.version == s.version
    ensures s.offset <= r.offset <= s.offset + 1
    ensures r.ovfRegister >= s.ovfRegister
    ensures (r.ovfBucket, r.ovfRegister) == (s.ovfBucket, s.ovfRegister)
         || (r.ovfBucket, r.ovfRegister) == (bucket, register)
    ensures register <= s.offset ==> r == s
    decreases register
  {
    if register <= s.offset then s
    else if register > s.offset + Range then
      if register > s.ovfRegister then
        var t := Add(s, s.ovfBucket, s.ovfRegister);
        t.(ovfBucket := bucket, ovfRegister := register)
      else s
    else TrimBucket(Place(s, bucket, register))
  }

  /** Re-adding the overflow holder never reaches the displacement branch
      again (its register does not beat itself): the recursion is one level
      deep, the holder stays where it was, and a holder that still does not
      fit the window is dropped when the caller overwrites the slot. */
  lemma ReaddHolderOnce(s: Sketch)
    requires Shaped(s)
    ensures var t := Add(s, s.ovfBucket, s.ovfRegister);
            && t.ovfRegister == s.ovfRegister && t.ovfBucket == s.ovfBucket
            && (!InWindow(s, s.ovfRegister) ==> t == s)
  {
  }

  /** The overflow path: a register above the window is written to no cell,
      so every bucket but the old holder's keeps its magnitude. One larger
      than the holder takes the slot with its bucket. The old holder is then
      dropped if it still lies outside the window, and lands in its own
      bucket's cell if the window has reached it. A register not larger than
      the holder changes nothing. */
  lemma AddOverflow(s: Sketch, bucket: nat, register: nat)
    requires Shaped(s) && bucket < NumBuckets && register < 256
    requires register > s.offset + Range
    ensures var r := Add(s, bucket, register);
            && (register > s.ovfRegister ==> r.ovfBucket == bucket && r.ovfRegister == register)
            && (register > s.ovfRegister && !InWindow(s, s.ovfRegister) ==>
                  r == s.(ovfBucket := bucket, ovfRegister := register))
            && (register > s.ovfRegister && InWindow(s, s.ovfRegister) && WellFormed(s) ==>
                  Value(r, s.ovfBucket) == Max(Value(s, s.ovfBucket), s.ovfRegister))
            && (WellFormed(s) ==>
                  forall b :: 0 <= b < NumBuckets && !HolderAt(s, b) ==> Value(r, b) == Value(s, b))
            && (register <= s.ovfRegister ==> r == s)
  {
    if register > s.ovfRegister {
      ReaddHolderOnce(s);
      if InWindow(s, s.ovfRegister) && WellFormed(s) {
        PlaceValues(s, s.ovfBucket, s.ovfRegister);
        PlaceWellFormed(s, s.ovfBucket, s.ovfRegister);
        TrimPreserves(Place(s, s.ovfBucket, s.ovfRegister));
      }
    }
  }

  /** `add` keeps the store invariant. */
  lemma {:induction false} AddWellFormed(s: Sketch, bucket: nat, register: nat)
    requires WellFormed(s) && bucket < NumBuckets && register < 256
    ensures WellFormed(Add(s, bucket, register))
    ensures forall b :: 0 <= b < NumBuckets ==> Value(Add(s, bucket, register), b) >= Value(s, b)
    decreases register
  {
    if register <= s.offset {
    } else if register > s.offset + Range {
      if register > s.ovfRegister {
        AddWellFormed(s, s.ovfBucket, s.ovfRegister);
      }
    } else {
      var p := Place(s, bucket, register);
      PlaceWellFormed(s, bucket, register);
      TrimPreserves(p);
    }
  }

  /** `Place` keeps the invariant: the count moves exactly when the cell
      leaves zero. No bucket's magnitude goes down, and the placed bucket's
      magnitude reaches the register. */
  lemma PlaceWellFormed(s: Sketch, bucket: nat, register: nat)
    requires WellFormed(s) && bucket < NumBuckets && register < 256 && InWindow(s, register)
    ensures WellFormed(Place(s, bucket, register))
    ensures forall b :: 0 <= b < NumBuckets ==> Value(Place(s, bucket, register), b) >= Value(s, b)
    ensures Value(Place(s, bucket, register), bucket) >= register
  {
    var r := Place(s, bucket, register);
    var i := bucket / 2;
    NonZeroCellsUpdate(s.regs, i, r.regs[i]);
    assert r.regs == s.regs[i := r.regs[i]];
    forall b | 0 <= b < NumBuckets
      ensures Value(r, b) >= Value(s, b)
    {
      if b / 2 == i && b != bucket {
        assert b == Sibling(bucket);
      }
    }
  }

  /** An observation the sketch already covers changes nothing: when the
      bucket's magnitude reaches the register and the sketch is not full,
      `add` returns the sketch unchanged. */
  lemma AddCovered(s: Sketch, bucket: nat, register: nat)
    requires WellFormed(s) && bucket < NumBuckets && register < 256
    requires register <= s.offset + Range && register <= Value(s, bucket)
    requires s.count < NumBuckets
    ensures Add(s, bucket, register) == s
  {
    if InWindow(s, register) {
      var p := Place(s, bucket, register);
      var i := bucket / 2;
      Unpack(s.regs[i]);
      Unpack(p.regs[i]);
      assert p.regs[i] == s.regs[i] by {
        assert Cell(p.regs, bucket) == Cell(s.regs, bucket);
        assert Cell(p.regs, Sibling(bucket)) == Cell(s.regs, Sibling(bucket));
        assert Hi(p.regs[i]) == Hi(s.regs[i]) && Lo(p.regs[i]) == Lo(s.regs[i]) by {
          if bucket % 2 == 0 {
            assert Sibling(bucket) % 2 == 1;
          } else {
            assert Sibling(bucket) % 2 == 0;
          }
        }
      }
      assert p.regs == s.regs;
      assert p == s;
    }
  }

  /** Adding the same observation twice is the same as adding it once, as
      long as the first `add` did not move the window under it: either the
      register fitted the window and the result is not full, or the register
      went to the overflow slot and the offset stayed put. (When the first
      `add` shifts the window, the second can land differently: see
      `AddTwiceDisplaced` and `AddMayStayFull`.) */
  lemma AddTwice(s: Sketch, bucket: nat, register: nat)
    requires WellFormed(s) && bucket < NumBuckets && register < 256
    ensures var t := Add(s, bucket, register);
            && (register <= s.offset + Range && t.count < NumBuckets ==> Add(t, bucket, register) == t)
            && (register > s.offset + Range && t.offset == s.offset ==> Add(t, bucket, register) == t)
  {
    var t := Add(s, bucket, register);
    AddWellFormed(s, bucket, register);
    if InWindow(s, register) && t.count < NumBuckets {
      PlaceWellFormed(s, bucket, register);
      TrimPreserves(Place(s, bucket, register));
      if register > t.offset {
        AddCovered(t, bucket, register);
      }
    }
  }

  /** A well-formed sketch at offset `offset` whose cells all hold `c`
      except the one of bucket `zeroAt`, which is zero: 2047 non-zero cells. */
  function NearlyFull(offset: nat, c: nat, zeroAt: nat, ovfBucket: nat, ovfRegister: nat): (s: Sketch)
    requires 1 <= c <= Range && zeroAt < NumBuckets && ovfBucket < NumBuckets && ovfRegister < 256
    ensures WellFormed(s) && s.count == NumBuckets - 1 && s.offset == offset
    ensures s.ovfBucket == ovfBucket && s.ovfRegister == ovfRegister
    ensures forall b :: 0 <= b < NumBuckets ==> Register(s, b) == (if b == zeroAt then 0 else c)
  {
    var full := seq(NumBucketBytes, i => Pack(c, c));
    var z := if zeroAt % 2 == 0 then Pack(0, c) else Pack(c, 0);
    var regs := full[zeroAt / 2 := z];
    var s := Sketch(1, offset, NumBuckets - 1, ovfRegister, ovfBucket, regs);
    assert NonZeroCells(regs) == NumBuckets - 1 by {
      assert forall i :: 0 <= i < NumBucketBytes ==> Hi(full[i]) > 0 && Lo(full[i]) > 0;
      NonZeroCellsFull(full);
      NonZeroCellsUpdate(full, zeroAt / 2, z);
      assert NonZeroIn(full[zeroAt / 2]) == 2 && NonZeroIn(z) == 1;
    }
    forall b | 0 <= b < NumBuckets
      ensures Register(s, b) == (if b == zeroAt then 0 else c)
    {
      if b / 2 == zeroAt / 2 && b != zeroAt {
        assert b % 2 != zeroAt % 2;
      } else if b / 2 != zeroAt / 2 {
        assert regs[b / 2] == Pack(c, c);
      }
    }
    s
  }

  /** All cells of a well-formed sketch are non-zero exactly when it is full. */
  lemma FullWhenNoZeroCell(s: Sketch)
    requires WellFormed(s)
    requires forall b :: 0 <= b < NumBuckets ==> Register(s, b) > 0
    ensures s.count == NumBuckets
  {
    forall i | 0 <= i < NumBucketBytes
      ensures Hi(s.regs[i]) > 0 && Lo(s.regs[i]) > 0
    {
      assert Register(s, 2 * i) > 0 && Register(s, 2 * i + 1) > 0;
    }
    NonZeroCellsFull(s.regs);
  }

  /** When re-adding a displaced holder fills the last zero cell, the trim
      moves the window under the new register, and a second identical `add`
      lands that register in its cell instead of changing nothing. */
  lemma DisplacedThenPlaced(s: Sketch, bucket: nat, register: nat)
    requires WellFormed(s) && bucket < NumBuckets && register < 256
    requires register == s.offset + Range + 1
    requires InWindow(s, s.ovfRegister) && Register(s, s.ovfBucket) == 0
    requires s.count == NumBuckets - 1
    ensures var t := Add(s, bucket, register);
            t.offset == s.offset + 1 && t.ovfRegister == register && Add(t, bucket, register) != t
  {
    var p := Place(s, s.ovfBucket, s.ovfRegister);
    var t := Add(s, bucket, register);
    ReaddHolderOnce(s);
    PlaceWellFormed(s, s.ovfBucket, s.ovfRegister);
    TrimPreserves(p);
    AddWellFormed(s, bucket, register);
    assert Value(t, bucket) < register;
    PlaceWellFormed(t, bucket, register);
    TrimPreserves(Place(t, bucket, register));
  }

  /** A concrete case of `DisplacedThenPlaced`: offset 1, every cell 1 but
      bucket 5's, the holder (5, 16); `add(0, 17)` twice differs from once. */
  lemma AddTwiceDisplaced()
    ensures var s := NearlyFull(1, 1, 5, 5, 16);
            var t := Add(s, 0, 17);
            t.offset == 2 && Add(t, 0, 17) != t
  {
    DisplacedThenPlaced(NearlyFull(1, 1, 5, 5, 16), 0, 17);
  }

  /** The trim runs once per `add`: filling the last zero cell of a sketch
      whose other cells are all at least 2 trims once and leaves it full,
      and a second identical `add` trims again. */
  lemma FilledStaysFull(s: Sketch, bucket: nat, register: nat)
    requires WellFormed(s) && bucket < NumBuckets && register < 256
    requires InWindow(s, register) && register >= s.offset + 2 && Register(s, bucket) == 0
    requires s.count == NumBuckets - 1
    requires forall b :: 0 <= b < NumBuckets && b != bucket ==> Register(s, b) >= 2
    ensures var t := Add(s, bucket, register);
            && t.count == NumBuckets && t.offset == s.offset + 1
            && Add(t, bucket, register).offset == s.offset + 2
  {
    var p := Place(s, bucket, register);
    var t := Add(s, bucket, register);
    PlaceWellFormed(s, bucket, register);
    PlaceValues(s, bucket, register);
    assert p.offset == s.offset && Register(p, bucket) == register - s.offset;
    forall b | 0 <= b < NumBuckets && b != bucket
      ensures Register(p, b) >= 2
    {
      assert Value(p, b) == Value(s, b);
    }
    TrimPreserves(p);
    assert p.count == NumBuckets && t == TrimBucket(p);
    assert forall b :: 0 <= b < NumBuckets ==> Register(t, b) == Register(p, b) - 1;
    FullWhenNoZeroCell(t);
    assert Place(t, bucket, register).count == NumBuckets;
  }

  /** A concrete case of `FilledStaysFull`: every cell 2 but bucket 1's, at
      offset 0; `add(1, 2)` leaves 2048 non-zero cells. */
  lemma AddMayStayFull()
    ensures var s := NearlyFull(0, 2, 1, 0, 0);
            var t := Add(s, 1, 2);
            && s.count < NumBuckets && t.count == NumBuckets
            && Add(t, 1, 2) != t
  {
    FilledStaysFull(NearlyFull(0, 2, 1, 0, 0), 1, 2);
  }

  /** `Place` raises the placed bucket to exactly the register (if it was
      lower) and leaves every other bucket's magnitude as it was. */
  lemma PlaceValues(s: Sketch, bucket: nat, register: nat)
    requires Shaped(s) && bucket < NumBuckets && register < 256 && InWindow(s, register)
    ensures var p := Place(s, bucket, register);
            && Value(p, bucket) == Max(Value(s, bucket), register)
            && forall b :: 0 <= b < NumBuckets && b != bucket ==> Value(p, b) == Value(s, b)
  {
    var p := Place(s, bucket, register);
    forall b | 0 <= b < NumBuckets && b != bucket
      ensures Value(p, b) == Value(s, b)
    {
      if b / 2 == bucket / 2 {
        assert b == Sibling(bucket);
      }
    }
  }

  /** A fitting register on a sketch with room for one more non-zero cell
      triggers no trim: `add` raises its bucket to exactly the register (if
      lower) and keeps every other bucket's magnitude. */
  lemma AddBelowFull(s: Sketch, bucket: nat, register: nat)
    requires WellFormed(s) && bucket < NumBuckets && register < 256
    requires InWindow(s, register) && s.count + 1 < NumBuckets
    ensures var r := Add(s, bucket, register);
            && r.offset == s.offset
            && Value(r, bucket) == Max(Value(s, bucket), register)
            && forall b :: 0 <= b < NumBuckets && b != bucket ==> Value(r, b) == Value(s, b)
  {
    PlaceValues(s, bucket, register);
    assert Add(s, bucket, register) == Place(s, bucket, register);
  }

  /** `add` moves at most two buckets, the added one and the overflow
      holder's: every other bucket keeps its magnitude. */
  lemma AddFrame(s: Sketch, bucket: nat, register: nat)
    requires WellFormed(s) && bucket < NumBuckets && register < 256
    ensures forall b :: 0 <= b < NumBuckets && b != bucket && !HolderAt(s, b) ==>
              Value(Add(s, bucket, register), b) == Value(s, b)
  {
    AddRaises(s, bucket, register);
  }

  /** `add` raises the added bucket to at most the register, and only when
      the register fits the window; it raises the overflow holder's bucket to
      at most the holder's register, and no other bucket. */
  lemma AddRaises(s: Sketch, bucket: nat, register: nat)
    requires WellFormed(s) && bucket < NumBuckets && register < 256
    ensures var r := Add(s, bucket, register);
            && (forall b :: 0 <= b < NumBuckets && b != bucket && !HolderAt(s, b) ==>
                  Value(r, b) == Value(s, b))
            && (forall b :: 0 <= b < NumBuckets ==>
                  Value(r, b) <= Max(Value(s, b), Max(if b == bucket && register <= s.offset + Range then register else 0,
                                                      if b == s.ovfBucket then s.ovfRegister else 0)))
  {
    if InWindow(s, register) {
      PlaceValues(s, bucket, register);
      PlaceWellFormed(s, bucket, register);
      TrimPreserves(Place(s, bucket, register));
    } else if register > s.offset + Range && register > s.ovfRegister {
      ReaddHolderOnce(s);
      if InWindow(s, s.ovfRegister) {
        PlaceValues(s, s.ovfBucket, s.ovfRegister);
        PlaceWellFormed(s, s.ovfBucket, s.ovfRegister);
        TrimPreserves(Place(s, s.ovfBucket, s.ovfRegister));
      }
    }
  }

  /** Every observation is accounted for after `add`: either the bucket's
      magnitude reaches the register, or the overflow slot holds at least it. */
  lemma AddRecords(s: Sketch, bucket: nat, register: nat)
    requires WellFormed(s) && bucket < NumBuckets && register < 256
    ensures var r := Add(s, bucket, register);
            register <= Value(r, bucket) || register <= r.ovfRegister
  {
    if InWindow(s, register) {
      PlaceWellFormed(s, bucket, register);
      TrimPreserves(Place(s, bucket, register));
    }
  }

  /** `addValue` on the hash `h` (20 hex digits of the digest): bucket from
      the low 11 bits, register from the rank of `h >> 16`. */
  function AddValue(s: Sketch, h: nat): (r: Sketch)
    requires Shaped(s) && h < Hex20
    ensures Shaped(r) && s.offset <= r.offset <= s.offset + 1
  {
    Add(s, h % NumBuckets, HighestOnePosition(h / 65536))
  }

  /** After `addValue` the hashed value is recorded: its bucket's magnitude
      reaches its rank (which is in [1, 64]), or the overflow slot holds it. */
  lemma AddValueRecords(s: Sketch, h: nat)
    requires WellFormed(s) && h < Hex20
    ensures WellFormed(AddValue(s, h))
    ensures var rank := HighestOnePosition(h / 65536);
            && 1 <= rank <= 64
            && (rank <= Value(AddValue(s, h), h % NumBuckets) || rank <= AddValue(s, h).ovfRegister)
  {
    HashSplit(h);
    AddWellFormed(s, h % NumBuckets, HighestOnePosition(h / 65536));
    AddRecords(s, h % NumBuckets, HighestOnePosition(h / 65536));
  }
}
