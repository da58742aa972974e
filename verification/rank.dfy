/** The bucket/register split of a hashed value: the low bits choose the
    bucket, the position of the highest set bit of the rest gives the rank. */
module Rank {

  function Pow2(k: nat): (p: nat)
    ensures p >= 1
  {
    if k == 0 then 1 else 2 * Pow2(k - 1)
  }

  /** The number of `a >>= 1` steps before `a` reaches zero: the bit length
      of `a`, so that `a` lies in [2^(n-1), 2^n) when positive. */
  function ShiftCount(a: nat): (n: nat)
    ensures a < Pow2(n)
    ensures a >= 1 ==> n >= 1 && Pow2(n - 1) <= a
  {
    if a == 0 then 0 else 1 + ShiftCount(a / 2)
  }

  /** `getHighestOnePosition`: `64 - ShiftCount(a) + 1`, clamped to [0, 64].
      For `a == 0` the loop never runs and the clamp turns 65 into 64. The
      lower clamp is reached exactly by inputs wider than 64 bits. */
  function HighestOnePosition(a: nat): (pos: nat)
    ensures pos <= 64
    ensures pos == 0 <==> a >= Pow2(64)
  {
    var p := 64 - ShiftCount(a) + 1;
    if p > 64 then 64
    else if p <= 0 then Pow2Monotone(64, ShiftCount(a) - 1); 0
    else Pow2Monotone(ShiftCount(a), 64); p
  }

  lemma {:induction false} Pow2Monotone(i: nat, j: nat)
    requires i <= j
    ensures Pow2(i) <= Pow2(j)
  {
    if i < j {
      Pow2Monotone(i, j - 1);
    }
  }

  lemma {:induction false} Pow2Add(i: nat, j: nat)
    ensures Pow2(i + j) == Pow2(i) * Pow2(j)
  {
    if j > 0 {
      Pow2Add(i, j - 1);
    }
  }

  /** On a 64-bit input the rank is in [1, 64]. A zero input has rank 64;
      a positive one has rank `65 - bitlength(a)`, i.e. one more than the
      number of leading zeros in a 64-bit word. */
  lemma RankOf64Bits(a: nat)
    requires a < Pow2(64)
    ensures 1 <= HighestOnePosition(a) <= 64
    ensures a == 0 ==> HighestOnePosition(a) == 64
    ensures a >= 1 ==>
              && HighestOnePosition(a) == 65 - ShiftCount(a)
              && Pow2(64 - HighestOnePosition(a)) <= a < Pow2(65 - HighestOnePosition(a))
  {
    if a >= 1 {
      if ShiftCount(a) > 64 {
        Pow2Monotone(64, ShiftCount(a) - 1);
        assert false;
      }
    }
  }

  /** 2^64 and 2^80: the bounds of a 64-bit word and of 20 hex digits. */
  const Word64 := 0x1_0000_0000_0000_0000
  const Hex20 := 0x1_0000_0000_0000_0000_0000

  lemma Pow2Word64()
    ensures Pow2(8) == 256 && Pow2(16) == 65536 && Pow2(64) == Word64
  {
    assert Pow2(4) == 16 by {
      assert Pow2(1) == 2;
      assert Pow2(2) == 4;
      assert Pow2(3) == 8;
    }
    Pow2Add(4, 4);
    assert Pow2(8) == 256;
    Pow2Add(8, 8);
    assert Pow2(16) == 65536;
    Pow2Add(16, 16);
    assert Pow2(32) == 0x1_0000_0000;
    Pow2Add(32, 32);
  }

  /** `addValue` reads 20 hex digits (80 bits) of the digest; the bucket is
      `h & (NumBuckets - 1)`, the register the rank of `h >> 16`, which is
      below 2^64. So the bucket is below 2048 and the register in [1, 64]. */
  lemma HashSplit(h: nat)
    requires h < Hex20
    ensures h % 2048 < 2048
    ensures h / 65536 < Word64
    ensures 1 <= HighestOnePosition(h / 65536) <= 64
  {
    Pow2Word64();
    RankOf64Bits(h / 65536);
  }
}
