/** Four-bit register cells packed two to a byte, and the count of cells
    that hold a non-zero value. */
module Nibbles {

  /** One byte of a serialized sketch. */
  type Byte = x: int | 0 <= x < 256

  function Max(a: int, b: int): (m: int)
    ensures m >= a && m >= b && (m == a || m == b)
  {
    if a >= b then a else b
  }

  /** The upper cell of `v`, i.e. `(v & 0xf0) >> 4`. Python's `&` on a negative
      integer reads its unbounded two's complement, whose low eight bits are
      `v % 256` under Dafny's Euclidean `%`; so this is exact for every `v`. */
  function Hi(v: int): (h: nat)
    ensures h < 16 && 16 * h <= v % 256 < 16 * h + 16
  {
    (v % 256) / 16
  }

  /** The lower cell of `v`, i.e. `v & 0x0f` (exact for every `v`, as `Hi`):
      the residue of `v` modulo 16. */
  function Lo(v: int): (l: nat)
    ensures l < 16 && (v - l) % 16 == 0
  {
    v % 16
  }

  /** Two cells joined into one byte. `add` and `union` OR a value under
      mask 0xf0 with one under mask 0x0f; the masks are disjoint, so the OR is
      this sum. */
  function Pack(hi: int, lo: int): (v: Byte)
    requires 0 <= hi < 16 && 0 <= lo < 16
    ensures Hi(v) == hi && Lo(v) == lo
  {
    hi * 16 + lo
  }

  /** Every byte is the packing of its two cells. */
  lemma Unpack(v: int)
    requires 0 <= v < 256
    ensures Hi(v) < 16 && Lo(v) < 16
    ensures v == Pack(Hi(v), Lo(v))
  {
    assert v % 256 == v;
    assert v == (v / 16) * 16 + v % 16;
  }

  /** Bucket `b` lives in byte `b >> 1`: the upper cell when `b` is even,
      the lower cell when it is odd. */
  function Cell(regs: seq<int>, b: nat): (c: nat)
    requires b / 2 < |regs|
    ensures c < 16
  {
    if b % 2 == 0 then Hi(regs[b / 2]) else Lo(regs[b / 2])
  }

  /** The other bucket that shares a byte with `b` (`b ^ 1`). */
  function Sibling(b: nat): (t: nat)
    ensures t / 2 == b / 2 && t != b
  {
    if b % 2 == 0 then b + 1 else b - 1
  }

  /** How many of the two cells of `v` are non-zero. */
  function NonZeroIn(v: int): (n: nat)
    ensures n <= 2
  {
    (if Hi(v) > 0 then 1 else 0) + (if Lo(v) > 0 then 1 else 0)
  }

  /** The number of non-zero cells across a register array. */
  function NonZeroCells(regs: seq<int>): nat
  {
    if |regs| == 0 then 0 else NonZeroIn(regs[0]) + NonZeroCells(regs[1..])
  }

  /** Counting byte by byte from the front, as the loop of `trimBucket` does. */
  lemma {:induction false} NonZeroCellsAppend(a: seq<int>, x: int)
    ensures NonZeroCells(a + [x]) == NonZeroCells(a) + NonZeroIn(x)
  {
    if |a| > 0 {
      assert (a + [x])[1..] == a[1..] + [x];
      NonZeroCellsAppend(a[1..], x);
    }
  }

  /** Overwriting one byte changes the count by the difference of that
      byte's non-zero cells and nothing else. */
  lemma {:induction false} NonZeroCellsUpdate(regs: seq<int>, j: nat, v: int)
    requires j < |regs|
    ensures NonZeroCells(regs[j := v]) == NonZeroCells(regs) - NonZeroIn(regs[j]) + NonZeroIn(v)
  {
    if j == 0 {
      assert regs[j := v][1..] == regs[1..];
    } else {
      assert regs[j := v][1..] == regs[1..][j - 1 := v];
      NonZeroCellsUpdate(regs[1..], j - 1, v);
    }
  }

  /** There are at most two non-zero cells per byte, and the count reaches
      that bound exactly when every cell is non-zero. */
  lemma {:induction false} NonZeroCellsFull(regs: seq<int>)
    ensures NonZeroCells(regs) <= 2 * |regs|
    ensures NonZeroCells(regs) == 2 * |regs| <==>
              forall i :: 0 <= i < |regs| ==> Hi(regs[i]) > 0 && Lo(regs[i]) > 0
  {
    if |regs| > 0 {
      NonZeroCellsFull(regs[1..]);
      assert forall i :: 0 <= i < |regs| - 1 ==> regs[1..][i] == regs[i + 1];
      if NonZeroCells(regs) == 2 * |regs| {
        forall i | 0 <= i < |regs|
          ensures Hi(regs[i]) > 0 && Lo(regs[i]) > 0
        {
          if i > 0 {
            assert regs[i] == regs[1..][i - 1];
          }
        }
      }
    }
  }

  /** An array of zero bytes has no non-zero cell. */
  lemma {:induction false} NonZeroCellsZero(regs: seq<int>)
    requires forall i :: 0 <= i < |regs| ==> regs[i] == 0
    ensures NonZeroCells(regs) == 0
  {
    if |regs| > 0 {
      NonZeroCellsZero(regs[1..]);
    }
  }

  /** The number of buckets below `n` whose cell is non-zero. */
  function NonZeroBuckets(regs: seq<int>, n: nat): nat
    requires n <= 2 * |regs|
  {
    if n == 0 then 0
    else NonZeroBuckets(regs, n - 1) + (if Cell(regs, n - 1) != 0 then 1 else 0)
  }

  /** Counting cells byte by byte is counting non-zero buckets one by one. */
  lemma {:induction false} NonZeroCellsCountsBuckets(regs: seq<int>, k: nat)
    requires k <= |regs|
    ensures NonZeroCells(regs[..k]) == NonZeroBuckets(regs, 2 * k)
  {
    if k > 0 {
      NonZeroCellsCountsBuckets(regs, k - 1);
      NonZeroCellsAppend(regs[..k - 1], regs[k - 1]);
      assert regs[..k] == regs[..k - 1] + [regs[k - 1]];
      assert Cell(regs, 2 * k - 2) == Hi(regs[k - 1]) && Cell(regs, 2 * k - 1) == Lo(regs[k - 1]);
    }
  }
}
