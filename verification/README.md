# Druid-compatible HyperLogLog register store, in Dafny

This project models `druid_hll_bucket.py`, a HyperLogLog sketch whose binary
layout matches the column store Druid. The sketch is a header of five fields
and 1024 bytes:

- the five fields are `version`, `register_offset`, `num_non_zero_registers`,
  `max_overflow_register` and `max_overflow_bucket`;
- the 1024 bytes pack 2048 four-bit registers, two per byte.

It covers every operation of the file apart from hashing and base64:

- the rank of a hash (`getHighestOnePosition`) and the bucket/register split of
  `addValue`;
- insertion (`add`), with its window of fifteen values above the offset and its
  single overflow slot;
- renormalisation (`trimBucket`);
- the offset-aligned merge (`union`);
- the header layout written by `toB64` and read by the constructor;
- the fold `getHLLUVM`.

Everything is a pure function over an immutable `Sketch` record. Only the trim
also has a loop-level method.

Files, one module each:

- `nibbles.dfy` (`Nibbles`): cells of a byte, and counting non-zero cells.
- `state.dfy` (`HllState`): constants, the `Sketch` record, the store invariant and the empty sketch.
- `rank.dfy` (`Rank`): `getHighestOnePosition` and the hash split.
- `trim.dfy` (`Renormalize`): `trimBucket`.
- `insert.dfy` (`Insert`): `add` and `addValue`.
- `codec.dfy` (`Codec`): the 7-byte header plus the register bytes, both directions.
- `merge.dfy` (`Merge`): `union`.
- `aggregate.dfy` (`Aggregate`): `getHLLUVM`.

Terms used in the contracts:

- **Register of bucket `b`**: the four-bit cell that holds bucket `b`. It is in
  byte `b >> 1`: the upper cell when `b` is even, the lower cell otherwise.
- **Magnitude of bucket `b`** (`Value`): `register_offset` plus that register.
  The HyperLogLog rank the bucket represents is this magnitude.
- **Shape** (`Shaped`): exactly 1024 register bytes, an overflow register
  below 256 and an overflow bucket below 2048.
- **Store invariant** (`WellFormed`): the shape holds, every register byte is
  in [0, 255], and `num_non_zero_registers` equals the number of non-zero
  registers.
- **Window**: the registers that fit a cell, `offset < register <= offset + 15`.

## Model

| member | source | states |
|---|---|---|
| `Rank.ShiftCount` | druid_hll_bucket.py:32-35 | The number of right shifts the loop makes before `a` reaches zero is the bit length of `a`: `a < 2^n`, and `2^(n-1) <= a` when `a >= 1`. |
| `Rank.HighestOnePosition` | druid_hll_bucket.py:31-42 | The result is in [0, 64]. It is 0 exactly when `a >= 2^64`, i.e. when the lower clamp fires; the upper clamp turns the 65 of `a == 0` into 64. |
| `Rank.RankOf64Bits` | druid_hll_bucket.py:31-42 | For `a < 2^64` the rank is in [1, 64]. It is 64 for `a == 0`. For `a >= 1` it is `65 - bitlength(a)`, so the highest set bit of `a` is at index `64 - rank`. |
| `Rank.HashSplit` | druid_hll_bucket.py:62-67 | An 80-bit hash (20 hex digits) gives a bucket below 2048 and `h >> 16 < 2^64`, so its register is in [1, 64]. |
| `Nibbles.Max` | druid_hll_bucket.py:151-152 | `max` is at least both arguments and is one of them. |
| `Nibbles.Hi` | druid_hll_bucket.py:145 | The upper cell `(v & 0xf0) >> 4` is below 16 and counts the whole sixteens in the low byte of `v`. |
| `Nibbles.Lo` | druid_hll_bucket.py:146 | The lower cell `v & 0x0f` is below 16 and congruent to `v` modulo 16. |
| `Nibbles.NonZeroIn` | druid_hll_bucket.py:113-116 | One byte adds at most two to the count of non-zero cells. |
| `Nibbles.Pack` | druid_hll_bucket.py:95 | Joining an upper and a lower cell gives a byte whose cells read back as exactly those two values. |
| `Nibbles.Unpack` | druid_hll_bucket.py:91-95 | Every byte is the packing of its upper and lower cell. |
| `Nibbles.Cell` | druid_hll_bucket.py:85-86 | A bucket's register is a value below 16. |
| `Nibbles.Sibling` | druid_hll_bucket.py:92-93 | The other bucket of the same byte differs from the bucket and shares its byte index. |
| `Nibbles.NonZeroCellsAppend` | druid_hll_bucket.py:113-116 | Counting non-zero cells byte by byte from the front adds each byte's non-zero cells. |
| `Nibbles.NonZeroCellsUpdate` | druid_hll_bucket.py:97-99 | Overwriting one byte changes the non-zero count by that byte's change in non-zero cells, and by nothing else. |
| `Nibbles.NonZeroCellsFull` | druid_hll_bucket.py:104 | There are at most two non-zero cells per byte. The count reaches `2 * bytes` exactly when every cell is non-zero, in both directions. |
| `Nibbles.NonZeroCellsZero` | druid_hll_bucket.py:52 | All-zero register bytes have no non-zero cell. |
| `Nibbles.NonZeroCellsCountsBuckets` | druid_hll_bucket.py:113-116 | The byte-wise count of non-zero cells equals the count of buckets, one by one, whose register is non-zero. |
| `HllState.Empty` | druid_hll_bucket.py:46-52 | The sketch built without a buffer keeps the store invariant. It has version 1, count 0, no overflow holder, and every bucket's magnitude is 0. |
| `HllState.CountIsNonZeroRegisters` | druid_hll_bucket.py:97-99 | Under the store invariant, the count field is the number of buckets with a non-zero register, so it is at most 2048. |
| `HllState.Register` | druid_hll_bucket.py:24 | A stored register is at most `RANGE` (15). |
| `Insert.Place` | druid_hll_bucket.py:82-99 | The fitting path before the trim: only byte `bucket >> 1` changes, and it stays a byte. The bucket's register becomes the max of its old value and `register - offset`. The sibling register is unchanged. The count rises by one exactly when the bucket's register was zero. The header is otherwise unchanged. |
| `Insert.Add` | druid_hll_bucket.py:71-101 | A register at or below the offset leaves the whole sketch unchanged. Otherwise the offset rises by at most one, and the overflow register never goes down. The version is kept. The overflow holder stays re-addable. The slot ends either as it was or holding exactly the added pair. |
| `Insert.ReaddHolderOnce` | druid_hll_bucket.py:74-80 | Re-adding the overflow holder leaves the holder fields unchanged, so the displacement recursion is one level deep. A holder that still does not fit the window changes nothing and is dropped when the slot is overwritten. |
| `Insert.AddOverflow` | druid_hll_bucket.py:74-80 | Above the window, a register larger than the holder ends in the slot with its bucket. Its value is written to no cell: every bucket except the old holder's keeps its magnitude, including the new value's own bucket. If the old holder is still outside the window, nothing else changes. If the window has reached it, its bucket's magnitude becomes the larger of its old magnitude and the holder's register. A register that is not larger leaves the sketch unchanged. |
| `Insert.PlaceWellFormed` | druid_hll_bucket.py:89-99 | Placing keeps the store invariant and lowers no bucket's magnitude. The placed bucket's magnitude reaches the register. |
| `Insert.AddWellFormed` | druid_hll_bucket.py:71-101 | `add` keeps the store invariant and lowers no bucket's magnitude. |
| `Insert.PlaceValues` | druid_hll_bucket.py:89-99 | Placing raises the placed bucket's magnitude to exactly the larger of its old magnitude and the register. Every other bucket keeps its magnitude. |
| `Insert.AddFrame` | druid_hll_bucket.py:71-101 | `add` changes the magnitude of no bucket other than the added one and the overflow holder's. |
| `Insert.AddRaises` | druid_hll_bucket.py:71-101 | `add` raises the added bucket to at most the register, and only when the register fits the window. It raises the holder's bucket to at most the holder's register. Every other bucket keeps its magnitude. |
| `Insert.AddBelowFull` | druid_hll_bucket.py:82-101 | A fitting register on a sketch with room for one more non-zero register triggers no trim. `add` raises its bucket to exactly the larger of its magnitude and the register, and keeps every other bucket's magnitude and the offset. |
| `Insert.AddCovered` | druid_hll_bucket.py:71-101 | An observation that is already covered, with the register at most the window's top and at most its bucket's magnitude, leaves a sketch that is not full unchanged. |
| `Insert.AddTwice` | druid_hll_bucket.py:71-101 | Adding the same pair twice equals adding it once in two cases. One: the register was at most the window's top and the first result is not full. Two: the register went to the slot and the offset did not move. |
| `Insert.FullWhenNoZeroCell` | druid_hll_bucket.py:104 | Under the store invariant, a sketch with no zero register has count 2048, so the trim fires. |
| `Insert.DisplacedThenPlaced` | druid_hll_bucket.py:74-80 | Suppose re-adding a displaced holder fills the last zero register. The trim then moves the window up to the new register, and a second identical `add` places that register in its cell, so the result differs from the first. |
| `Insert.AddTwiceDisplaced` | druid_hll_bucket.py:74-80 | A concrete case: offset 1, count 2047, holder (5, 16). Adding (0, 17) twice differs from adding it once. |
| `Insert.FilledStaysFull` | druid_hll_bucket.py:101-117 | Filling the last zero register of a sketch whose other registers are all at least 2 trims once and leaves 2048 non-zero registers. A second identical `add` trims again. |
| `Insert.AddMayStayFull` | druid_hll_bucket.py:101-117 | A concrete case: from count 2047, `add(1, 2)` returns a sketch with count 2048, and repeating it changes the sketch. |
| `Insert.AddRecords` | druid_hll_bucket.py:71-101 | After `add`, the register is covered: either its bucket's magnitude reaches it, or the overflow slot holds at least it. |
| `Insert.AddValue` | druid_hll_bucket.py:62-69 | Inserting a hashed value keeps the sketch re-addable. It raises the offset by at most one. |
| `Insert.AddValueRecords` | druid_hll_bucket.py:62-69 | Inserting a hashed value keeps the store invariant. Its rank is in [1, 64], and the rank is covered by its bucket's magnitude or by the overflow slot. |
| `Renormalize.Decremented` | druid_hll_bucket.py:110-112 | Decrementing keeps the number of register bytes. |
| `Renormalize.TrimBucket` | druid_hll_bucket.py:103-117 | The trim leaves the sketch unchanged exactly when the count is below 2048. Otherwise the offset rises by exactly one and the count is the number of cells still non-zero. The version and the overflow holder are kept. |
| `Renormalize.TrimBucketInPlace` | druid_hll_bucket.py:103-117 | The loop that decrements byte by byte and counts as it goes computes the trim. |
| `Renormalize.DecrementByte` | druid_hll_bucket.py:111-112 | Subtracting 0x11 from a byte whose two cells are non-zero takes one off each cell, without a borrow, and leaves a byte. |
| `Renormalize.TrimPreserves` | druid_hll_bucket.py:103-117 | Under the store invariant the trim keeps the invariant and never lowers the offset. Each bucket's magnitude is unchanged. When the trim fires, every register drops by exactly one. |
| `Renormalize.TrimOnceMayStayFull` | druid_hll_bucket.py:103-117 | The trim is not looped: a sketch whose registers are all 2 is still full after one trim (count 2048, offset 1). |
| `Codec.BigEndian` | druid_hll_bucket.py:57 | Two bytes read big-endian give a value below 65536. |
| `Codec.AsBytes` | druid_hll_bucket.py:170 | Register bytes are written unchanged. |
| `Codec.Encode` | druid_hll_bucket.py:166-170 | The output is seven header bytes plus the register bytes. Byte 0 is the version, byte 1 the offset, bytes 2-3 the count big-endian modulo 65536, byte 4 the overflow register, and bytes 5-6 the overflow bucket big-endian modulo 65536. |
| `Codec.DecodeFields` | druid_hll_bucket.py:55-60 | A parsed buffer has single-byte fields below 256 and two-byte fields below 65536. Its register bytes are every byte after the header. |
| `Codec.Decode` | druid_hll_bucket.py:53-60 | Decoding fails exactly when the buffer is shorter than the seven-byte header. |
| `Codec.SplitSixteen` | druid_hll_bucket.py:168 | Writing `(x >> 8) & 0xff` and `x & 0xff` and reading them back big-endian gives `x mod 65536`. |
| `Codec.DecodeEncode` | druid_hll_bucket.py:166-170 | Decoding an encoding returns every field, with the two-byte fields taken modulo 65536. |
| `Codec.DecodeEncodeExact` | druid_hll_bucket.py:166-170 | With the count and the overflow bucket below 65536 (and the other fields bytes), decoding an encoding returns the sketch exactly. |
| `Codec.EncodeDecode` | druid_hll_bucket.py:55-60 | Encoding the parse of any buffer of at least seven bytes gives the buffer back. |
| `Codec.EmptyLayout` | druid_hll_bucket.py:166-168 | The empty sketch is written as `1, 0, 0, 0, 0, 0, 0` followed by 1024 zero bytes. |
| `Merge.Align` | druid_hll_bucket.py:127-135 | The swap returns the two sketches, up to the receiver's version, as the pair (receiver, other side). The receiver's offset is the max and at least the other side's. The caller stays the receiver only when its offset is strictly larger; on a tie or a lower offset, the caller becomes the other side unchanged. The receiver keeps the caller's version. Shape and the store invariant carry over. |
| `Merge.MergeByte` | druid_hll_bucket.py:143-160 | Only byte `i` changes, and it stays a byte. Each of its registers becomes `max(own, other - offset_diff)`, so it never goes down and stays in [0, 15]. The count rises by the number of registers that leave zero. |
| `Merge.MergeRegisters` | druid_hll_bucket.py:137-162 | The merge loop keeps the sketch re-addable, the version and the overflow holder. It never lowers the offset. |
| `Merge.MergeStepBounds` | druid_hll_bucket.py:143-162 | One merged byte and its trim keep the invariant and lower no bucket. They extend, by the two buckets of that byte, the prefix of buckets that bound the other side. |
| `Merge.SkipStepBounds` | druid_hll_bucket.py:141-142 | A skipped zero byte of the other side is already bounded, because both of its buckets sit at the other side's offset, which is not above the receiver's. |
| `Merge.MergeAligned` | druid_hll_bucket.py:137-164 | After the swap, merging and re-adding the other holder never lowers the receiver's offset and keeps the version. The slot ends holding one of the two holders. On two sketches that keep the invariant, the result keeps it and bounds both sides bucket by bucket. The receiver's overflow register does not go down, and the other side's holder is held by the slot or covered by its bucket's magnitude. Outside the holders' buckets, each bucket ends at most at the larger of the receiver's magnitude and the other side's plus the offset gained, and exactly at the larger of the two magnitudes when no trim happened. |
| `Merge.Union` | druid_hll_bucket.py:119-164 | The result's offset is at least both input offsets, and the caller's version is kept. The slot ends holding the caller's holder or the buffer's. |
| `Merge.MergeByteWellFormed` | druid_hll_bucket.py:143-160 | Merging a byte keeps the store invariant and lowers no bucket's magnitude. Both registers of the byte reach the other side's registers less the offset difference. |
| `Merge.MergeRegistersBounds` | druid_hll_bucket.py:139-162 | The merge loop, with a trim after every merged byte, keeps the invariant. It ends with every bucket's magnitude at least that of the receiver and at least that of the other side. |
| `Merge.MergeStepExact` | druid_hll_bucket.py:143-162 | One merged byte and its trim set the byte's two buckets to exactly the larger of their magnitude and the other side's register lifted by the current offset less `offset_diff`. Every other bucket keeps its magnitude. |
| `Merge.SkipStepExact` | druid_hll_bucket.py:140-142 | A skipped zero byte leaves its two buckets where a merged step would have put them. |
| `Merge.MergeRegistersUpper` | druid_hll_bucket.py:137-162 | From byte `i` on, the loop keeps the buckets before byte `i`. Each later bucket ends at most at the larger of its magnitude and the other side's register lifted by the final offset less `offset_diff`. It ends exactly at the larger of its magnitude and the other side's register lifted by the starting offset less `offset_diff` when no trim happened. |
| `Merge.LoopUpper` | druid_hll_bucket.py:137-162 | The whole loop is bounded from above in the same way, over all 2048 buckets. |
| `Merge.LoopWellFormed` | druid_hll_bucket.py:137-162 | The whole loop keeps the store invariant. |
| `Merge.AddAfterLoop` | druid_hll_bucket.py:164 | The final `add` moves only the holders' buckets, so the loop's upper bounds carry over to the result of `union`. |
| `Merge.MergeThenAddUpper` | druid_hll_bucket.py:137-164 | Outside the holders' buckets, the loop and the final `add` end each bucket at most at the larger of the receiver's magnitude and the other side's plus the offset gained. They end it exactly at the larger of the two magnitudes when no trim happened. |
| `Merge.MergeThenAdd` | druid_hll_bucket.py:137-164 | The merge loop over all 1024 bytes and the final `add` keep the invariant and bound both sides bucket by bucket. The receiver's holder stays in the slot or is displaced by a larger one. The other side's holder is held by the slot or covered by its bucket's magnitude. |
| `Merge.AddKeepsBounds` | druid_hll_bucket.py:164 | `add` on a sketch that bounds two others bucket by bucket still bounds them. |
| `Merge.UnionBounds` | druid_hll_bucket.py:119-164 | `union` keeps the store invariant. No bucket ends below its magnitude in either input sketch. |
| `Merge.UnionUpper` | druid_hll_bucket.py:119-164 | Outside the holders' buckets, `union` ends each bucket at most at the larger of the two input magnitudes plus the offset the result gained over the larger input offset. When it gained none, each such bucket is exactly the larger of the two magnitudes. |
| `Merge.MergeAfterTrim` | druid_hll_bucket.py:137-162 | Once `k` trims inside the loop have raised the receiver's offset, the stale `offset_diff` merges a cell the other side wins `k` steps above that side's magnitude, one step per trim. |
| `Merge.MergeRegistersSelf` | druid_hll_bucket.py:139-162 | Merging a sketch's own bytes with offset difference 0 changes nothing while the sketch is not full. |
| `Merge.UnionSelf` | druid_hll_bucket.py:119-164 | `union` of a sketch's own encoding gives the sketch back when its count is below 2048 and its overflow holder is outside the window. |
| `Merge.MergeRegistersZeroOther` | druid_hll_bucket.py:139-142 | An other side whose bytes are all zero is skipped entirely. |
| `Merge.UnionBlank` | druid_hll_bucket.py:119-164 | Merging a sketch with a lower offset, no non-zero byte and no overflow holder leaves the receiver unchanged. |
| `Merge.UnionTie` | druid_hll_bucket.py:127-164 | On a tie the buffer's sketch receives under the caller's version. When the caller has no non-zero register the loop skips every byte, and the result is the buffer's sketch after `add` of the caller's holder alone. The buffer's own holder is not re-added. |
| `Merge.UnionTiePlacesCaller` | druid_hll_bucket.py:127-164 | On such a tie between blank sketches, the caller's holder that the window has reached lands in its bucket. The buffer's holder bucket stays at the common offset. |
| `Merge.UnionNotCommutative` | druid_hll_bucket.py:127-164 | Two blank sketches at offset 2 with holders of register 17 in buckets 0 and 1 give different unions in the two argument orders. |
| `Merge.UnionRecordsHolders` | druid_hll_bucket.py:119-164 | Both overflow holders survive `union`: each is held by the result's slot or covered by its bucket's magnitude. |
| `Aggregate.UnionAll` | druid_hll_bucket.py:179-182 | Folding `union` over a list keeps the version. The offset ends at least at the start offset and at every listed sketch's offset. |
| `Aggregate.GetHllUvm` | druid_hll_bucket.py:179-183 | A successful result is 1031 bytes with version 1. The only failure is a byte out of range. |
| `Aggregate.UnionAllBounds` | druid_hll_bucket.py:179-182 | The fold keeps the store invariant. It bounds its start and every sketch in the list, bucket by bucket. |
| `Aggregate.UnionAllUpper` | druid_hll_bucket.py:179-182 | Outside the holders' buckets, the fold ends each bucket at most at the max over the start and every listed sketch, plus the offset gained over the start. When the offset did not move, each such bucket is exactly that max. |
| `Aggregate.GetHllUvmBounds` | druid_hll_bucket.py:179-183 | `getHLLUVM` succeeds exactly when the merged offset is below 256. Its output then decodes to the merged sketch, which keeps the invariant and bounds every input sketch bucket by bucket. Outside the inputs' holders' buckets, it is at most the bucket-wise max of the inputs plus its offset, and exactly that max when its offset is 0. |

## Behaviour as written

The model follows the code, also where the code departs from its own comments
or from what one might expect of the format:

- **Hash width.** `addValue` reads the first 20 hex digits of the SHA-1
  digest, which is 80 bits, not 64 (the comment at druid_hll_bucket.py:63 says
  64). The hash `h` is therefore modelled as `h < 2^80`, and `h >> 16` is below
  2^64.
- **Rank of zero.** The rank of 0 is 64, not 0: the loop leaves the count at
  0, and the clamp turns 65 into 64. Inputs 0 and 1 both get rank 64.
- **Trim arithmetic.**
  - The trim subtracts 0x11 from unbounded integers. It does not use 8-bit
    wrap-around.
  - Under the store invariant every cell is at least 1 when the trim fires,
    so nothing borrows (`DecrementByte`, `TrimPreserves`).
  - Cells are read as `(v % 256) / 16` and `v % 16` with Dafny's Euclidean
    `%`. This matches Python's `&` on any integer, including the negative
    bytes a trim would produce on a sketch whose count field is wrong.
- **The trim runs once.** The count can be 2048 when `add` or a merge step
  returns (`TrimOnceMayStayFull`, and at the level of `add`, `FilledStaysFull`
  and `AddMayStayFull`). So "the count is below 2048 after every insertion"
  is not an invariant of this code.
- **Repeating an insertion.** A second identical `add` changes nothing only
  when the first did not move the window under the register (`AddTwice`).
  It can move it in two ways:
  - Re-adding a displaced holder fills the last zero register and trims. The
    new register, which went to the slot, now fits the window, and the second
    `add` places it in its cell (`DisplacedThenPlaced`). An example: offset 1,
    count 2047, holder (5, 16), and `add(0, 17)` twice (`AddTwiceDisplaced`).
  - The trim leaves the sketch full, and the second `add` trims again
    (`AddMayStayFull`).
- **Stale offset difference.** `union` computes `offset_diff` once. A trim
  inside the merge loop raises the receiver's offset but leaves
  `offset_diff` unchanged, so later bytes of the other side can be merged one
  step high per trim so far (`MergeAfterTrim`). The union stays an upper bound of both inputs
  (`UnionBounds`). Outside the holders' buckets it exceeds their max by at
  most the number of trims, and equals it when there is none (`UnionUpper`).
- **Self-union is not always a no-op.** A full sketch is trimmed on the first
  merged byte. An overflow holder that the window has since reached is placed
  in its cell by the final `add`. `UnionSelf` proves idempotence only outside
  these two cases.
- **Tie on offsets.** On equal offsets `union` swaps, and the buffer's side
  becomes the receiver. The version byte of the other sketch is ignored.
- **No length checks.** Decoding checks no length. A buffer shorter than the
  header fails, and any longer buffer is accepted with all of its tail as
  registers.

## Left out

- SHA-1 (FIPS 180-4) and the UTF-8 encoding in `addValue` are library calls.
  The hashed value is an input `h < 2^80` of `AddValue`.
- Base64 (section 4 of RFC 4648) in the constructor, `union` and `toB64` is a
  library call. Serialisation is modelled on byte sequences.
- `list2bytearray`, `getHLLUV`, the `__main__` driver and the unused imports
  are left out. They are Python 2 string glue, a fold of `addValue` over a
  hash the model does not compute, a demo, and dead code.
- No cardinality estimate exists in the code, so none is modelled.
- Insert.Add: requires exactly 1024 register bytes, `bucket < 2048`, a stored
  overflow bucket below 2048 and `register < 256`, even on paths that never
  index the register array.
  - On a sketch with 1024 register bytes, `add` raises IndexError only when
    a fitting register meets an out-of-range bucket. Such buckets arise only
    from a malformed header, and a register of 256 or more is never produced.
  - A register list of another length comes only from decoding a buffer that
    is not 1031 bytes long (druid_hll_bucket.py:60, :135).
  - On a short list, `add` (:91) and the trim (:110) raise IndexError when
    they read past its end.
  - On a long list they only touch the first 1024 bytes, and the trim leaves
    the extra bytes alone.
- Renormalize.TrimBucket, Renormalize.TrimBucketInPlace and Insert.AddValue:
  require exactly 1024 register bytes for the same reason. The code's trim is
  a no-op on a list of any length while the count is below 2048.
- Merge.Union: requires a buffer of exactly 1031 bytes with an overflow
  bucket below 2048. This also excludes inputs the code accepts without error:
  - When the caller stays the receiver, a shorter buffer raises IndexError
    when the loop reads its first missing byte.
  - In the swap branch (druid_hll_bucket.py:135) the short register list
    becomes the receiver's. Nothing reads it past its end unless one of three
    things happens there: the old receiver's byte is non-zero (:140-143), a trim
    fires (:104), or the final `add` places a holder there.
  - The first `union` of `getHLLUVM` starts from the empty sketch. It always
    swaps and skips every byte, so it accepts a short buffer and keeps its
    short register list.
  - Longer buffers are accepted. In the swap branch their extra bytes are kept
    as registers.
- Codec.Encode: requires the version, offset and overflow register below 256
  and every register byte in [0, 255]. Otherwise `chr` raises ValueError in
  `toB64`. `Aggregate.GetHllUvm` reports this as a `ByteOutOfRange` failure.
- Commutativity of `union` is not claimed. The swap on a tie, the stale offset
  difference and the order of the final `add` make results depend on the
  argument order. `UnionNotCommutative` gives two tied sketches whose two
  unions differ.
