/** The exchange layout: a seven-byte header (version, offset, count as two
    big-endian bytes, overflow register, overflow bucket as two big-endian
    bytes) followed by the register bytes. Base64 is left to the caller. */
module Codec {
  import opened Nibbles
  import opened HllState

  const HeaderBytes := 7

  datatype Error =
    | TruncatedBuffer   // a header byte is read past the end of the buffer
    | ByteOutOfRange    // a field that is written as one byte is 256 or more

  datatype Result<T> = Success(value: T) | Failure(error: Error)

  /** Two bytes read big-endian: `(hi << 8) + lo`. */
  function BigEndian(hi: Byte, lo: Byte): (x: nat)
    ensures x < 65536
  {
    hi as int * 256 + lo as int
  }

  /** What `toB64` can write: the single-byte fields and every register
      byte fit in a byte. */
  predicate Encodable(s: Sketch)
  {
    s.version < 256 && s.offset < 256 && s.ovfRegister < 256 && IsBytes(s.regs)
  }

  function AsBytes(regs: seq<int>): (b: seq<Byte>)
    requires IsBytes(regs)
    ensures b == regs
  {
    seq(|regs|, i requires 0 <= i < |regs| => regs[i] as Byte)
  }

  /** `toB64` before the base64 step. The two-byte fields are written as
      `(x >> 8) & 0xff` and `x & 0xff`. */
  function Encode(s: Sketch): (buf: seq<Byte>)
    requires Encodable(s)
    ensures |buf| == HeaderBytes + |s.regs|
    ensures buf[0] == s.version && buf[1] == s.offset && buf[4] == s.ovfRegister
    ensures BigEndian(buf[2], buf[3]) == s.count % 65536
    ensures BigEndian(buf[5], buf[6]) == s.ovfBucket % 65536
    ensures buf[HeaderBytes..] == s.regs
  {
    [ s.version as Byte, s.offset as Byte,
      (s.count / 256) % 256, s.count % 256,
      s.ovfRegister as Byte,
      (s.ovfBucket / 256) % 256, s.ovfBucket % 256 ]
    + AsBytes(s.regs)
  }

  /** The constructor's parse of a decoded buffer: the header fields, then
      every byte after the header as the register array. */
  function DecodeFields(buf: seq<Byte>): (s: Sketch)
    requires |buf| >= HeaderBytes
    ensures |s.regs| == |buf| - HeaderBytes && IsBytes(s.regs)
    ensures s.version < 256 && s.offset < 256 && s.ovfRegister < 256
    ensures s.count < 65536 && s.ovfBucket < 65536
  {
    Sketch(buf[0], buf[1], BigEndian(buf[2], buf[3]), buf[4], BigEndian(buf[5], buf[6]), buf[HeaderBytes..])
  }

  /** The constructor with a buffer. No length is checked; a buffer too
      short for the header fails. */
  function Decode(buf: seq<Byte>): (r: Result<Sketch>)
    ensures r.Failure? <==> |buf| < HeaderBytes
  {
    if |buf| < HeaderBytes then Failure(TruncatedBuffer) else Success(DecodeFields(buf))
  }

  lemma SplitSixteen(x: nat)
    ensures ((x / 256) % 256) * 256 + x % 256 == x % 65536
  {
  }

  /** Decoding an encoding returns every field; the two-byte fields come
      back modulo 65536. */
  lemma DecodeEncode(s: Sketch)
    requires Encodable(s)
    ensures Decode(Encode(s)) == Success(s.(count := s.count % 65536, ovfBucket := s.ovfBucket % 65536))
  {
    var buf := Encode(s);
    SplitSixteen(s.count);
    SplitSixteen(s.ovfBucket);
    assert DecodeFields(buf).regs == s.regs;
  }

  /** With the two-byte fields below 65536 the round trip is exact. */
  lemma DecodeEncodeExact(s: Sketch)
    requires Encodable(s) && s.count < 65536 && s.ovfBucket < 65536
    ensures Decode(Encode(s)) == Success(s)
  {
    DecodeEncode(s);
  }

  /** Encoding a decoded buffer gives the buffer back. */
  lemma EncodeDecode(buf: seq<Byte>)
    requires |buf| >= HeaderBytes
    ensures Encodable(DecodeFields(buf)) && Encode(DecodeFields(buf)) == buf
  {
    var e := Encode(DecodeFields(buf));
    assert e[..HeaderBytes] == buf[..HeaderBytes];
    assert e == e[..HeaderBytes] + e[HeaderBytes..];
    assert buf == buf[..HeaderBytes] + buf[HeaderBytes..];
  }

  /** The empty sketch is written as version 1 and six zero header bytes,
      followed by 1024 zero bytes: 1031 bytes. */
  lemma EmptyLayout()
    ensures Encodable(Empty())
    ensures Encode(Empty()) == [1, 0, 0, 0, 0, 0, 0] + seq(NumBucketBytes, i => 0)
  {
    var e := Encode(Empty());
    assert e[HeaderBytes..] == seq(NumBucketBytes, i => 0);
    assert e == e[..HeaderBytes] + e[HeaderBytes..];
  }
}
