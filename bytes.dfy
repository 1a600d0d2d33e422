/** Fixed-width integers and their big-endian byte layout, as used by
    java.io.DataOutputStream and java.io.DataInputStream. */
module Bytes {

  type Byte = x: int | 0 <= x < 0x100
  type Word32 = x: int | 0 <= x < 0x1_0000_0000
  type Word64 = x: int | 0 <= x < 0x1_0000_0000_0000_0000
  type Int32 = x: int | -0x8000_0000 <= x < 0x8000_0000
  type Int64 = x: int | -0x8000_0000_0000_0000 <= x < 0x8000_0000_0000_0000

  /** A Java byte array: its length is a non-negative `int`. */
  type JavaBytes = s: seq<Byte> | |s| < 0x8000_0000

  const Int32Max: Int32 := 0x7fff_ffff
  const Int32Min: Int32 := -0x8000_0000

  /** The four bytes of a 32-bit word, most significant first: what
      DataOutputStream.writeInt emits. */
  function Word32Bytes(u: Word32): (bs: seq<Byte>)
    ensures |bs| == 4
  {
    var r1 := u / 0x100;
    var r2 := r1 / 0x100;
    [r2 / 0x100, r2 % 0x100, r1 % 0x100, u % 0x100]
  }

  /** The 32-bit word of four big-endian bytes: what DataInputStream.readInt
      assembles. */
  function Word32Of(bs: seq<Byte>): Word32
    requires |bs| == 4
  {
    ((bs[0] as int * 0x100 + bs[1]) * 0x100 + bs[2]) * 0x100 + bs[3]
  }

  /** The eight bytes of a 64-bit word, most significant first: what
      DataOutputStream.writeLong emits. */
  function Word64Bytes(u: Word64): (bs: seq<Byte>)
    ensures |bs| == 8
  {
    var r1 := u / 0x100;
    var r2 := r1 / 0x100;
    var r3 := r2 / 0x100;
    var r4 := r3 / 0x100;
    var r5 := r4 / 0x100;
    var r6 := r5 / 0x100;
    [r6 / 0x100, r6 % 0x100, r5 % 0x100, r4 % 0x100, r3 % 0x100, r2 % 0x100, r1 % 0x100, u % 0x100]
  }

  /** The 64-bit word of eight big-endian bytes: what DataInputStream.readLong
      assembles. */
  function Word64Of(bs: seq<Byte>): Word64
    requires |bs| == 8
  {
    var hi := ((bs[0] as int * 0x100 + bs[1]) * 0x100 + bs[2]) * 0x100 + bs[3];
    (((hi as int * 0x100 + bs[4]) * 0x100 + bs[5]) * 0x100 + bs[6]) * 0x100 + bs[7]
  }

  lemma Word32RoundTrip(u: Word32)
    ensures Word32Of(Word32Bytes(u)) == u
  {
  }

  /** Appending a byte to a big-endian number and taking it off again. */
  lemma Shift(h: nat, b: Byte)
    ensures (h * 0x100 + b) / 0x100 == h && (h * 0x100 + b) % 0x100 == b
  {
  }

  lemma Word32BytesOf(bs: seq<Byte>)
    requires |bs| == 4
    ensures Word32Bytes(Word32Of(bs)) == bs
  {
    var h1 := bs[0] as int;
    var h2 := h1 * 0x100 + bs[1];
    var h3 := h2 * 0x100 + bs[2];
    Shift(h3, bs[3]);
    Shift(h2, bs[2]);
    Shift(h1, bs[1]);
  }

  lemma Word64RoundTrip(u: Word64)
    ensures Word64Of(Word64Bytes(u)) == u
  {
  }

  lemma Word64BytesOf(bs: seq<Byte>)
    requires |bs| == 8
    ensures Word64Bytes(Word64Of(bs)) == bs
  {
    var h1 := bs[0] as int;
    var h2 := h1 * 0x100 + bs[1];
    var h3 := h2 * 0x100 + bs[2];
    var h4 := h3 * 0x100 + bs[3];
    var h5 := h4 * 0x100 + bs[4];
    var h6 := h5 * 0x100 + bs[5];
    var h7 := h6 * 0x100 + bs[6];
    Shift(h7, bs[7]);
    Shift(h6, bs[6]);
    Shift(h5, bs[5]);
    Shift(h4, bs[4]);
    Shift(h3, bs[3]);
    Shift(h2, bs[2]);
    Shift(h1, bs[1]);
  }

  /** Two's complement: the bit pattern of a signed 32-bit value. */
  function Unsigned32(v: Int32): (u: Word32)
    ensures v >= 0 ==> u == v
    ensures v < 0 ==> u == v + 0x1_0000_0000
  {
    if v < 0 then v + 0x1_0000_0000 else v
  }

  function Signed32(u: Word32): (v: Int32)
    ensures Unsigned32(v) == u
  {
    if u < 0x8000_0000 then u else u - 0x1_0000_0000
  }

  /** Java `int` arithmetic: the exact result reduced to 32 bits. */
  function Wrap32(x: int): (v: Int32)
    ensures (v - x) % 0x1_0000_0000 == 0
    ensures Int32Min <= x <= Int32Max ==> v == x
  {
    Signed32(x % 0x1_0000_0000)
  }

  function Unsigned64(v: Int64): (u: Word64)
    ensures v >= 0 ==> u == v
    ensures v < 0 ==> u == v + 0x1_0000_0000_0000_0000
  {
    if v < 0 then v + 0x1_0000_0000_0000_0000 else v
  }

  function Signed64(u: Word64): (v: Int64)
    ensures Unsigned64(v) == u
  {
    if u < 0x8000_0000_0000_0000 then u else u - 0x1_0000_0000_0000_0000
  }

  function Int32Bytes(v: Int32): (bs: seq<Byte>)
    ensures |bs| == 4
  {
    Word32Bytes(Unsigned32(v))
  }

  function Int64Bytes(v: Int64): (bs: seq<Byte>)
    ensures |bs| == 8
  {
    Word64Bytes(Unsigned64(v))
  }

  function Int32Of(bs: seq<Byte>): Int32
    requires |bs| == 4
  {
    Signed32(Word32Of(bs))
  }

  function Int64Of(bs: seq<Byte>): Int64
    requires |bs| == 8
  {
    Signed64(Word64Of(bs))
  }

  lemma Int32RoundTrip(v: Int32)
    ensures Int32Of(Int32Bytes(v)) == v
  {
    Word32RoundTrip(Unsigned32(v));
  }

  lemma Int64RoundTrip(v: Int64)
    ensures Int64Of(Int64Bytes(v)) == v
  {
    Word64RoundTrip(Unsigned64(v));
  }

  /** Reading four bytes back and writing them again gives the same bytes. */
  lemma Int32BytesOf(bs: seq<Byte>)
    requires |bs| == 4
    ensures Int32Bytes(Int32Of(bs)) == bs
  {
    Word32BytesOf(bs);
  }
}
