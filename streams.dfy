/** In-memory models of the java.io.DataOutputStream and
    java.io.DataInputStream that Util.recordToFile and Util.fileToRecord use:
    the output is the sequence of bytes written so far, the input a fixed
    sequence of bytes with a read cursor. */
module Streams {
  import opened Wrappers
  import opened Bytes
  import Layout

  /** A DataOutputStream over a sink that never fails. */
  class ByteOutput {
    var bytes: seq<Byte>

    constructor ()
      ensures bytes == []
    {
      bytes := [];
    }

    /** write(b, 0, b.length): the bytes themselves. */
    method Write(b: seq<Byte>)
      modifies this
      ensures bytes == old(bytes) + b
    {
      bytes := bytes + b;
    }

    /** writeInt: four bytes, most significant first. */
    method WriteInt(x: Int32)
      modifies this
      ensures bytes == old(bytes) + Int32Bytes(x)
    {
      bytes := bytes + Int32Bytes(x);
    }

    /** writeLong: eight bytes, most significant first. */
    method WriteLong(x: Int64)
      modifies this
      ensures bytes == old(bytes) + Int64Bytes(x)
    {
      bytes := bytes + Int64Bytes(x);
    }

    /** writeFloat: the four bytes of Float.floatToIntBits, so every NaN is
        written as the canonical one. */
    method WriteFloat(bits: Word32)
      modifies this
      ensures bytes == old(bytes) + Word32Bytes(Layout.FloatToIntBits(bits))
    {
      bytes := bytes + Word32Bytes(Layout.FloatToIntBits(bits));
    }

    /** writeDouble: the eight bytes of Double.doubleToLongBits. */
    method WriteDouble(bits: Word64)
      modifies this
      ensures bytes == old(bytes) + Word64Bytes(Layout.DoubleToLongBits(bits))
    {
      bytes := bytes + Word64Bytes(Layout.DoubleToLongBits(bits));
    }
  }

  /** A DataInputStream over a fixed sequence of bytes. A read that runs
      past the end throws EOFException, shown here as `None`, after taking
      what was left. */
  class ByteInput {
    const data: seq<Byte>
    var pos: nat

    ghost predicate Valid()
      reads this
    {
      pos <= |data|
    }

    constructor (data: seq<Byte>)
      ensures Valid() && this.data == data && pos == 0
    {
      this.data := data;
      pos := 0;
    }

    /** readInt. */
    method ReadInt() returns (r: Option<Int32>)
      requires Valid()
      modifies this
      ensures Valid()
      ensures old(pos) + 4 <= |data| ==> r == Some(Int32Of(data[old(pos)..old(pos) + 4])) && pos == old(pos) + 4
      ensures |data| < old(pos) + 4 ==> r.None? && pos == |data|
    {
      if |data| < pos + 4 {
        pos := |data|;
        return None;
      }
      r := Some(Int32Of(data[pos..pos + 4]));
      pos := pos + 4;
    }

    /** readLong. */
    method ReadLong() returns (r: Option<Int64>)
      requires Valid()
      modifies this
      ensures Valid()
      ensures old(pos) + 8 <= |data| ==> r == Some(Int64Of(data[old(pos)..old(pos) + 8])) && pos == old(pos) + 8
      ensures |data| < old(pos) + 8 ==> r.None? && pos == |data|
    {
      if |data| < pos + 8 {
        pos := |data|;
        return None;
      }
      r := Some(Int64Of(data[pos..pos + 8]));
      pos := pos + 8;
    }

    /** readFloat: the bit pattern of the next four bytes. */
    method ReadFloat() returns (r: Option<Word32>)
      requires Valid()
      modifies this
      ensures Valid()
      ensures old(pos) + 4 <= |data| ==> r == Some(Word32Of(data[old(pos)..old(pos) + 4])) && pos == old(pos) + 4
      ensures |data| < old(pos) + 4 ==> r.None? && pos == |data|
    {
      if |data| < pos + 4 {
        pos := |data|;
        return None;
      }
      r := Some(Word32Of(data[pos..pos + 4]));
      pos := pos + 4;
    }

    /** readDouble: the bit pattern of the next eight bytes. */
    method ReadDouble() returns (r: Option<Word64>)
      requires Valid()
      modifies this
      ensures Valid()
      ensures old(pos) + 8 <= |data| ==> r == Some(Word64Of(data[old(pos)..old(pos) + 8])) && pos == old(pos) + 8
      ensures |data| < old(pos) + 8 ==> r.None? && pos == |data|
    {
      if |data| < pos + 8 {
        pos := |data|;
        return None;
      }
      r := Some(Word64Of(data[pos..pos + 8]));
      pos := pos + 8;
    }

    /** read(buf, 0, buf.Length) on a stream that hands over every byte it
        still holds: copies what is there, up to the buffer's length, and
        returns how many bytes it copied, or -1 when the stream is at its end
        and the buffer is not empty. The rest of the buffer is left as it
        was. */
    method Read(buf: array<Byte>) returns (cnt: int)
      requires Valid()
      modifies this, buf
      ensures Valid()
      ensures var n := if |data| - old(pos) < buf.Length then |data| - old(pos) else buf.Length;
              && pos == old(pos) + n
              && buf[..] == data[old(pos)..old(pos) + n] + old(buf[n..])
              && cnt == (if n == 0 && buf.Length > 0 then -1 else n)
    {
      var p := pos;
      var n := if |data| - p < buf.Length then |data| - p else buf.Length;
      ghost var rest := buf[n..];
      var k := 0;
      while k < n
        invariant 0 <= k <= n
        invariant buf[..k] == data[p..p + k]
        invariant buf[n..] == rest
      {
        buf[k] := data[p + k];
        k := k + 1;
      }
      assert buf[..] == buf[..n] + buf[n..];
      cnt := if n == 0 && buf.Length > 0 then -1 else n;
      pos := p + n;
    }

    /** readFully(buf): fills the whole buffer, or throws EOFException when
        the stream ends first. */
    method ReadFully(buf: array<Byte>) returns (ok: bool)
      requires Valid()
      modifies this, buf
      ensures Valid()
      ensures ok <==> old(pos) + buf.Length <= |data|
      ensures ok ==> buf[..] == data[old(pos)..old(pos) + buf.Length] && pos == old(pos) + buf.Length
      ensures !ok ==> pos == |data|
    {
      var cnt := Read(buf);
      ok := cnt == buf.Length;
    }
  }
}
