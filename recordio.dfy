/** Util.stringsToRecord, Util.recordToFile and Util.fileToRecord as the
    methods the source has: they allocate the record array and fill it, or
    write and read the streams, field by field, and each is proved against
    the specification function of the same operation. */
module RecordIo {
  import opened Wrappers
  import opened Bytes
  import opened Records
  import opened Layout
  import opened Streams

  /** Util.stringsToRecord(fields, dbid, signature). `None` for `dbid` is
      Database.InvalidDBID; the source asserts any other dbid is not
      negative. */
  method StringsToRecord(fields: array?<JavaBytes>, dbid: Option<Int32>, sig: Option<string>, fp: FloatParsers)
    returns (r: Option<array<Value>>)
    requires dbid.Some? ==> dbid.value >= 0
    ensures fields == null || sig.None? ==> r.None?
    ensures fields != null && sig.Some? ==>
              var p := ParseRecord(fields[..], dbid, sig.value, fp);
              && (r.Some? <==> p.Some?)
              && (r.Some? ==> fresh(r.value) && r.value[..] == p.value)
  {
    if fields == null || sig.None? {
      return None;
    }
    var s := sig.value;
    if fields.Length != |s| {
      return None;
    }
    var tokens := new Value[if dbid.Some? then fields.Length + 1 else fields.Length](_ => I32(0));
    for i := 0 to fields.Length
      invariant forall j :: 0 <= j < i ==>
                  ParseField(s[j], fields[j], fp).Some? && tokens[j] == ParseField(s[j], fields[j], fp).value
    {
      var obj := ParseField(s[i], fields[i], fp);
      if obj.None? {
        return None;
      }
      tokens[i] := obj.value;
    }
    if dbid.Some? {
      tokens[fields.Length] := I32(dbid.value);
    }
    return Some(tokens);
  }

  /** Util.stringsToRecord(fields, signature): no dbid. */
  method StringsToRecordWithoutDbid(fields: array?<JavaBytes>, sig: Option<string>, fp: FloatParsers)
    returns (r: Option<array<Value>>)
    ensures fields == null || sig.None? ==> r.None?
    ensures fields != null && sig.Some? ==>
              var p := ParseRecord(fields[..], None, sig.value, fp);
              && (r.Some? <==> p.Some?)
              && (r.Some? ==> fresh(r.value) && r.value[..] == p.value)
  {
    r := StringsToRecord(fields, None, sig, fp);
  }

  /** Util.stringsToRecord(str, signature): the line split at runs of
      white space, then converted with no dbid. Splitting a null line
      throws. */
  method StringsToRecordLine(line: Option<JavaBytes>, sig: Option<string>, fp: FloatParsers)
    returns (r: Outcome<array<Value>>)
    ensures line.None? ==> r.Thrown?
    ensures line.Some? ==>
              && !r.Thrown?
              && (r.Ok? <==> sig.Some? && ParseLine(line.value, sig.value, fp).Some?)
              && (r.Ok? ==> fresh(r.value) && r.value[..] == ParseLine(line.value, sig.value, fp).value)
  {
    if line.None? {
      return Thrown;
    }
    var parts := LineFields(line.value);
    var fields := new JavaBytes[|parts|](i requires 0 <= i < |parts| => parts[i]);
    assert fields[..] == parts;
    var rec := StringsToRecord(fields, None, sig, fp);
    return if rec.Some? then Ok(rec.value) else Null;
  }

  /** One case of recordToFile's switch: the field written for tag `c`, or
      false, having written nothing, when the tag is unknown or the value is
      not of its class. `write` stands for `EncodeField`. */
  method WriteField(out: ByteOutput, c: char, v: Value, ghost write: FieldWriter) returns (ok: bool)
    requires IsEncoder(write)
    modifies out
    ensures ok <==> write(c, v).Some?
    ensures ok ==> out.bytes == old(out.bytes) + write(c, v).value
    ensures !ok ==> out.bytes == old(out.bytes)
  {
    assert write(c, v) == EncodeField(c, v);
    match c
    case 's' =>
      if !v.Text? {
        return false;
      }
      out.WriteInt(|v.bytes|);
      out.Write(v.bytes);
      ok := true;
    case 'i' =>
      if !v.I32? {
        return false;
      }
      out.WriteInt(v.i);
      ok := true;
    case 'l' =>
      if !v.I64? {
        return false;
      }
      out.WriteLong(v.l);
      ok := true;
    case 'f' =>
      if !v.F32? {
        return false;
      }
      out.WriteFloat(v.fbits);
      ok := true;
    case 'd' =>
      if !v.F64? {
        return false;
      }
      out.WriteDouble(v.dbits);
      ok := true;
    case _ =>
      ok := false;
  }

  /** The loop of recordToFile over the first `n` fields of `t`: returns
      whether all of them were written; what it writes, including the fields
      written before a failing one, is what `WriteFields` says. */
  method WriteRecordFields(out: ByteOutput, rec: seq<Value>, t: string, n: nat, ghost write: FieldWriter)
    returns (ok: bool)
    requires n <= |rec| && n <= |t| && IsEncoder(write)
    modifies out
    ensures ok == WriteFields(write, rec, t, n).ok
    ensures out.bytes == old(out.bytes) + WriteFields(write, rec, t, n).bytes
  {
    ghost var b: seq<Byte> := [];
    var i := 0;
    while i < n
      invariant 0 <= i <= n
      invariant WriteFields(write, rec, t, i) == Written(b, true)
      invariant out.bytes == old(out.bytes) + b
    {
      var fieldOk := WriteField(out, t[i], rec[i], write);
      if !fieldOk {
        WriteFieldsFailed(write, rec, t, i + 1, n);
        return false;
      }
      b := b + write(t[i], rec[i]).value;
      i := i + 1;
    }
    ok := true;
  }

  /** Util.recordToFile: returns whether the record was written; what it
      writes, including the fields written before a failing one, is what
      `EncodeRecord` says. The dbid, cast to Integer, is written as an `i`
      field is, so the loop runs over the signature followed by `i`. */
  method RecordToFile(tokens: array?<Value>, sig: Option<string>, out: ByteOutput?) returns (ok: bool)
    modifies out
    ensures tokens == null || sig.None? || out == null ==> !ok
    ensures out != null && (tokens == null || sig.None?) ==> out.bytes == old(out.bytes)
    ensures tokens != null && sig.Some? && out != null ==>
              && ok == EncodeRecord(tokens[..], sig.value).ok
              && out.bytes == old(out.bytes) + EncodeRecord(tokens[..], sig.value).bytes
  {
    if tokens == null || sig.None? || out == null {
      return false;
    }
    var s := sig.value;
    if tokens.Length != |s| + 1 {
      return false;
    }
    ok := WriteRecordFields(out, tokens[..], s + "i", tokens.Length, EncodeField);
  }

  /** One case of fileToRecord's switch: the value read for tag `c`, or
      null when the stream ends first, a string length is negative or the
      tag is unknown. `read` stands for `DecodeField` over the stream. */
  method ReadField(inp: ByteInput, c: char, mode: StringRead, ghost read: FieldReader) returns (v: Option<Value>)
    requires inp.Valid() && IsDecoder(read, inp.data, mode)
    modifies inp
    ensures inp.Valid()
    ensures var d := read(c, old(inp.pos));
            && (v.Some? <==> d.Some?)
            && (v.Some? ==> v.value == d.value.0 && inp.pos == d.value.1)
  {
    assert read(c, inp.pos) == DecodeField(c, inp.data, inp.pos, mode);
    match c
    case 's' =>
      var size := inp.ReadInt();
      if size.None? || size.value < 0 {
        return None;
      }
      var buf := new Byte[size.value](_ => 0);
      if mode == ReadFully {
        var full := inp.ReadFully(buf);
        if !full {
          return None;
        }
      } else {
        assert buf[..] == seq(size.value, _ => 0);
        var cnt := inp.Read(buf);
      }
      v := Some(Text(buf[..]));
    case 'i' =>
      var x := inp.ReadInt();
      v := if x.Some? then Some(I32(x.value)) else None;
    case 'l' =>
      var x := inp.ReadLong();
      v := if x.Some? then Some(I64(x.value)) else None;
    case 'f' =>
      var x := inp.ReadFloat();
      v := if x.Some? then Some(F32(x.value)) else None;
    case 'd' =>
      var x := inp.ReadDouble();
      v := if x.Some? then Some(F64(x.value)) else None;
    case _ =>
      v := None;
  }

  /** The body of fileToRecord once its arguments are known not to be null:
      the fields of `sig` read into a new array, then the dbid when
      `readDbid` is set, as `ReadFields` says over the signature followed by
      `i`; the stream is left just after the last field read. */
  method ReadRecord(sig: string, inp: ByteInput, readDbid: bool, mode: StringRead, ghost read: FieldReader)
    returns (r: Option<array<Value>>)
    requires inp.Valid() && IsDecoder(read, inp.data, mode)
    modifies inp
    ensures inp.Valid()
    ensures var d := ReadFields(read, sig + "i", old(inp.pos), if readDbid then |sig| + 1 else |sig|);
            && (r.Some? <==> d.Some?)
            && (r.Some? ==> fresh(r.value) && r.value[..] == d.value.0 && inp.pos == d.value.1)
  {
    ghost var t := sig + "i";
    ghost var n := if readDbid then |sig| + 1 else |sig|;
    ghost var at := inp.pos;
    var tokens := new Value[if readDbid then |sig| + 1 else |sig|](_ => I32(0));
    var i := 0;
    while i < |sig|
      invariant 0 <= i <= |sig| && inp.Valid()
      invariant ReadFields(read, t, at, i) == Some((tokens[..i], inp.pos))
    {
      assert t[i] == sig[i];
      ghost var vs := tokens[..i];
      var v := ReadField(inp, sig[i], mode, read);
      if v.None? {
        ReadFieldsPrefixFails(read, t, at, i + 1, n);
        return None;
      }
      tokens[i] := v.value;
      assert tokens[..i + 1] == vs + [v.value];
      i := i + 1;
    }
    if readDbid {
      assert t[|sig|] == 'i';
      assert read('i', inp.pos) == DecodeField('i', inp.data, inp.pos, mode);
      var id := inp.ReadInt();
      if id.None? {
        return None;
      }
      tokens[|sig|] := I32(id.value);
      assert tokens[..] == tokens[..|sig|] + [I32(id.value)];
    } else {
      assert tokens[..] == tokens[..|sig|];
    }
    return Some(tokens);
  }

  /** Util.fileToRecord(signature, inpStream, readDbid): the record, read as
      `DecodeRecordWith` says, and the stream left just after it; or null.
      `mode` says how string bytes are read: `ReadAvailable` is the source
      as written, `ReadFully` the intended behaviour. */
  method FileToRecord(sig: Option<string>, inp: ByteInput?, readDbid: bool, mode: StringRead)
    returns (r: Option<array<Value>>)
    requires inp != null ==> inp.Valid()
    modifies inp
    ensures inp != null ==> inp.Valid()
    ensures sig.None? || inp == null ==> r.None?
    ensures sig.Some? && inp != null ==>
              var d := DecodeRecordWith(sig.value, inp.data, old(inp.pos), readDbid, mode);
              && (r.Some? <==> d.Some?)
              && (r.Some? ==> fresh(r.value) && r.value[..] == d.value.0 && inp.pos == d.value.1)
  {
    if sig.None? || inp == null {
      return None;
    }
    r := ReadRecord(sig.value, inp, readDbid, mode, FieldAt(inp.data, mode));
  }

  /** Util.fileToRecord(signature, inpStream): the dbid is read. */
  method FileToRecordWithDbid(sig: Option<string>, inp: ByteInput?, mode: StringRead) returns (r: Option<array<Value>>)
    requires inp != null ==> inp.Valid()
    modifies inp
    ensures inp != null ==> inp.Valid()
    ensures sig.None? || inp == null ==> r.None?
    ensures sig.Some? && inp != null ==>
              var d := DecodeRecordWith(sig.value, inp.data, old(inp.pos), true, mode);
              && (r.Some? <==> d.Some?)
              && (r.Some? ==> fresh(r.value) && r.value[..] == d.value.0 && inp.pos == d.value.1)
  {
    r := FileToRecord(sig, inp, true, mode);
  }
}
