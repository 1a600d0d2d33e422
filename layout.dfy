/** The binary record layout written by Util.recordToFile and read by
    Util.fileToRecord, as specification functions over byte sequences. */
module Layout {
  import opened Wrappers
  import opened Bytes
  import opened Records

  /** An IEEE-754 single NaN: all exponent bits set and a non-zero fraction,
      with either sign. */
  predicate IsNaN32(bits: Word32) {
    0x7f80_0000 < bits < 0x8000_0000 || 0xff80_0000 < bits
  }

  /** An IEEE-754 double NaN, in the same terms. */
  predicate IsNaN64(bits: Word64) {
    0x7ff0_0000_0000_0000 < bits < 0x8000_0000_0000_0000 || 0xfff0_0000_0000_0000 < bits
  }

  /** Float.floatToIntBits and Double.doubleToLongBits: every NaN is written
      as the one canonical NaN, any other value as its own bits. */
  function FloatToIntBits(bits: Word32): (r: Word32)
    ensures !IsNaN32(bits) ==> r == bits
    ensures IsNaN32(bits) ==> r == 0x7fc0_0000 && IsNaN32(r)
  {
    if IsNaN32(bits) then 0x7fc0_0000 else bits
  }

  function DoubleToLongBits(bits: Word64): (r: Word64)
    ensures !IsNaN64(bits) ==> r == bits
    ensures IsNaN64(bits) ==> r == 0x7ff8_0000_0000_0000 && IsNaN64(r)
  {
    if IsNaN64(bits) then 0x7ff8_0000_0000_0000 else bits
  }

  /** The value as Java's equals sees it: Float.equals and Double.equals
      compare floatToIntBits and doubleToLongBits. */
  function Canonical(v: Value): Value {
    match v
    case F32(b) => F32(FloatToIntBits(b))
    case F64(b) => F64(DoubleToLongBits(b))
    case _ => v
  }

  /** Every element of a record in its `Canonical` form. */
  function CanonicalRecord(rec: seq<Value>): (r: seq<Value>)
    ensures |r| == |rec|
  {
    seq(|rec|, i requires 0 <= i < |rec| => Canonical(rec[i]))
  }

  /** Arrays.equals on two records. */
  predicate JavaEquals(a: seq<Value>, b: seq<Value>) {
    |a| == |b| && forall i :: 0 <= i < |a| ==> Canonical(a[i]) == Canonical(b[i])
  }

  // ---------------------------------------------------------------------
  // One field

  /** Bytes a field occupies: 4 for i and f, 8 for l and d, 4 plus the byte
      length for s. */
  function FieldSize(v: Value): nat {
    match v
    case Text(b) => 4 + |b|
    case I32(_) => 4
    case I64(_) => 8
    case F32(_) => 4
    case F64(_) => 8
  }

  /** Bytes the first `n` fields of `vals` occupy. */
  function Offset(vals: seq<Value>, n: nat): nat
    requires n <= |vals|
  {
    if n == 0 then 0 else Offset(vals, n - 1) + FieldSize(vals[n - 1])
  }

  /** What writeInt+write, writeInt, writeLong, writeFloat and writeDouble
      emit for a value of each class. */
  function ValueBytes(v: Value): (bs: seq<Byte>)
    ensures |bs| == FieldSize(v)
  {
    match v
    case Text(b) => Int32Bytes(|b|) + b
    case I32(x) => Int32Bytes(x)
    case I64(x) => Int64Bytes(x)
    case F32(b) => Word32Bytes(FloatToIntBits(b))
    case F64(b) => Word64Bytes(DoubleToLongBits(b))
  }

  /** The bytes of one field, or null when the tag is unknown or the value is
      not of the tag's class (the ClassCastException is caught). */
  function EncodeField(c: char, v: Value): (r: Option<seq<Byte>>)
    ensures r.Some? <==> FieldMatches(c, v)
    ensures r.Some? ==> |r.value| == FieldSize(v)
  {
    if c != TagChar(v) then None else Some(ValueBytes(v))
  }

  /** How a string field is read back. */
  datatype StringRead =
    | ReadFully      // fail unless all the declared bytes are there
    | ReadAvailable  // DataInputStream.read of a stream holding every byte: take what is there, zero-fill the rest

  /** The string field at `at`: a 4-byte length, then that many bytes. */
  function DecodeText(bs: seq<Byte>, at: nat, mode: StringRead): (r: Option<(Value, nat)>)
    ensures r.Some? ==> at <= r.value.1 <= |bs| && r.value.0.Text?
  {
    if |bs| < at + 4 then None
    else
      var size := Int32Of(bs[at..at + 4]);
      var avail := |bs| - (at + 4);
      if size < 0 then None
      else if mode == ReadFully then
        if avail < size then None else Some((Text(bs[at + 4..at + 4 + size]), at + 4 + size))
      else
        var got := if avail < size then avail else size;
        Some((Text(bs[at + 4..at + 4 + got] + seq(size - got, _ => 0)), at + 4 + got))
  }

  /** One field read at position `at` of `bs`: the value and the position
      after it, or null on a truncated stream, a negative string length or an
      unknown tag. */
  function DecodeField(c: char, bs: seq<Byte>, at: nat, mode: StringRead): (r: Option<(Value, nat)>)
    ensures r.Some? ==> at <= r.value.1 <= |bs| && FieldMatches(c, r.value.0)
  {
    match c
    case 'i' => if |bs| < at + 4 then None else Some((I32(Int32Of(bs[at..at + 4])), at + 4))
    case 'l' => if |bs| < at + 8 then None else Some((I64(Int64Of(bs[at..at + 8])), at + 8))
    case 'f' => if |bs| < at + 4 then None else Some((F32(Word32Of(bs[at..at + 4])), at + 4))
    case 'd' => if |bs| < at + 8 then None else Some((F64(Word64Of(bs[at..at + 8])), at + 8))
    case 's' => DecodeText(bs, at, mode)
    case _ => None
  }

  /** A field written at `at` reads back as its canonical value, and the
      position after it is where it ends. */
  lemma {:induction false} DecodeEncodeField(c: char, v: Value, bs: seq<Byte>, at: nat)
    requires FieldMatches(c, v)
    requires at + FieldSize(v) <= |bs| && bs[at..at + FieldSize(v)] == ValueBytes(v)
    ensures DecodeField(c, bs, at, ReadFully) == Some((Canonical(v), at + FieldSize(v)))
  {
    var e := ValueBytes(v);
    match v
    case Text(b) =>
      Int32RoundTrip(|b|);
      assert bs[at..at + 4] == e[..4] == Int32Bytes(|b|);
      assert bs[at + 4..at + 4 + |b|] == e[4..] == b;
    case I32(x) =>
      Int32RoundTrip(x);
    case I64(x) =>
      Int64RoundTrip(x);
    case F32(b) =>
      Word32RoundTrip(FloatToIntBits(b));
    case F64(b) =>
      Word64RoundTrip(DoubleToLongBits(b));
  }

  /** A field whose bytes are cut short does not read. */
  lemma {:induction false} TruncatedFieldFails(c: char, v: Value, bs: seq<Byte>, at: nat)
    requires FieldMatches(c, v) && at <= |bs|
    requires |bs| - at < FieldSize(v) && bs[at..] == ValueBytes(v)[..|bs| - at]
    ensures DecodeField(c, bs, at, ReadFully).None?
  {
    var e := ValueBytes(v);
    if v.Text? && |bs| - at >= 4 {
      assert bs[at..at + 4] == e[..4] == Int32Bytes(|v.bytes|);
      Int32RoundTrip(|v.bytes|);
    }
  }


  // ---------------------------------------------------------------------
  // The fields of a signature, in order, for any codec of single fields

  /** A writer of single fields: the bytes of a value under a tag, or null. */
  type FieldWriter = (char, Value) -> Option<seq<Byte>>

  /** What recordToFile writes and whether it returns true. */
  datatype Written = Written(bytes: seq<Byte>, ok: bool)

  /** The first `n` fields, value `vals[i]` under tag `sig[i]`, in order;
      writing stops at the first field that fails, and what was already
      written stays written. */
  function WriteFields(write: FieldWriter, vals: seq<Value>, sig: string, n: nat): (w: Written)
    requires n <= |vals| && n <= |sig|
  {
    if n == 0 then Written([], true)
    else
      var init := WriteFields(write, vals, sig, n - 1);
      if !init.ok then init
      else
        var last := write(sig[n - 1], vals[n - 1]);
        if last.None? then Written(init.bytes, false) else Written(init.bytes + last.value, true)
  }

  /** Every field the writer writes takes its `FieldSize`. */
  ghost predicate Sized(write: FieldWriter) {
    forall c: char, v: Value :: write(c, v).Some? ==> |write(c, v).value| == FieldSize(v)
  }

  /** A reader of single fields: for a tag and a position, the value read
      there and the position after it, or null. */
  type FieldReader = (char, nat) -> Option<(Value, nat)>

  /** The first `n` fields of `sig` read one after another from position
      `at`, null as soon as one of them does not read. */
  function ReadFields(read: FieldReader, sig: string, at: nat, n: nat): (r: Option<(seq<Value>, nat)>)
    requires n <= |sig|
    ensures r.Some? ==> |r.value.0| == n
  {
    if n == 0 then Some(([], at))
    else
      var init := ReadFields(read, sig, at, n - 1);
      if init.None? then None
      else
        var last := read(sig[n - 1], init.value.1);
        if last.None? then None else Some((init.value.0 + [last.value.0], last.value.1))
  }

  /** The reader stays within `[p, limit]` from any position `p <= limit`. */
  ghost predicate Advances(read: FieldReader, limit: nat) {
    forall c: char, p: nat :: p <= limit && read(c, p).Some? ==> p <= read(c, p).value.1 <= limit
  }

  /** The bytes `write` gives for `v` under tag `c` sit at position `p` of `bs`. */
  ghost predicate WrittenAt(write: FieldWriter, c: char, v: Value, bs: seq<Byte>, p: nat) {
    write(c, v).Some? && p + |write(c, v).value| <= |bs| && bs[p..p + |write(c, v).value|] == write(c, v).value
  }

  /** `bs` ends at or after `p` but before the bytes `write` gives for `v`
      under tag `c` do, and what is there from `p` on is their start. */
  ghost predicate CutAt(write: FieldWriter, c: char, v: Value, bs: seq<Byte>, p: nat) {
    write(c, v).Some? && p <= |bs| && |bs| - p < |write(c, v).value| && bs[p..] == write(c, v).value[..|bs| - p]
  }

  /** Wherever a field's bytes sit in `bs`, the reader reads its canonical
      value there and ends where the bytes end. */
  ghost predicate ReadsBack(read: FieldReader, write: FieldWriter, bs: seq<Byte>) {
    forall c: char, v: Value, p: nat {:trigger WrittenAt(write, c, v, bs, p)} ::
      WrittenAt(write, c, v, bs, p) ==> read(c, p) == Some((Canonical(v), p + |write(c, v).value|))
  }

  /** Where `bs` ends inside a field's bytes, the reader does not read it. */
  ghost predicate FailsWhenCut(read: FieldReader, write: FieldWriter, bs: seq<Byte>) {
    forall c: char, v: Value, p: nat {:trigger CutAt(write, c, v, bs, p)} ::
      CutAt(write, c, v, bs, p) ==> read(c, p).None?
  }

  /** Writing succeeds exactly when every field does. */
  lemma {:induction false} WriteFieldsOk(write: FieldWriter, vals: seq<Value>, sig: string, n: nat)
    requires n <= |vals| && n <= |sig|
    ensures WriteFields(write, vals, sig, n).ok <==> forall i :: 0 <= i < n ==> write(sig[i], vals[i]).Some?
  {
    if n > 0 {
      WriteFieldsOk(write, vals, sig, n - 1);
    }
  }

  /** Once the first `i` fields fail, writing more of them changes nothing. */
  lemma {:induction false} WriteFieldsFailed(write: FieldWriter, vals: seq<Value>, sig: string, i: nat, n: nat)
    requires i <= n <= |vals| && n <= |sig| && !WriteFields(write, vals, sig, i).ok
    ensures WriteFields(write, vals, sig, n) == WriteFields(write, vals, sig, i)
  {
    if i < n {
      WriteFieldsFailed(write, vals, sig, i, n - 1);
    }
  }

  /** Once a field fails, what follows it is never written: the output is
      what the fields before the first failing one wrote. */
  lemma {:induction false} WriteFieldsStopsAtFailure(write: FieldWriter, vals: seq<Value>, sig: string, n: nat, i: nat)
    requires i < n <= |vals| && n <= |sig|
    requires write(sig[i], vals[i]).None?
    requires forall j :: 0 <= j < i ==> write(sig[j], vals[j]).Some?
    ensures WriteFields(write, vals, sig, n) == Written(WriteFields(write, vals, sig, i).bytes, false)
  {
    WriteFieldsOk(write, vals, sig, i);
    WriteFieldsFailed(write, vals, sig, i + 1, n);
  }

  lemma {:induction false} OffsetMono(vals: seq<Value>, j: nat, i: nat)
    requires j <= i <= |vals|
    ensures Offset(vals, j) <= Offset(vals, i)
  {
    if j < i {
      OffsetMono(vals, j, i - 1);
    }
  }

  /** What is written takes the fields' widths. */
  lemma {:induction false} WriteFieldsSize(write: FieldWriter, vals: seq<Value>, sig: string, n: nat)
    requires n <= |vals| && n <= |sig| && Sized(write) && WriteFields(write, vals, sig, n).ok
    ensures |WriteFields(write, vals, sig, n).bytes| == Offset(vals, n)
  {
    if n > 0 {
      WriteFieldsSize(write, vals, sig, n - 1);
    }
  }

  /** Slices of `h + e` that lie within `h`, and `e` itself. */
  lemma {:induction false} AppendSlices(h: seq<Byte>, e: seq<Byte>, a: nat, b: nat)
    requires a <= b <= |h|
    ensures (h + e)[a..b] == h[a..b]
    ensures (h + e)[|h|..] == e
  {
  }

  /** Field `i` is written right after the fields before it. */
  lemma {:induction false} WriteFieldsPlaced(write: FieldWriter, vals: seq<Value>, sig: string, n: nat, i: nat)
    requires i < n <= |vals| && n <= |sig| && Sized(write) && WriteFields(write, vals, sig, n).ok
    ensures write(sig[i], vals[i]).Some?
    ensures Offset(vals, i + 1) <= |WriteFields(write, vals, sig, n).bytes|
    ensures WriteFields(write, vals, sig, n).bytes[Offset(vals, i)..Offset(vals, i + 1)] == write(sig[i], vals[i]).value
  {
    var head := WriteFields(write, vals, sig, n - 1).bytes;
    var e := write(sig[n - 1], vals[n - 1]).value;
    assert WriteFields(write, vals, sig, n).bytes == head + e;
    WriteFieldsSize(write, vals, sig, n - 1);
    if i < n - 1 {
      WriteFieldsPlaced(write, vals, sig, n - 1, i);
      OffsetMono(vals, i + 1, n - 1);
      AppendSlices(head, e, Offset(vals, i), Offset(vals, i + 1));
    } else {
      AppendSlices(head, e, 0, 0);
      assert (head + e)[|head|..|head| + |e|] == (head + e)[|head|..];
    }
  }

  /** Where `w[..m]` sits at `at`, every part of it sits at its offset. */
  lemma {:induction false} PrefixPart(bs: seq<Byte>, at: nat, w: seq<Byte>, m: nat, a: nat, b: nat)
    requires m <= |w| && at + m <= |bs| && bs[at..at + m] == w[..m] && a <= b <= m
    ensures bs[at + a..at + b] == w[a..b]
  {
    forall j | 0 <= j < b - a
      ensures bs[at + a..at + b][j] == w[a..b][j]
    {
      assert bs[at + a..at + b][j] == bs[at + a + j];
      assert bs[at..at + m][a + j] == bs[at + a + j];
    }
  }

  /** Where `f + g` sits at `at`, `f` sits at `at` and `g` right after it. */
  lemma {:induction false} Split(bs: seq<Byte>, at: nat, w: seq<Byte>, f: seq<Byte>, g: seq<Byte>)
    requires w == f + g && at + |w| <= |bs| && bs[at..at + |w|] == w
    ensures bs[at..at + |f|] == f && bs[at + |f|..at + |f| + |g|] == g
  {
    PrefixPart(bs, at, w, |w|, 0, |f|);
    PrefixPart(bs, at, w, |w|, |f|, |w|);
  }

  /** Where the first `m` written bytes sit at `at`, a field that ends within
      them sits at its offset. */
  lemma {:induction false} WrittenFieldAt(write: FieldWriter, vals: seq<Value>, sig: string, n: nat, bs: seq<Byte>, at: nat, m: nat, i: nat)
    requires i < n <= |vals| && n <= |sig| && Sized(write) && WriteFields(write, vals, sig, n).ok
    requires m <= |WriteFields(write, vals, sig, n).bytes| && at + m <= |bs|
    requires bs[at..at + m] == WriteFields(write, vals, sig, n).bytes[..m]
    requires Offset(vals, i + 1) <= m
    ensures WrittenAt(write, sig[i], vals[i], bs, at + Offset(vals, i))
    ensures Offset(vals, i + 1) == Offset(vals, i) + |write(sig[i], vals[i]).value|
  {
    WriteFieldsPlaced(write, vals, sig, n, i);
    PrefixPart(bs, at, WriteFields(write, vals, sig, n).bytes, m, Offset(vals, i), Offset(vals, i + 1));
  }

  /** Where the first `m` written bytes are all there is from `at` on, and
      field `i` starts within them and ends past them, what is there is the
      start of that field. */
  lemma {:induction false} CutFieldAt(write: FieldWriter, vals: seq<Value>, sig: string, n: nat, bs: seq<Byte>, at: nat, m: nat, i: nat)
    requires i < n <= |vals| && n <= |sig| && Sized(write) && WriteFields(write, vals, sig, n).ok
    requires m <= |WriteFields(write, vals, sig, n).bytes| && at + m == |bs|
    requires bs[at..] == WriteFields(write, vals, sig, n).bytes[..m]
    requires Offset(vals, i) <= m < Offset(vals, i + 1)
    ensures CutAt(write, sig[i], vals[i], bs, at + Offset(vals, i))
  {
    var w := WriteFields(write, vals, sig, n).bytes;
    var a := Offset(vals, i);
    WriteFieldsPlaced(write, vals, sig, n, i);
    assert bs[at..at + m] == bs[at..];
    PrefixPart(bs, at, w, m, a, m);
    assert w[a..m] == w[a..Offset(vals, i + 1)][..m - a];
    assert bs[at + a..] == bs[at + a..at + m];
  }

  lemma {:induction false} ReadFieldsWithin(read: FieldReader, sig: string, at: nat, n: nat, limit: nat)
    requires n <= |sig| && at <= limit && Advances(read, limit)
    ensures var r := ReadFields(read, sig, at, n); r.Some? ==> at <= r.value.1 <= limit
  {
    if n > 0 {
      ReadFieldsWithin(read, sig, at, n - 1, limit);
    }
  }

  /** Once the first `i` fields fail to read, so do the first `n`. */
  lemma {:induction false} ReadFieldsPrefixFails(read: FieldReader, sig: string, at: nat, i: nat, n: nat)
    requires i <= n <= |sig| && ReadFields(read, sig, at, i).None?
    ensures ReadFields(read, sig, at, n).None?
  {
    if i < n {
      ReadFieldsPrefixFails(read, sig, at, i, n - 1);
    }
  }

  /** Where each field before `n` reads `vs[i]` at the offset the fields
      before it occupy, the first `n` fields of `sig` read `vs[..n]`. */
  lemma {:induction false} ReadWritten(read: FieldReader, sig: string, vals: seq<Value>, vs: seq<Value>, at: nat, n: nat)
    requires n <= |sig| && n <= |vals| && n <= |vs|
    requires forall i {:trigger vs[i]} :: 0 <= i < n ==>
               read(sig[i], at + Offset(vals, i)) == Some((vs[i], at + Offset(vals, i + 1)))
    ensures ReadFields(read, sig, at, n) == Some((vs[..n], at + Offset(vals, n)))
  {
    if n > 0 {
      ReadWritten(read, sig, vals, vs, at, n - 1);
      assert vs[..n] == vs[..n - 1] + [vs[n - 1]];
    }
  }

  /** Where the fields before `i` read and field `i` does not, the first `n`
      fields do not read. */
  lemma {:induction false} ReadFailsAt(read: FieldReader, sig: string, vals: seq<Value>, vs: seq<Value>, at: nat, i: nat, n: nat)
    requires i < n <= |sig| && i <= |vals| && i <= |vs|
    requires forall j {:trigger vs[j]} :: 0 <= j < i ==>
               read(sig[j], at + Offset(vals, j)) == Some((vs[j], at + Offset(vals, j + 1)))
    requires read(sig[i], at + Offset(vals, i)).None?
    ensures ReadFields(read, sig, at, n).None?
  {
    ReadWritten(read, sig, vals, vs, at, i);
    ReadFieldsPrefixFails(read, sig, at, i + 1, n);
  }

  /** The field among the first `n` that a stream ending `limit` bytes in
      cuts short. */
  function CrossingField(vals: seq<Value>, limit: nat, n: nat): (i: nat)
    requires n <= |vals| && limit < Offset(vals, n)
    ensures i < n && Offset(vals, i) <= limit < Offset(vals, i + 1)
  {
    if limit < Offset(vals, n - 1) then CrossingField(vals, limit, n - 1) else n - 1
  }

  /** Where the first `m` written bytes sit at `at`, each of the first `i`
      fields, all within them, reads as its canonical value at its offset. */
  lemma {:induction false} WrittenFieldsRead(write: FieldWriter, read: FieldReader, vals: seq<Value>, sig: string, n: nat, bs: seq<Byte>, at: nat, m: nat, i: nat)
    requires n <= |vals| && n <= |sig| && Sized(write) && ReadsBack(read, write, bs) && WriteFields(write, vals, sig, n).ok
    requires m <= |WriteFields(write, vals, sig, n).bytes| && at + m <= |bs|
    requires bs[at..at + m] == WriteFields(write, vals, sig, n).bytes[..m]
    requires i <= n && Offset(vals, i) <= m
    ensures forall j {:trigger CanonicalRecord(vals)[j]} :: 0 <= j < i ==>
              read(sig[j], at + Offset(vals, j)) == Some((CanonicalRecord(vals)[j], at + Offset(vals, j + 1)))
  {
    forall j {:trigger CanonicalRecord(vals)[j]} | 0 <= j < i
      ensures read(sig[j], at + Offset(vals, j)) == Some((CanonicalRecord(vals)[j], at + Offset(vals, j + 1)))
    {
      OffsetMono(vals, j + 1, i);
      WrittenFieldAt(write, vals, sig, n, bs, at, m, j);
    }
  }

  /** What the writer wrote, the reader reads back, wherever it sits. */
  lemma {:induction false} ReadWhatWasWritten(write: FieldWriter, read: FieldReader, vals: seq<Value>, sig: string, n: nat, bs: seq<Byte>, at: nat)
    requires n <= |vals| && n <= |sig| && Sized(write) && ReadsBack(read, write, bs) && WriteFields(write, vals, sig, n).ok
    requires at + |WriteFields(write, vals, sig, n).bytes| <= |bs|
    requires bs[at..at + |WriteFields(write, vals, sig, n).bytes|] == WriteFields(write, vals, sig, n).bytes
    ensures ReadFields(read, sig, at, n) == Some((CanonicalRecord(vals)[..n], at + |WriteFields(write, vals, sig, n).bytes|))
  {
    var w := WriteFields(write, vals, sig, n).bytes;
    WriteFieldsSize(write, vals, sig, n);
    assert w[..|w|] == w;
    WrittenFieldsRead(write, read, vals, sig, n, bs, at, |w|, n);
    ReadWritten(read, sig, vals, CanonicalRecord(vals), at, n);
  }

  /** Where the stream ends inside what the writer wrote, the reader fails. */
  lemma {:induction false} ReadCutFails(write: FieldWriter, read: FieldReader, vals: seq<Value>, sig: string, n: nat, bs: seq<Byte>, at: nat)
    requires n <= |vals| && n <= |sig| && Sized(write) && WriteFields(write, vals, sig, n).ok && at <= |bs|
    requires ReadsBack(read, write, bs) && FailsWhenCut(read, write, bs)
    requires |bs| - at < |WriteFields(write, vals, sig, n).bytes|
    requires bs[at..] == WriteFields(write, vals, sig, n).bytes[..|bs| - at]
    ensures ReadFields(read, sig, at, n).None?
  {
    var m := |bs| - at;
    WriteFieldsSize(write, vals, sig, n);
    var i := CrossingField(vals, m, n);
    assert bs[at..at + m] == bs[at..];
    WrittenFieldsRead(write, read, vals, sig, n, bs, at, m, i);
    CutFieldAt(write, vals, sig, n, bs, at, m, i);
    ReadFailsAt(read, sig, vals, CanonicalRecord(vals), at, i, n);
  }

  // ---------------------------------------------------------------------
  // Util.recordToFile and Util.fileToRecord

  /** Util.recordToFile: nothing is written unless the record has one element
      more than the signature; then the fields, then the trailing dbid, which
      is cast to Integer and written as an `i` field is. */
  function EncodeRecord(rec: seq<Value>, sig: string): (w: Written)
    ensures |rec| != |sig| + 1 ==> w == Written([], false)
  {
    if |rec| != |sig| + 1 then Written([], false) else WriteFields(EncodeField, rec, sig + "i", |rec|)
  }

  /** The reader fileToRecord applies to the stream `bs`. */
  function FieldAt(bs: seq<Byte>, mode: StringRead): FieldReader {
    (c, p) => DecodeField(c, bs, p, mode)
  }

  /** `write` agrees with `EncodeField`. Stated with `EncodeField` as the
      only trigger, so a proof about `WriteFields(write, ...)` unfolds the
      field encoding only for the fields it names. */
  ghost predicate IsEncoder(write: FieldWriter) {
    forall c: char, v: Value {:trigger EncodeField(c, v)} :: write(c, v) == EncodeField(c, v)
  }

  /** `read` agrees with `DecodeField` over the stream `bs`. */
  ghost predicate IsDecoder(read: FieldReader, bs: seq<Byte>, mode: StringRead) {
    forall c: char, p: nat {:trigger DecodeField(c, bs, p, mode)} :: read(c, p) == DecodeField(c, bs, p, mode)
  }

  /** Util.fileToRecord: the fields of `sig`, then, when `readDbid` is set,
      the dbid, read as an `i` field is. */
  function DecodeRecordWith(sig: string, bs: seq<Byte>, at: nat, readDbid: bool, mode: StringRead): (r: Option<(seq<Value>, nat)>)
    ensures r.Some? ==> |r.value.0| == |sig| + (if readDbid then 1 else 0)
  {
    ReadFields(FieldAt(bs, mode), sig + "i", at, if readDbid then |sig| + 1 else |sig|)
  }

  /** Util.fileToRecord with string fields read in full: the record and the
      stream position after it, or null. */
  function DecodeRecord(sig: string, bs: seq<Byte>, at: nat, readDbid: bool): Option<(seq<Value>, nat)> {
    DecodeRecordWith(sig, bs, at, readDbid, ReadFully)
  }

  /** Util.fileToRecord as written: a string field whose bytes run short is
      zero-filled instead of failing. */
  function DecodeRecordAsWritten(sig: string, bs: seq<Byte>, at: nat, readDbid: bool): Option<(seq<Value>, nat)> {
    DecodeRecordWith(sig, bs, at, readDbid, ReadAvailable)
  }

  lemma {:induction false} EncodeFieldSized()
    ensures Sized(EncodeField)
  {
  }

  /** recordToFile returns true exactly for records of the signature's shape
      with a trailing Integer dbid. */
  lemma {:induction false} EncodeRecordOk(rec: seq<Value>, sig: string)
    ensures EncodeRecord(rec, sig).ok <==> Conforms(rec, sig)
  {
    if |rec| == |sig| + 1 {
      var t := sig + "i";
      WriteFieldsOk(EncodeField, rec, t, |rec|);
      assert forall i :: 0 <= i < |sig| ==> t[i] == sig[i];
      assert t[|sig|] == 'i';
    }
  }

  /** The output is the sum of the field widths plus 4 bytes of dbid. */
  lemma {:induction false} EncodedSize(rec: seq<Value>, sig: string)
    requires EncodeRecord(rec, sig).ok
    ensures |EncodeRecord(rec, sig).bytes| == Offset(rec, |sig|) + 4
  {
    EncodeFieldSized();
    EncodeRecordOk(rec, sig);
    WriteFieldsSize(EncodeField, rec, sig + "i", |rec|);
  }

  /** A record whose element `i` is the first not of the class its tag asks
      for (the dbid's being Integer) has the fields before it written, and
      recordToFile returns false. */
  lemma {:induction false} EncodeStopsAtMismatch(rec: seq<Value>, sig: string, i: nat)
    requires |rec| == |sig| + 1 && i <= |sig|
    requires i < |sig| ==> !FieldMatches(sig[i], rec[i])
    requires i == |sig| ==> !rec[i].I32?
    requires forall j :: 0 <= j < i ==> FieldMatches(sig[j], rec[j])
    ensures EncodeRecord(rec, sig) == Written(WriteFields(EncodeField, rec, sig + "i", i).bytes, false)
  {
    var t := sig + "i";
    assert forall j :: 0 <= j < |sig| ==> t[j] == sig[j];
    assert t[|sig|] == 'i';
    WriteFieldsStopsAtFailure(EncodeField, rec, t, |rec|, i);
  }

  /** The field codec of recordToFile and fileToRecord: what one writes the
      other reads back, and a cut field does not read. */
  lemma {:induction false} FieldCodec(bs: seq<Byte>)
    ensures ReadsBack(FieldAt(bs, ReadFully), EncodeField, bs)
    ensures FailsWhenCut(FieldAt(bs, ReadFully), EncodeField, bs)
  {
    forall c: char, v: Value, p: nat | WrittenAt(EncodeField, c, v, bs, p)
      ensures DecodeField(c, bs, p, ReadFully) == Some((Canonical(v), p + |EncodeField(c, v).value|))
    {
      DecodeEncodeField(c, v, bs, p);
    }
    forall c: char, v: Value, p: nat | CutAt(EncodeField, c, v, bs, p)
      ensures DecodeField(c, bs, p, ReadFully).None?
    {
      TruncatedFieldFails(c, v, bs, p);
    }
  }

  /** Where a full read succeeds, reading what is available reads the same:
      the two modes differ only on a string cut short. */
  lemma {:induction false} ReadModesAgree(c: char, bs: seq<Byte>, p: nat)
    requires DecodeField(c, bs, p, ReadFully).Some?
    ensures DecodeField(c, bs, p, ReadAvailable) == DecodeField(c, bs, p, ReadFully)
  {
    if c == 's' {
      var size := Int32Of(bs[p..p + 4]);
      assert bs[p + 4..p + 4 + size] + seq(0, _ => 0) == bs[p + 4..p + 4 + size];
    }
  }

  /** Whichever way strings are read, fileToRecord's field reader reads
      back what recordToFile's field writer wrote. */
  lemma {:induction false} FieldReadsBack(bs: seq<Byte>, mode: StringRead)
    ensures ReadsBack(FieldAt(bs, mode), EncodeField, bs)
  {
    forall c: char, v: Value, p: nat | WrittenAt(EncodeField, c, v, bs, p)
      ensures DecodeField(c, bs, p, mode) == Some((Canonical(v), p + |EncodeField(c, v).value|))
    {
      DecodeEncodeField(c, v, bs, p);
      ReadModesAgree(c, bs, p);
    }
  }

  lemma {:induction false} DecodeEncodeFields(vals: seq<Value>, sig: string, n: nat, bs: seq<Byte>, at: nat, mode: StringRead)
    requires n <= |vals| && n <= |sig| && WriteFields(EncodeField, vals, sig, n).ok
    requires at + |WriteFields(EncodeField, vals, sig, n).bytes| <= |bs|
    requires bs[at..at + |WriteFields(EncodeField, vals, sig, n).bytes|] == WriteFields(EncodeField, vals, sig, n).bytes
    ensures ReadFields(FieldAt(bs, mode), sig, at, n) ==
            Some((CanonicalRecord(vals)[..n], at + |WriteFields(EncodeField, vals, sig, n).bytes|))
  {
    EncodeFieldSized();
    FieldReadsBack(bs, mode);
    ReadWhatWasWritten(EncodeField, FieldAt(bs, mode), vals, sig, n, bs, at);
  }

  /** Round trip: fileToRecord reads back what recordToFile wrote, wherever
      it sits in the stream, and stops where it ends; as written
      (`ReadAvailable`, on a stream that hands over every byte it holds) as
      well as with strings read in full. */
  lemma {:induction false} RoundTrip(rec: seq<Value>, sig: string, bs: seq<Byte>, at: nat, mode: StringRead)
    requires EncodeRecord(rec, sig).ok
    requires at + |EncodeRecord(rec, sig).bytes| <= |bs|
    requires bs[at..at + |EncodeRecord(rec, sig).bytes|] == EncodeRecord(rec, sig).bytes
    ensures DecodeRecordWith(sig, bs, at, true, mode) == Some((CanonicalRecord(rec), at + |EncodeRecord(rec, sig).bytes|))
  {
    assert |rec| == |sig| + 1;
    DecodeEncodeFields(rec, sig + "i", |sig| + 1, bs, at, mode);
    assert CanonicalRecord(rec)[..|sig| + 1] == CanonicalRecord(rec);
  }

  /** Where a written record sits in the stream, so do its fields. */
  lemma {:induction false} FieldsOfEncoding(rec: seq<Value>, sig: string, bs: seq<Byte>, at: nat)
    requires EncodeRecord(rec, sig).ok
    requires at + |EncodeRecord(rec, sig).bytes| <= |bs|
    requires bs[at..at + |EncodeRecord(rec, sig).bytes|] == EncodeRecord(rec, sig).bytes
    ensures |rec| == |sig| + 1 && WriteFields(EncodeField, rec, sig + "i", |sig|).ok
    ensures |EncodeRecord(rec, sig).bytes| == |WriteFields(EncodeField, rec, sig + "i", |sig|).bytes| + 4
    ensures var f := WriteFields(EncodeField, rec, sig + "i", |sig|).bytes;
            bs[at..at + |f|] == f
  {
    var f := WriteFields(EncodeField, rec, sig + "i", |sig|).bytes;
    Split(bs, at, EncodeRecord(rec, sig).bytes, f, Int32Bytes(rec[|sig|].i));
  }

  /** Without the dbid, fileToRecord reads the fields and stops four bytes
      before the end of the record, in either mode. */
  lemma {:induction false} RoundTripWithoutDbid(rec: seq<Value>, sig: string, bs: seq<Byte>, at: nat, mode: StringRead)
    requires EncodeRecord(rec, sig).ok
    requires at + |EncodeRecord(rec, sig).bytes| <= |bs|
    requires bs[at..at + |EncodeRecord(rec, sig).bytes|] == EncodeRecord(rec, sig).bytes
    ensures DecodeRecordWith(sig, bs, at, false, mode) == Some((CanonicalRecord(rec)[..|sig|], at + |EncodeRecord(rec, sig).bytes| - 4))
  {
    FieldsOfEncoding(rec, sig, bs, at);
    DecodeEncodeFields(rec, sig + "i", |sig|, bs, at, mode);
  }

  /** The record read back equals the one written, as Arrays.equals says;
      and exactly equal when no float field holds a non-canonical NaN; in
      either mode. */
  lemma {:induction false} RoundTripEquals(rec: seq<Value>, sig: string, mode: StringRead)
    requires EncodeRecord(rec, sig).ok
    ensures DecodeRecordWith(sig, EncodeRecord(rec, sig).bytes, 0, true, mode).Some?
    ensures JavaEquals(DecodeRecordWith(sig, EncodeRecord(rec, sig).bytes, 0, true, mode).value.0, rec)
    ensures (forall i :: 0 <= i < |rec| ==> Canonical(rec[i]) == rec[i]) ==>
            DecodeRecordWith(sig, EncodeRecord(rec, sig).bytes, 0, true, mode).value.0 == rec
  {
    var b := EncodeRecord(rec, sig).bytes;
    assert b[0..|b|] == b;
    RoundTrip(rec, sig, b, 0, mode);
  }

  /** The position after a record never passes the end of the stream. */
  lemma {:induction false} DecodeRecordWithin(sig: string, bs: seq<Byte>, at: nat, readDbid: bool, mode: StringRead)
    requires at <= |bs|
    ensures var r := DecodeRecordWith(sig, bs, at, readDbid, mode);
            r.Some? ==> at <= r.value.1 <= |bs|
  {
    ReadFieldsWithin(FieldAt(bs, mode), sig + "i", at, if readDbid then |sig| + 1 else |sig|, |bs|);
  }

  // ---------------------------------------------------------------------
  // Failure cases of fileToRecord

  lemma {:induction false} TruncatedFieldsFail(vals: seq<Value>, sig: string, n: nat, bs: seq<Byte>, at: nat)
    requires n <= |vals| && n <= |sig| && WriteFields(EncodeField, vals, sig, n).ok && at <= |bs|
    requires |bs| - at < |WriteFields(EncodeField, vals, sig, n).bytes|
    requires bs[at..] == WriteFields(EncodeField, vals, sig, n).bytes[..|bs| - at]
    ensures ReadFields(FieldAt(bs, ReadFully), sig, at, n).None?
  {
    EncodeFieldSized();
    FieldCodec(bs);
    ReadCutFails(EncodeField, FieldAt(bs, ReadFully), vals, sig, n, bs, at);
  }

  /** A stream that ends anywhere inside a written record reads back as null;
      without the dbid, anywhere inside its fields. */
  lemma {:induction false} TruncatedEncodingFails(rec: seq<Value>, sig: string, k: nat)
    requires EncodeRecord(rec, sig).ok
    requires k < |EncodeRecord(rec, sig).bytes|
    ensures DecodeRecord(sig, EncodeRecord(rec, sig).bytes[..k], 0, true).None?
    ensures k < |EncodeRecord(rec, sig).bytes| - 4 ==>
            DecodeRecord(sig, EncodeRecord(rec, sig).bytes[..k], 0, false).None?
  {
    var b := EncodeRecord(rec, sig).bytes;
    var cut := b[..k];
    assert cut[0..] == b[..k];
    TruncatedFieldsFail(rec, sig + "i", |rec|, cut, 0);
    var f := WriteFields(EncodeField, rec, sig + "i", |sig|).bytes;
    assert b == f + Int32Bytes(rec[|sig|].i);
    if k < |f| {
      assert cut[0..] == f[..k];
      TruncatedFieldsFail(rec, sig + "i", |sig|, cut, 0);
    }
  }

  /** A signature with an unknown tag never reads a record. */
  lemma {:induction false} UnknownTagFails(sig: string, bs: seq<Byte>, at: nat, readDbid: bool, mode: StringRead, i: nat)
    requires i < |sig| && !KnownTag(sig[i])
    ensures DecodeRecordWith(sig, bs, at, readDbid, mode).None?
  {
    var t := sig + "i";
    assert t[i] == sig[i];
    assert ReadFields(FieldAt(bs, mode), t, at, i + 1).None?;
    ReadFieldsPrefixFails(FieldAt(bs, mode), t, at, i + 1, if readDbid then |sig| + 1 else |sig|);
  }

  /** As written, a string whose bytes run short still reads: the signature
      "s" over a length of 3 followed by one byte gives a zero-filled string,
      where reading in full fails. */
  lemma {:induction false} ShortStringReadAsWritten()
    ensures DecodeRecordAsWritten("s", [0, 0, 0, 3, 97], 0, false) == Some(([Text([97, 0, 0])], 5))
    ensures DecodeRecord("s", [0, 0, 0, 3, 97], 0, false).None?
  {
    var bs: seq<Byte> := [0, 0, 0, 3, 97];
    assert bs[0..4] == [0, 0, 0, 3];
    assert Int32Of(bs[0..4]) == 3;
    assert bs[4..5] + seq(2, _ => 0) == [97, 0, 0];
    assert DecodeField('s', bs, 0, ReadAvailable) == Some((Text([97, 0, 0]), 5));
    assert DecodeField('s', bs, 0, ReadFully).None?;
    var t := "s" + "i";
    assert t[0] == 's';
    assert ReadFields(FieldAt(bs, ReadAvailable), t, 0, 0) == Some(([], 0));
    assert [] + [Text([97, 0, 0])] == [Text([97, 0, 0])];
  }
}
