/** Signatures, typed field values, and the conversion of text tokens into a
    record (Util.stringsToRecord), as specification functions. */
module Records {
  import opened Wrappers
  import opened Bytes
  import Numbers
  import Strings

  /** The signature characters the codec knows: `s` string, `i` int,
      `l` long, `f` float, `d` double. Any other character is an unknown tag. */
  predicate KnownTag(c: char) {
    c == 's' || c == 'i' || c == 'l' || c == 'f' || c == 'd'
  }

  /** One record element. Strings are held as their bytes; float and double
      fields as their raw IEEE-754 bit patterns. */
  datatype Value =
    | Text(bytes: JavaBytes)
    | I32(i: Int32)
    | I64(l: Int64)
    | F32(fbits: Word32)
    | F64(dbits: Word64)

  /** The signature character that names the Java class of `v`. */
  function TagChar(v: Value): (c: char)
    ensures KnownTag(c)
  {
    match v
    case Text(_) => 's'
    case I32(_) => 'i'
    case I64(_) => 'l'
    case F32(_) => 'f'
    case F64(_) => 'd'
  }

  /** The value is of the class the signature character `c` asks for. */
  predicate FieldMatches(c: char, v: Value) {
    c == TagChar(v)
  }

  /** A record of `sig` with its trailing dbid, the shape Util.recordToFile
      writes. */
  predicate Conforms(rec: seq<Value>, sig: string) {
    && |rec| == |sig| + 1
    && (forall i :: 0 <= i < |sig| ==> FieldMatches(sig[i], rec[i]))
    && rec[|sig|].I32?
  }

  /** Util.toFloat and Util.toDouble: decimal text to bit pattern, or null.
      Floating-point parsing is not modelled, so the parsers are parameters. */
  datatype FloatParsers = FloatParsers(
    toFloat: JavaBytes -> Option<Word32>,
    toDouble: JavaBytes -> Option<Word64>)

  /** One token converted as its signature character says, or null. */
  function ParseField(c: char, token: JavaBytes, fp: FloatParsers): (r: Option<Value>)
    ensures r.Some? ==> FieldMatches(c, r.value)
    ensures !KnownTag(c) ==> r.None?
    ensures c == 's' ==> r == Some(Text(token))
    ensures c == 'i' ==> (r.Some? <==> Numbers.ParseInt32(token).Some?)
    ensures c == 'i' && r.Some? ==> r.value.i == Numbers.ParseInt32(token).value
    ensures c == 'l' ==> (r.Some? <==> Numbers.ParseInt64(token).Some?)
    ensures c == 'l' && r.Some? ==> r.value.l == Numbers.ParseInt64(token).value
    ensures c == 'f' ==> (r.Some? <==> fp.toFloat(token).Some?)
    ensures c == 'f' && r.Some? ==> r.value.fbits == fp.toFloat(token).value
    ensures c == 'd' ==> (r.Some? <==> fp.toDouble(token).Some?)
    ensures c == 'd' && r.Some? ==> r.value.dbits == fp.toDouble(token).value
  {
    match c
    case 's' => Some(Text(token))
    case 'i' =>
      (match Numbers.ParseInt32(token) case Some(v) => Some(I32(v)) case None => None)
    case 'l' =>
      (match Numbers.ParseInt64(token) case Some(v) => Some(I64(v)) case None => None)
    case 'f' =>
      (match fp.toFloat(token) case Some(b) => Some(F32(b)) case None => None)
    case 'd' =>
      (match fp.toDouble(token) case Some(b) => Some(F64(b)) case None => None)
    case _ => None
  }

  /** Every token converted, or null as soon as one of them fails. */
  function ParseFields(fields: seq<JavaBytes>, sig: string, fp: FloatParsers): (r: Option<seq<Value>>)
    requires |fields| == |sig|
    ensures r.Some? <==> forall i :: 0 <= i < |sig| ==> ParseField(sig[i], fields[i], fp).Some?
    ensures r.Some? ==> |r.value| == |sig|
    ensures r.Some? ==> forall i :: 0 <= i < |sig| ==> r.value[i] == ParseField(sig[i], fields[i], fp).value
  {
    if |sig| == 0 then Some([])
    else
      match ParseField(sig[0], fields[0], fp)
      case None => None
      case Some(v) =>
        match ParseFields(fields[1..], sig[1..], fp)
        case None => None
        case Some(vs) => Some([v] + vs)
  }

  /** Util.stringsToRecord(fields, dbid, signature): `None` for `dbid`
      stands for Database.InvalidDBID. */
  function ParseRecord(fields: seq<JavaBytes>, dbid: Option<Int32>, sig: string, fp: FloatParsers): (r: Option<seq<Value>>)
    ensures r.Some? <==> |fields| == |sig| && forall i :: 0 <= i < |sig| ==> ParseField(sig[i], fields[i], fp).Some?
    ensures r.Some? ==> |r.value| == |sig| + (if dbid.Some? then 1 else 0)
    ensures r.Some? ==> forall i :: 0 <= i < |sig| ==> r.value[i] == ParseField(sig[i], fields[i], fp).value
    ensures r.Some? && dbid.Some? ==> r.value[|sig|] == I32(dbid.value)
  {
    if |fields| != |sig| then None
    else
      match ParseFields(fields, sig, fp)
      case None => None
      case Some(vs) => if dbid.Some? then Some(vs + [I32(dbid.value)]) else Some(vs)
  }

  /** str.split("\\s+") of a line: its tokens, separated by runs of white
      space. */
  function LineFields(line: JavaBytes): (fields: seq<JavaBytes>)
  {
    Strings.SplitOnRuns(line, Strings.IsSpaceByte)
  }

  /** Util.stringsToRecord(str, signature): the tokens of the line
      converted with no dbid. */
  function ParseLine(line: JavaBytes, sig: string, fp: FloatParsers): Option<seq<Value>> {
    ParseRecord(LineFields(line), None, sig, fp)
  }

  /** Tokens without white space written on a line, one space apart, read
      back as the record of those tokens. */
  lemma ParseLineJoined(tokens: seq<JavaBytes>, sig: string, fp: FloatParsers)
    requires |tokens| > 0 && forall i :: 0 <= i < |tokens| ==> tokens[i] != []
    requires forall i, j :: 0 <= i < |tokens| && 0 <= j < |tokens[i]| ==> !Strings.IsSpaceByte(tokens[i][j])
    requires |Strings.JoinWith(tokens, 32)| < 0x8000_0000
    ensures ParseLine(Strings.JoinWith(tokens, 32), sig, fp) == ParseRecord(tokens, None, sig, fp)
  {
    Strings.SplitOnRunsJoined(tokens, 32, Strings.IsSpaceByte);
  }

  /** A record built with a dbid has exactly the shape recordToFile accepts. */
  lemma ParsedRecordConforms(fields: seq<JavaBytes>, id: Int32, sig: string, fp: FloatParsers)
    requires ParseRecord(fields, Some(id), sig, fp).Some?
    ensures Conforms(ParseRecord(fields, Some(id), sig, fp).value, sig)
  {
  }
}
