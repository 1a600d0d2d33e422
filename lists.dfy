/** Util.machineList, Util.phaseListValue and Util.phaseListTimeValue: the
    parsers of comma-separated machine and phase lists. Each is a method
    with the loops of the source, proved against a specification function
    over the tokens of the list. */
module Lists {
  import opened Wrappers
  import opened Bytes
  import Numbers
  import opened Strings

  // ---------------------------------------------------------------------
  // Numbers in tokens

  /** s.matches("\\d+"): one or more ASCII digits (`\d` without
      UNICODE_CHARACTER_CLASS). */
  predicate Digits(s: string) {
    |s| > 0 && forall i :: 0 <= i < |s| ==> '0' <= s[i] <= '9'
  }

  /** new Integer(s), with `None` for the NumberFormatException. */
  function IntegerOf(s: string): Option<Int32> {
    Numbers.ParseInt32(Numbers.Codes(s))
  }

  /** The value of a run of digits, with leading zeros. */
  function DigitsNumber(s: string): nat
    requires Digits(s)
  {
    Numbers.DigitsValue(Numbers.Codes(s))
  }

  /** A run of digits converts exactly when its value fits in an `int`. */
  lemma {:induction false} IntegerOfDigits(s: string)
    requires Digits(s)
    ensures IntegerOf(s).Some? <==> DigitsNumber(s) <= Int32Max
    ensures IntegerOf(s).Some? ==> IntegerOf(s).value == DigitsNumber(s)
  {
    var cs := Numbers.Codes(s);
    assert Numbers.AllDigits(cs);
    assert cs[0] != Numbers.Plus && cs[0] != Numbers.Minus;
  }

  /** Integer.toString(n) for `n` not negative. */
  function Decimal(n: nat): (s: string)
    ensures Digits(s) && Numbers.Codes(s) == Numbers.DigitsOf(n)
  {
    var ds := Numbers.DigitsOf(n);
    var s := seq(|ds|, i requires 0 <= i < |ds| => (ds[i] as char));
    assert Numbers.Codes(s) == ds;
    s
  }

  lemma {:induction false} DecimalValue(n: nat)
    ensures DigitsNumber(Decimal(n)) == n
    ensures Numbers.Canonical(Numbers.Codes(Decimal(n)))
    ensures n <= Int32Max ==> IntegerOf(Decimal(n)) == Some(n)
    ensures n > Int32Max ==> IntegerOf(Decimal(n)).None?
  {
    Numbers.DigitsValueOf(n);
    Numbers.DigitsOfCanonical(n);
    IntegerOfDigits(Decimal(n));
  }

  /** Canonical digit strings, that is without leading zeros, that are
      different convert to different numbers. */
  lemma {:induction false} IntegerOfInjective(a: string, b: string)
    requires Numbers.Canonical(Numbers.Codes(a)) && Numbers.Canonical(Numbers.Codes(b)) && a != b
    requires IntegerOf(a).Some? && IntegerOf(b).Some?
    ensures IntegerOf(a).value != IntegerOf(b).value
  {
    assert Numbers.Codes(a) != Numbers.Codes(b) by {
      if |a| == |b| {
        var i :| 0 <= i < |a| && a[i] != b[i];
        assert Numbers.Codes(a)[i] != Numbers.Codes(b)[i];
      }
    }
    Numbers.CanonicalInjective(Numbers.Codes(a), Numbers.Codes(b));
  }

  /** A string of printable characters (none up to U+0020): cleaning its
      white space leaves it alone. */
  predicate Printable(s: string) {
    forall i :: 0 <= i < |s| ==> s[i] > ' '
  }

  lemma {:induction false} CleanPrintable(s: string)
    requires Printable(s)
    ensures CleanAllWhiteSpace(Some(s)) == Some(s)
  {
    TrimPadded("", s, "");
    assert "" + s + "" == s;
    RemoveSpacesNone(s);
  }

  // ---------------------------------------------------------------------
  // Util.machineList

  /** The `n` numbers from `b` on. */
  function Span(b: Int32, n: nat): (r: seq<Int32>)
    requires b + n <= Int32Max + 1
    ensures |r| == n && forall i :: 0 <= i < n ==> r[i] == b + i
  {
    seq(n, (i: int) requires 0 <= i < n => (b + i) as Int32)
  }

  /** The numbers from `b` to `e`, both included. */
  function Range(b: Int32, e: Int32): (r: seq<Int32>)
    ensures |r| == if b <= e then e - b + 1 else 0
    ensures forall i :: 0 <= i < |r| ==> r[i] == b + i
  {
    if b > e then [] else Span(b, e - b + 1)
  }

  /** The first and last number a machineList value stands for: a single
      number, or two numbers joined by '-'; null when the value has another
      form or a number does not fit in an `int`. */
  function Bounds(tok: string): Option<(Int32, Int32)> {
    if Digits(tok) then
      match IntegerOf(tok)
      case None => None
      case Some(b) => Some((b, b))
    else
      var k := IndexFrom(tok, '-', 0);
      if k < |tok| && Digits(tok[..k]) && Digits(tok[k + 1..]) then
        match (IntegerOf(tok[..k]), IntegerOf(tok[k + 1..]))
        case (Some(b), Some(e)) => Some((b, e))
        case _ => None
      else None
  }

  /** Reads the bounds of one value: `Bounds` itself, passed as a value
      so that proofs about the list do not unfold it for every value. */
  type BoundsReader = string -> Option<(Int32, Int32)>

  ghost predicate ReadsBounds(parse: BoundsReader) {
    forall t {:trigger Bounds(t)} :: parse(t) == Bounds(t)
  }

  /** The numbers machineList lists for the first `n` values, in order;
      null as soon as a value is malformed or runs backwards. */
  function Listed(parse: BoundsReader, values: seq<string>, n: nat): Option<seq<Int32>>
    requires n <= |values|
  {
    if n == 0 then Some([]) else AddValue(Listed(parse, values, n - 1), parse(values[n - 1]))
  }

  /** One step of the list: the numbers of one more value. */
  function AddValue(l: Option<seq<Int32>>, bounds: Option<(Int32, Int32)>): Option<seq<Int32>> {
    if l.None? || bounds.None? || bounds.value.0 > bounds.value.1 then None
    else Some(l.value + Range(bounds.value.0, bounds.value.1))
  }

  /** What Util.machineList returns: the numbers of the comma-separated
      values of the string, white space removed; null for null and when
      there are none. */
  function MachineListOf(strVal: Option<string>): Option<seq<Int32>> {
    if strVal.None? then None
    else
      var values := MachineValues(strVal.value);
      NullIfEmpty(Listed(Bounds, values, |values|))
  }

  /** The values of a machine list: its comma-separated parts once white
      space is removed. */
  function MachineValues(s: string): seq<string> {
    SplitOn(CleanAllWhiteSpace(Some(s)).value, IsComma)
  }

  /** An empty list becomes null. */
  function NullIfEmpty(l: Option<seq<Int32>>): (r: Option<seq<Int32>>)
    ensures r.Some? <==> l.Some? && l.value != []
    ensures r.Some? ==> r.value == l.value
  {
    if l.Some? && l.value != [] then l else None
  }

  /** Util.machineList. The inner loop counts with an unbounded `j`: as
      written, with an `int` counter, it does not stop at a range that ends
      at Int32Max (see AsWrittenRangeNeverStops). */
  method MachineList(strVal: Option<string>) returns (r: Option<array<Int32>>)
    ensures var m := MachineListOf(strVal);
            && (r.Some? <==> m.Some?)
            && (r.Some? ==> fresh(r.value) && r.value[..] == m.value)
  {
    var list: seq<Int32> := [];
    if strVal.Some? {
      var values := MachineValues(strVal.value);
      var l := ListValues(values, Bounds);
      if l.None? {
        return None;
      }
      list := l.value;
    }
    if |list| == 0 {
      return None;
    }
    var ret := ToArray(list);
    return Some(ret);
  }

  /** The last loop of machineList: the list's elements in a new array. */
  method ToArray(list: seq<Int32>) returns (ret: array<Int32>)
    ensures fresh(ret) && ret[..] == list
  {
    ret := new Int32[|list|];
    for i := 0 to |list|
      invariant ret[..i] == list[..i]
    {
      ret[i] := list[i];
    }
  }

  /** Once a value fails, the whole list does. */
  lemma {:induction false} ListedFails(parse: BoundsReader, values: seq<string>, i: nat, n: nat)
    requires i <= n <= |values| && Listed(parse, values, i).None?
    ensures Listed(parse, values, n).None?
    decreases n - i
  {
    if i < n {
      ListedFails(parse, values, i + 1, n);
    }
  }

  /** The loop of machineList over its values. */
  method ListValues(values: seq<string>, ghost parse: BoundsReader) returns (r: Option<seq<Int32>>)
    requires ReadsBounds(parse)
    ensures r == Listed(parse, values, |values|)
  {
    var list: seq<Int32> := [];
    for i := 0 to |values|
      invariant Listed(parse, values, i) == Some(list)
    {
      var bounds := ReadBounds(values[i], parse);
      if bounds.None? || bounds.value.0 > bounds.value.1 {
        ListedFails(parse, values, i + 1, |values|);
        return None;
      }
      var (b, e) := bounds.value;
      list := AddRange(list, b, e);
    }
    return Some(list);
  }

  /** The try block of machineList's loop: the bounds of one value. */
  method ReadBounds(tok: string, ghost parse: BoundsReader) returns (bounds: Option<(Int32, Int32)>)
    requires ReadsBounds(parse)
    ensures bounds == parse(tok)
  {
    bounds := Bounds(tok);
  }

  /** The inner loop of machineList: `list` followed by the numbers from
      `b` to `e`. */
  method AddRange(list: seq<Int32>, b: Int32, e: Int32) returns (r: seq<Int32>)
    requires b <= e
    ensures r == list + Range(b, e)
  {
    r := list;
    var j: int := b;
    while j <= e
      invariant b <= j <= e + 1
      invariant r == list + Span(b, j - b)
    {
      assert Span(b, j - b + 1) == Span(b, j - b) + [j as Int32];
      r := r + [j as Int32];
      j := j + 1;
    }
  }

  /** The iterations the inner loop of machineList makes as written, with
      `j` an `int` that wraps around, if it stops within `fuel` of them. */
  function AsWrittenRangeSteps(j: Int32, e: Int32, fuel: nat): Option<nat>
    decreases fuel
  {
    if !(j <= e) then Some(0)
    else if fuel == 0 then None
    else
      match AsWrittenRangeSteps(Wrap32(j + 1), e, fuel - 1)
      case None => None
      case Some(k) => Some(k + 1)
  }

  /** As written, the loop over a range ending below Int32Max makes one
      iteration per number... */
  lemma {:induction false} AsWrittenRangeStops(j: Int32, e: Int32, fuel: nat)
    requires j <= e + 1 && e < Int32Max && fuel >= e - j + 1
    ensures AsWrittenRangeSteps(j, e, fuel) == Some(e - j + 1)
    decreases fuel
  {
    if j <= e {
      AsWrittenRangeStops(j + 1, e, fuel - 1);
    }
  }

  /** ... but the loop over a range ending at Int32Max never stops: `j`
      wraps around to Int32Min instead of passing the end. */
  lemma {:induction false} AsWrittenRangeNeverStops(j: Int32, fuel: nat)
    ensures AsWrittenRangeSteps(j, Int32Max, fuel).None?
    decreases fuel
  {
    if fuel > 0 {
      AsWrittenRangeNeverStops(Wrap32(j + 1), fuel - 1);
    }
  }

  /** A single value lists the numbers it stands for. */
  lemma {:induction false} MachineListValue(s: string)
    requires Printable(s) && ',' !in s
    ensures MachineListOf(Some(s)) ==
              match Bounds(s)
              case None => None
              case Some((b, e)) => if b > e then None else Some(Range(b, e))
  {
    CleanPrintable(s);
    var values := MachineValues(s);
    assert values == [s];
    assert values[0] == s;
    match Bounds(s)
    case None =>
    case Some((b, e)) =>
      assert [] + Range(b, e) == Range(b, e);
      if b <= e {
        assert Listed(Bounds, values, 1) == Some(Range(b, e));
        assert Range(b, e) != [];
      }
  }

  /** A run of digits is one number. */
  lemma {:induction false} BoundsOfNumber(d: string)
    requires Digits(d)
    ensures Printable(d) && ',' !in d
    ensures Bounds(d) == match IntegerOf(d) case None => None case Some(b) => Some((b, b))
  {
  }

  /** A single number lists itself, leading zeros dropped, when it fits
      in an `int`, and makes the list null otherwise. */
  lemma {:induction false} MachineListSingle(d: string)
    requires Digits(d)
    ensures DigitsNumber(d) <= Int32Max ==> MachineListOf(Some(d)) == Some([DigitsNumber(d)])
    ensures DigitsNumber(d) > Int32Max ==> MachineListOf(Some(d)).None?
  {
    IntegerOfDigits(d);
    BoundsOfNumber(d);
    if DigitsNumber(d) <= Int32Max {
      var n: Int32 := DigitsNumber(d);
      MachineListBounds(d, n, n);
      RangeSingle(n);
    } else {
      MachineListMalformed(d);
    }
  }

  /** A single value with bounds lists its range. */
  lemma {:induction false} MachineListBounds(s: string, b: Int32, e: Int32)
    requires Printable(s) && ',' !in s
    requires Bounds(s) == Some((b, e)) && b <= e
    ensures MachineListOf(Some(s)) == Some(Range(b, e))
  {
    MachineListValue(s);
  }

  /** A single value without bounds makes the list null. */
  lemma {:induction false} MachineListMalformed(s: string)
    requires Printable(s) && ',' !in s && Bounds(s).None?
    ensures MachineListOf(Some(s)).None?
  {
    MachineListValue(s);
  }

  lemma {:induction false} RangeSingle(n: Int32)
    ensures Range(n, n) == [n]
  {
    assert |Range(n, n)| == 1 && Range(n, n)[0] == n;
  }

  /** "b-e" lists the numbers from b to e, and makes the list null when b
      is greater than e or either does not fit in an `int`. */
  lemma {:induction false} MachineListRange(db: string, de: string)
    requires Digits(db) && Digits(de)
    ensures var b, e := DigitsNumber(db), DigitsNumber(de);
            MachineListOf(Some(db + "-" + de)) ==
              if b <= e <= Int32Max then Some(Range(b, e)) else None
  {
    BoundsOfRange(db, de);
    IntegerOfDigits(db);
    IntegerOfDigits(de);
    MachineListValue(db + "-" + de);
  }

  lemma {:induction false} BoundsOfRange(db: string, de: string)
    requires Digits(db) && Digits(de)
    ensures Printable(db + "-" + de) && ',' !in db + "-" + de
    ensures Bounds(db + "-" + de) ==
              match (IntegerOf(db), IntegerOf(de))
              case (Some(b), Some(e)) => Some((b, e))
              case _ => None
  {
    var s := db + "-" + de;
    assert s[|db|] == '-';
    assert !Digits(s);
    assert IndexFrom(s, '-', 0) == |db|;
    assert s[..|db|] == db && s[|db| + 1..] == de;
  }

  /** Comma-joined values list their numbers one after the other. */
  lemma {:induction false} MachineListJoined(values: seq<string>)
    requires |values| > 0 && values[|values| - 1] != []
    requires forall i :: 0 <= i < |values| ==> Printable(values[i]) && ',' !in values[i]
    ensures MachineListOf(Some(JoinWith(values, ','))) == NullIfEmpty(Listed(Bounds, values, |values|))
  {
    var s := JoinWith(values, ',');
    JoinPrintable(values, ',');
    CleanPrintable(s);
    SplitOnJoined(values, ',', IsComma);
  }

  lemma {:induction false} JoinPrintable(values: seq<string>, sep: char)
    requires sep > ' '
    requires forall i :: 0 <= i < |values| ==> Printable(values[i])
    ensures Printable(JoinWith(values, sep))
  {
    if |values| > 1 {
      JoinPrintable(values[1..], sep);
    }
  }

  // ---------------------------------------------------------------------
  // Util.phaseListValue and Util.phaseListTimeValue

  /** How the zeros after 'p' are skipped. `AsWritten` is the source's
      do-while loop, which for an id of zeros only reads past the id: past
      the end of the token in phaseListValue (an exception), up to the '='
      in phaseListTimeValue (an empty id, which later fails to convert).
      `KeepDigit` keeps the last zero, as evidently intended. */
  datatype ZeroStrip = AsWritten | KeepDigit

  /** The first index from `from` on, before `end`, that does not hold
      '0', or `end`. */
  function SkipZeros(s: string, from: nat, end: nat): (k: nat)
    requires from <= end <= |s|
    ensures from <= k <= end
    ensures forall i :: from <= i < k ==> s[i] == '0'
    ensures k < end ==> s[k] != '0'
    decreases end - from
  {
    if from == end || s[from] != '0' then from else SkipZeros(s, from + 1, end)
  }

  /** Where the id of the digits `tok[1..end]` starts once the zeros are
      skipped; `None` where the source throws. */
  function IdStart(tok: string, end: nat, strip: ZeroStrip): (k: Option<nat>)
    requires 1 <= end <= |tok|
    ensures k.Some? ==> 1 <= k.value <= end
  {
    var k := SkipZeros(tok, 1, end);
    if k < end then Some(k)
    else if strip == KeepDigit && end > 1 then Some(end - 1)
    else if end == |tok| then None
    else Some(k)
  }

  /** A stripped id is the canonical form of the digits it was cut from. */
  lemma {:induction false} IdCanonical(tok: string, k: nat, end: nat)
    requires 1 <= k < end <= |tok| && Digits(tok[1..end])
    requires tok[k] != '0' || k == end - 1
    ensures Numbers.Canonical(Numbers.Codes(tok[k..end]))
    ensures Digits(tok[k..end])
  {
    forall i | 0 <= i < end - k
      ensures '0' <= tok[k..end][i] <= '9'
    {
      assert tok[k..end][i] == tok[1..end][k - 1 + i];
    }
  }

  /** tok.matches("p\\d+"). */
  predicate PhaseToken(tok: string) {
    |tok| > 1 && tok[0] == 'p' && Digits(tok[1..])
  }

  /** What phaseListValue makes of one token: null for a token of another
      form, an exception where the zeros of its id are skipped past its end,
      or its id, the digits after 'p' without their leading zeros. */
  function TokenId(tok: string, strip: ZeroStrip): (r: Outcome<string>)
    ensures r.Ok? ==> Numbers.Canonical(Numbers.Codes(r.value)) && Digits(r.value)
  {
    if !PhaseToken(tok) then Null
    else
      match IdStart(tok, |tok|, strip)
      case None => Thrown
      case Some(k) =>
        IdCanonical(tok, k, |tok|);
        assert tok[k..|tok|] == tok[k..];
        Ok(tok[k..])
  }

  /** The number a phase token names: the value of its digits. */
  function PhaseNumber(tok: string): nat
    requires PhaseToken(tok)
  {
    DigitsNumber(tok[1..])
  }

  /** Skipping zeros after the 'p' keeps the number the digits denote. */
  lemma {:induction false} ZerosKeepNumber(tok: string, k: nat, end: nat)
    requires 1 <= k < end <= |tok| && Digits(tok[1..end])
    requires forall i :: 1 <= i < k ==> tok[i] == '0'
    ensures Digits(tok[k..end]) && DigitsNumber(tok[k..end]) == DigitsNumber(tok[1..end])
    decreases k
  {
    DigitsFrom(tok, k, end);
    if k > 1 {
      ZerosKeepNumber(tok, k - 1, end);
      CodesAfterZero(tok, k, end);
      Numbers.LeadingZero(Numbers.Codes(tok[k..end]));
    }
  }

  /** The digits of a token from any index on are digits. */
  lemma {:induction false} DigitsFrom(tok: string, k: nat, end: nat)
    requires 1 <= k < end <= |tok| && Digits(tok[1..end])
    ensures Digits(tok[k..end])
  {
    forall i | 0 <= i < end - k
      ensures '0' <= tok[k..end][i] <= '9'
    {
      assert tok[k..end][i] == tok[1..end][k - 1 + i];
    }
  }

  /** The codes of a run that starts with a zero. */
  lemma {:induction false} CodesAfterZero(tok: string, k: nat, end: nat)
    requires 1 <= k < end <= |tok| && tok[k - 1] == '0'
    ensures Numbers.Codes(tok[k - 1..end]) == [Numbers.Zero] + Numbers.Codes(tok[k..end])
  {
    var a, b := tok[k..end], tok[k - 1..end];
    var ca := Numbers.Codes(a);
    forall i | 0 <= i < |b|
      ensures Numbers.Codes(b)[i] == ([Numbers.Zero] + ca)[i]
    {
      if i > 0 {
        assert b[i] == a[i - 1];
      }
    }
  }

  /** The id kept of a phase token denotes the token's number. Keeping a
      digit, every phase token has one; as written, a token whose number is
      0 throws instead. */
  lemma {:induction false} TokenIdNumber(tok: string, strip: ZeroStrip)
    requires PhaseToken(tok)
    ensures TokenId(tok, strip).Thrown? <==> strip == AsWritten && PhaseNumber(tok) == 0
    ensures TokenId(tok, strip).Ok? ==> DigitsNumber(TokenId(tok, strip).value) == PhaseNumber(tok)
  {
    var k := SkipZeros(tok, 1, |tok|);
    assert tok[1..|tok|] == tok[1..];
    if k < |tok| {
      ZerosKeepNumber(tok, k, |tok|);
      IdCanonical(tok, k, |tok|);
      assert tok[k..|tok|] == tok[k..];
      var ds := Numbers.Codes(tok[k..]);
      Numbers.PositiveAboveTen(ds);
      if |ds| == 1 {
        assert ds[..0] == [];
      }
    } else {
      ZerosKeepNumber(tok, |tok| - 1, |tok|);
      var ds := Numbers.Codes(tok[|tok| - 1..|tok|]);
      assert ds == [Numbers.Zero] && ds[..0] == [];
    }
  }

  /** Stands for `TokenId` in the specification functions, so that proofs
      about the loop over the tokens need not unfold it. */
  type IdReader = (string, ZeroStrip) -> Outcome<string>

  ghost predicate ReadsIds(idOf: IdReader) {
    forall t, strip {:trigger TokenId(t, strip)} :: idOf(t, strip) == TokenId(t, strip)
  }

  /** The ids phaseListValue collects from the first `n` tokens, or what
      stopped it. */
  function PhaseIds(idOf: IdReader, tokens: seq<string>, n: nat, strip: ZeroStrip): Outcome<set<string>>
    requires n <= |tokens|
  {
    if n == 0 then Ok({})
    else
      var prev := PhaseIds(idOf, tokens, n - 1, strip);
      if !prev.Ok? then prev
      else
        match idOf(tokens[n - 1], strip)
        case Null => Null
        case Thrown => Thrown
        case Ok(id) => Ok(prev.value + {id})
  }

  /** Each id collected is canonical: no two denote the same number. */
  lemma {:induction false} PhaseIdsCanonical(idOf: IdReader, tokens: seq<string>, n: nat, strip: ZeroStrip)
    requires n <= |tokens| && ReadsIds(idOf)
    ensures var r := PhaseIds(idOf, tokens, n, strip);
            r.Ok? ==> forall s :: s in r.value ==> Numbers.Canonical(Numbers.Codes(s))
  {
    if n > 0 {
      PhaseIdsCanonical(idOf, tokens, n - 1, strip);
      assert idOf(tokens[n - 1], strip) == TokenId(tokens[n - 1], strip);
    }
  }

  /** When every token has an id, the ids collected are exactly theirs. */
  lemma {:induction false} PhaseIdsAll(idOf: IdReader, tokens: seq<string>, n: nat, strip: ZeroStrip)
    requires n <= |tokens|
    requires forall i :: 0 <= i < n ==> idOf(tokens[i], strip).Ok?
    ensures var r := PhaseIds(idOf, tokens, n, strip);
            && r.Ok?
            && forall s :: s in r.value <==> exists i :: 0 <= i < n && idOf(tokens[i], strip) == Ok(s)
  {
    if n > 0 {
      PhaseIdsAll(idOf, tokens, n - 1, strip);
      var r := PhaseIds(idOf, tokens, n, strip);
      forall s | s in r.value
        ensures exists i :: 0 <= i < n && idOf(tokens[i], strip) == Ok(s)
      {
        if idOf(tokens[n - 1], strip) != Ok(s) {
          var i :| 0 <= i < n - 1 && idOf(tokens[i], strip) == Ok(s);
        }
      }
    }
  }

  /** When every token has an id that converts, each to its number in
      `nums`, the numbers collected are exactly those. */
  lemma PhaseNumbersAll(idOf: IdReader, toInt: IntReader, tokens: seq<string>, strip: ZeroStrip, nums: seq<Int32>)
    requires |tokens| == |nums|
    requires forall i :: 0 <= i < |tokens| ==>
               idOf(tokens[i], strip).Ok? && toInt(idOf(tokens[i], strip).value) == Some(nums[i])
    ensures var r := PhaseIds(idOf, tokens, |tokens|, strip);
            && r.Ok? && (|tokens| > 0 ==> |r.value| > 0)
            && PhaseNumbers(toInt, r.value) == Ok(Elements(nums))
  {
    PhaseIdsAll(idOf, tokens, |tokens|, strip);
    var ids := PhaseIds(idOf, tokens, |tokens|, strip).value;
    if |tokens| > 0 {
      assert idOf(tokens[0], strip).value in ids;
    }
    forall s | s in ids
      ensures toInt(s).Some? && toInt(s).value in Elements(nums)
    {
      var i :| 0 <= i < |tokens| && idOf(tokens[i], strip) == Ok(s);
      assert nums[i] in nums;
    }
    forall y | y in Elements(nums)
      ensures y in set s | s in ids :: toInt(s).value
    {
      var i :| 0 <= i < |nums| && nums[i] == y;
      assert idOf(tokens[i], strip).value in ids;
    }
    assert !exists s :: s in ids && toInt(s).None?;
    assert (set s | s in ids :: toInt(s).value) == Elements(nums);
  }

  /** A token that stops the collection stops it for good. */
  lemma {:induction false} PhaseIdsStop(idOf: IdReader, tokens: seq<string>, i: nat, n: nat, strip: ZeroStrip)
    requires i <= n <= |tokens| && !PhaseIds(idOf, tokens, i, strip).Ok?
    ensures PhaseIds(idOf, tokens, n, strip) == PhaseIds(idOf, tokens, i, strip)
    decreases n - i
  {
    if i < n {
      PhaseIdsStop(idOf, tokens, i + 1, n, strip);
    }
  }

  /** Stands for `IntegerOf` in the specification functions. */
  type IntReader = string -> Option<Int32>

  ghost predicate ReadsIntegers(toInt: IntReader) {
    forall s {:trigger IntegerOf(s)} :: toInt(s) == IntegerOf(s)
  }

  /** new Integer(id) for each id: an exception when one does not fit. */
  function PhaseNumbers(toInt: IntReader, ids: set<string>): Outcome<set<Int32>> {
    if exists s :: s in ids && toInt(s).None? then Thrown
    else Ok(set s | s in ids :: toInt(s).value)
  }

  /** What Util.phaseListValue returns: the set of phase numbers of the
      comma-separated tokens. A null string throws when it is split. */
  function PhaseListOf(strVal: Option<string>, strip: ZeroStrip): Outcome<set<Int32>> {
    if strVal.None? then Thrown
    else
      var tokens := SplitOn(strVal.value, IsComma);
      match PhaseIds(TokenId, tokens, |tokens|, strip)
      case Null => Null
      case Thrown => Thrown
      case Ok(ids) => if |ids| == 0 then Null else PhaseNumbers(IntegerOf, ids)
  }

  /** A phase token whose number fits gives an id that converts to it. */
  lemma TokenIdConverts(tok: string, strip: ZeroStrip)
    requires PhaseToken(tok) && PhaseNumber(tok) <= Int32Max
    requires strip == AsWritten ==> PhaseNumber(tok) != 0
    ensures TokenId(tok, strip).Ok? && IntegerOf(TokenId(tok, strip).value) == Some(PhaseNumber(tok) as Int32)
  {
    TokenIdNumber(tok, strip);
    IntegerOfDigits(TokenId(tok, strip).value);
  }

  /** Phase tokens joined with commas split back into the same tokens. */
  lemma PhaseTokensSplit(tokens: seq<string>)
    requires |tokens| > 0 && forall i :: 0 <= i < |tokens| ==> PhaseToken(tokens[i])
    ensures SplitOn(JoinWith(tokens, ','), IsComma) == tokens
  {
    forall i | 0 <= i < |tokens|
      ensures ',' !in tokens[i]
    {
      PhaseNoComma(tokens[i]);
    }
    SplitOnJoined(tokens, ',', IsComma);
  }

  lemma PhaseNoComma(tok: string)
    requires PhaseToken(tok)
    ensures ',' !in tok
  {
    forall j | 1 <= j < |tok|
      ensures tok[j] != ','
    {
      assert tok[j] == tok[1..][j - 1];
    }
  }

  /** Phase tokens joined with commas read as the set of their numbers,
      when all of them fit in an `int` and, as written, none is 0. */
  lemma {:induction false} PhaseListJoined(tokens: seq<string>, strip: ZeroStrip)
    requires |tokens| > 0
    requires forall i :: 0 <= i < |tokens| ==> PhaseToken(tokens[i]) && PhaseNumber(tokens[i]) <= Int32Max
    requires strip == AsWritten ==> forall i :: 0 <= i < |tokens| ==> PhaseNumber(tokens[i]) != 0
    ensures PhaseListOf(Some(JoinWith(tokens, ',')), strip)
            == Ok(set i | 0 <= i < |tokens| :: PhaseNumber(tokens[i]) as Int32)
  {
    PhaseTokensSplit(tokens);
    forall i | 0 <= i < |tokens|
      ensures TokenId(tokens[i], strip).Ok?
      ensures IntegerOf(TokenId(tokens[i], strip).value) == Some(PhaseNumber(tokens[i]) as Int32)
    {
      TokenIdConverts(tokens[i], strip);
    }
    var nums := PhaseNumberSeq(tokens);
    PhaseNumbersAll(TokenId, IntegerOf, tokens, strip, nums);
  }

  /** The numbers of phase tokens that fit in an `int`, in order. */
  function PhaseNumberSeq(tokens: seq<string>): (nums: seq<Int32>)
    requires forall i :: 0 <= i < |tokens| ==> PhaseToken(tokens[i]) && PhaseNumber(tokens[i]) <= Int32Max
    ensures |nums| == |tokens| && forall i :: 0 <= i < |tokens| ==> nums[i] == PhaseNumber(tokens[i])
    ensures Elements(nums) == set i | 0 <= i < |tokens| :: PhaseNumber(tokens[i]) as Int32
  {
    var nums := seq(|tokens|, i requires 0 <= i < |tokens| => PhaseNumber(tokens[i]) as Int32);
    assert Elements(nums) == set i | 0 <= i < |tokens| :: PhaseNumber(tokens[i]) as Int32 by {
      forall y | y in Elements(nums)
        ensures y in set i | 0 <= i < |tokens| :: PhaseNumber(tokens[i]) as Int32
      {
        var i :| 0 <= i < |nums| && nums[i] == y;
      }
      forall i | 0 <= i < |tokens|
        ensures PhaseNumber(tokens[i]) as Int32 in Elements(nums)
      {
        assert nums[i] in nums;
      }
    }
    nums
  }

  /** The id "p0": as written the zeros are skipped past the end of the
      token and the call throws; keeping the last digit gives phase 0. */
  lemma ZeroPhase()
    ensures PhaseListOf(Some("p0"), AsWritten) == Thrown
    ensures PhaseListOf(Some("p0"), KeepDigit) == Ok({0})
  {
    assert PhaseToken("p0") by {
      assert "p0"[1..] == "0";
    }
    assert PhaseNumber("p0") == 0 by {
      assert Numbers.Codes("p0"[1..]) == [Numbers.Zero];
      assert Numbers.Codes("p0"[1..])[..0] == [];
    }
    TokenIdNumber("p0", AsWritten);
    assert JoinWith(["p0"], ',') == "p0";
    SplitOnJoined(["p0"], ',', IsComma);
    PhaseListJoined(["p0"], KeepDigit);
    assert (set i | 0 <= i < 1 :: PhaseNumber(["p0"][i]) as Int32) == {0};
  }

  function Elements<T>(s: seq<T>): set<T> {
    set x | x in s
  }

  predicate Distinct<T(==)>(s: seq<T>) {
    forall i, j :: 0 <= i < j < |s| ==> s[i] != s[j]
  }

  /** Util.phaseListValue. The result has each number once, in the
      unspecified order of the HashSet's iterator. */
  method PhaseListValue(strVal: Option<string>, strip: ZeroStrip) returns (r: Outcome<array<Int32>>)
    ensures var p := PhaseListOf(strVal, strip);
            && (r.Null? <==> p.Null?)
            && (r.Thrown? <==> p.Thrown?)
            && (r.Ok? ==> fresh(r.value) && Distinct(r.value[..]) && Elements(r.value[..]) == p.value)
  {
    if strVal.None? {
      return Thrown;
    }
    var tokens := SplitOn(strVal.value, IsComma);
    var ids := CollectIds(tokens, strip, TokenId);
    if !ids.Ok? {
      return if ids.Null? then Null else Thrown;
    }
    if |ids.value| == 0 {
      return Null;
    }
    PhaseIdsCanonical(TokenId, tokens, |tokens|, strip);
    r := ConvertIds(ids.value, IntegerOf);
  }

  /** The loop of phaseListValue over the tokens. */
  method CollectIds(tokens: seq<string>, strip: ZeroStrip, ghost idOf: IdReader) returns (r: Outcome<set<string>>)
    requires ReadsIds(idOf)
    ensures r == PhaseIds(idOf, tokens, |tokens|, strip)
  {
    var phases: set<string> := {};
    for i := 0 to |tokens|
      invariant PhaseIds(idOf, tokens, i, strip) == Ok(phases)
    {
      var id := ReadPhaseId(tokens[i], strip, idOf);
      if !id.Ok? {
        PhaseIdsStop(idOf, tokens, i + 1, |tokens|, strip);
        return if id.Null? then Null else Thrown;
      }
      phases := phases + {id.value};
    }
    return Ok(phases);
  }

  /** One token of phaseListValue: its form checked, then the 'p' and the
      zeros after it skipped by the source's do-while loop. */
  method ReadPhaseId(tok: string, strip: ZeroStrip, ghost idOf: IdReader) returns (r: Outcome<string>)
    requires ReadsIds(idOf)
    ensures r == idOf(tok, strip)
  {
    assert idOf(tok, strip) == TokenId(tok, strip);
    if !PhaseToken(tok) {
      return Null;
    }
    var idx := SkipPhaseZeros(tok, |tok|);
    if idx == |tok| {
      if strip == AsWritten {
        return Thrown;
      }
      idx := idx - 1;
    }
    return Ok(tok[idx..]);
  }

  /** The do-while loop of the phase parsers: from the 'p' at index 0, the
      index after it and the zeros that follow, before `end`. */
  method SkipPhaseZeros(tok: string, end: nat) returns (idx: nat)
    requires 1 <= end <= |tok|
    ensures idx == SkipZeros(tok, 1, end)
  {
    idx := 0;
    idx := idx + 1;
    while idx < end && tok[idx] == '0'
      invariant 1 <= idx <= end
      invariant SkipZeros(tok, idx, end) == SkipZeros(tok, 1, end)
    {
      idx := idx + 1;
    }
  }

  /** new Integer(s), as the methods call it. */
  method ReadInteger(s: string, ghost toInt: IntReader) returns (v: Option<Int32>)
    requires ReadsIntegers(toInt)
    ensures v == toInt(s)
  {
    assert toInt(s) == IntegerOf(s);
    v := IntegerOf(s);
  }

  /** The last loop of phaseListValue: each id of the set converted by
      new Integer, in the order of the set's iterator. */
  method ConvertIds(ids: set<string>, ghost toInt: IntReader) returns (r: Outcome<array<Int32>>)
    requires ReadsIntegers(toInt)
    requires forall s :: s in ids ==> Numbers.Canonical(Numbers.Codes(s))
    ensures var p := PhaseNumbers(toInt, ids);
            && (r.Null? <==> p.Null?)
            && (r.Thrown? <==> p.Thrown?)
            && (r.Ok? ==> fresh(r.value) && Distinct(r.value[..]) && Elements(r.value[..]) == p.value)
  {
    var ret := new Int32[|ids|];
    var rest := ids;
    var i := 0;
    ghost var order: seq<string> := [];
    while rest != {}
      invariant rest <= ids && i + |rest| == |ids| && |order| == i
      invariant forall s :: s in ids ==> (s in rest <==> s !in order)
      invariant forall t :: 0 <= t < i ==> order[t] in ids
      invariant Distinct(order)
      invariant forall t :: 0 <= t < i ==> toInt(order[t]).Some? && ret[t] == toInt(order[t]).value
      decreases |rest|
    {
      var x :| x in rest;
      var v := ReadInteger(x, toInt);
      if v.None? {
        return Thrown;
      }
      ret[i] := v.value;
      order := order + [x];
      rest := rest - {x};
      i := i + 1;
    }
    ConvertedIds(ids, toInt, order, ret[..]);
    return Ok(ret);
  }

  /** The facts ConvertIds ends with, for the ids in the order converted. */
  lemma ConvertedIds(ids: set<string>, toInt: IntReader, order: seq<string>, vals: seq<Int32>)
    requires ReadsIntegers(toInt)
    requires forall s :: s in ids ==> Numbers.Canonical(Numbers.Codes(s))
    requires |order| == |vals| && Distinct(order)
    requires forall s :: s in ids <==> s in order
    requires forall t :: 0 <= t < |order| ==> toInt(order[t]).Some? && vals[t] == toInt(order[t]).value
    ensures PhaseNumbers(toInt, ids).Ok?
    ensures Distinct(vals) && Elements(vals) == PhaseNumbers(toInt, ids).value
  {
    forall t, u | 0 <= t < u < |vals|
      ensures vals[t] != vals[u]
    {
      assert toInt(order[t]) == IntegerOf(order[t]) && toInt(order[u]) == IntegerOf(order[u]);
      IntegerOfInjective(order[t], order[u]);
    }
    forall y | y in PhaseNumbers(toInt, ids).value
      ensures y in Elements(vals)
    {
      var s :| s in ids && toInt(s).value == y;
      var t :| 0 <= t < |order| && order[t] == s;
    }
  }

  // ---------------------------------------------------------------------
  // Util.phaseListTimeValue

  /** The characters of a phase time: [\\d.]+. */
  predicate TimeText(s: string) {
    |s| > 0 && forall i :: 0 <= i < |s| ==> '0' <= s[i] <= '9' || s[i] == '.'
  }

  /** tok.matches("p\\d+=[\\d.]+"), with the first '=' of the token as
      the boundary between its id and its time. */
  predicate TimeToken(tok: string) {
    var e := IndexFrom(tok, '=', 0);
    && 1 <= e < |tok| && tok[0] == 'p' && Digits(tok[1..e]) && TimeText(tok[e + 1..])
  }

  /** The number a time token names: the value of its digits. */
  function TimeNumber(tok: string): nat
    requires TimeToken(tok)
  {
    DigitsNumber(tok[1..IndexFrom(tok, '=', 0)])
  }

  /** new Double(text): the bits of the double the text denotes, or `None`
      for a NumberFormatException. Floating point is not modelled. */
  type DoubleParser = string -> Option<Word64>

  /** What phaseListTimeValue makes of one token: null for a token of
      another form, an exception when its time does not convert, or its id
      and time. As written, an id of zeros is empty. */
  function TokenTime(tok: string, strip: ZeroStrip, parseDouble: DoubleParser): (r: Outcome<(string, Word64)>)
    ensures r.Ok? ==> r.value.0 == [] || Numbers.Canonical(Numbers.Codes(r.value.0))
    ensures r.Ok? && strip == KeepDigit ==> Numbers.Canonical(Numbers.Codes(r.value.0))
  {
    if !TimeToken(tok) then Null
    else
      var e := IndexFrom(tok, '=', 0);
      var k := IdStart(tok, e, strip).value;
      assert k < e ==> Numbers.Canonical(Numbers.Codes(tok[k..e])) by {
        if k < e {
          IdCanonical(tok, k, e);
        }
      }
      match parseDouble(tok[e + 1..])
      case None => Thrown
      case Some(t) => Ok((tok[k..e], t))
  }

  /** Stands for `TokenTime` in the specification functions. */
  type TimeReader = (string, ZeroStrip, DoubleParser) -> Outcome<(string, Word64)>

  ghost predicate ReadsTimes(timeOf: TimeReader) {
    forall t, strip, pd {:trigger TokenTime(t, strip, pd)} :: timeOf(t, strip, pd) == TokenTime(t, strip, pd)
  }

  /** The map phaseListTimeValue builds from the first `n` tokens, a later
      time for an id replacing an earlier one; or what stopped it. */
  function PhaseTimes(timeOf: TimeReader, tokens: seq<string>, n: nat, strip: ZeroStrip, pd: DoubleParser)
    : Outcome<map<string, Word64>>
    requires n <= |tokens|
  {
    if n == 0 then Ok(map[])
    else
      var prev := PhaseTimes(timeOf, tokens, n - 1, strip, pd);
      if !prev.Ok? then prev
      else
        match timeOf(tokens[n - 1], strip, pd)
        case Null => Null
        case Thrown => Thrown
        case Ok(entry) => Ok(prev.value[entry.0 := entry.1])
  }

  /** Each id in the map is empty or canonical; keeping a digit, none is
      empty. */
  lemma {:induction false} PhaseTimesKeys(timeOf: TimeReader, tokens: seq<string>, n: nat, strip: ZeroStrip,
                                          pd: DoubleParser)
    requires n <= |tokens| && ReadsTimes(timeOf)
    ensures var r := PhaseTimes(timeOf, tokens, n, strip, pd);
            r.Ok? ==> forall s :: s in r.value ==> TimeKey(s, strip)
  {
    if n > 0 {
      PhaseTimesKeys(timeOf, tokens, n - 1, strip, pd);
      assert timeOf(tokens[n - 1], strip, pd) == TokenTime(tokens[n - 1], strip, pd);
    }
  }

  /** An id the time parser can put in its map. */
  predicate TimeKey(s: string, strip: ZeroStrip) {
    (strip == AsWritten && s == []) || Numbers.Canonical(Numbers.Codes(s))
  }

  lemma {:induction false} PhaseTimesStop(timeOf: TimeReader, tokens: seq<string>, i: nat, n: nat,
                                          strip: ZeroStrip, pd: DoubleParser)
    requires i <= n <= |tokens| && !PhaseTimes(timeOf, tokens, i, strip, pd).Ok?
    ensures PhaseTimes(timeOf, tokens, n, strip, pd) == PhaseTimes(timeOf, tokens, i, strip, pd)
    decreases n - i
  {
    if i < n {
      PhaseTimesStop(timeOf, tokens, i + 1, n, strip, pd);
    }
  }

  /** Different ids of the map that both convert denote different numbers. */
  lemma NumberedInjective(toInt: IntReader, m: map<string, Word64>, strip: ZeroStrip)
    requires ReadsIntegers(toInt) && forall s :: s in m ==> TimeKey(s, strip)
    ensures forall a, b :: a in m && b in m && a != b && toInt(a).Some? && toInt(b).Some? ==>
              toInt(a).value != toInt(b).value
  {
    forall a, b | a in m && b in m && a != b && toInt(a).Some? && toInt(b).Some?
      ensures toInt(a).value != toInt(b).value
    {
      assert toInt(a) == IntegerOf(a) && toInt(b) == IntegerOf(b);
      assert Numbers.Codes([]) == [];
      IntegerOfInjective(a, b);
    }
  }

  /** new Integer(id) for each id of the map: an exception when one does not
      convert. */
  function NumberedTimes(toInt: IntReader, m: map<string, Word64>, strip: ZeroStrip): Outcome<map<Int32, Word64>>
    requires ReadsIntegers(toInt) && forall s :: s in m ==> TimeKey(s, strip)
  {
    if exists s :: s in m && toInt(s).None? then Thrown
    else
      NumberedInjective(toInt, m, strip);
      Ok(map s | s in m :: toInt(s).value := m[s])
  }

  /** What Util.phaseListTimeValue returns: the time of each phase number
      of the comma-separated tokens. A null string throws when it is
      split. */
  function PhaseTimeListOf(strVal: Option<string>, strip: ZeroStrip, pd: DoubleParser): Outcome<map<Int32, Word64>> {
    if strVal.None? then Thrown
    else
      var tokens := SplitOn(strVal.value, IsComma);
      // the ids of the map are keys NumberedTimes can convert one to one
      PhaseTimesKeys(TokenTime, tokens, |tokens|, strip, pd);
      match PhaseTimes(TokenTime, tokens, |tokens|, strip, pd)
      case Null => Null
      case Thrown => Thrown
      case Ok(m) => if |m| == 0 then Null else NumberedTimes(IntegerOf, m, strip)
  }

  /** An element of the Object[] phaseListTimeValue returns. */
  datatype PhaseEntry = PhaseId(id: Int32) | PhaseTime(bits: Word64)

  /** The id of the `t`-th pair of a flat id/time array. */
  function IdAt(es: seq<PhaseEntry>, t: nat): PhaseEntry
    requires 2 * t + 1 < |es|
  {
    es[2 * t]
  }

  /** The time of the `t`-th pair of a flat id/time array. */
  function TimeAt(es: seq<PhaseEntry>, t: nat): PhaseEntry
    requires 2 * t + 1 < |es|
  {
    es[2 * t + 1]
  }

  /** `es` lays out `m` as phaseListTimeValue does: pairs of an id and its
      time, each id of `m` in exactly one pair. */
  predicate Laid(es: seq<PhaseEntry>, m: map<Int32, Word64>) {
    && |es| % 2 == 0
    && (forall t :: 0 <= t < |es| / 2 ==>
          IdAt(es, t).PhaseId? && IdAt(es, t).id in m && TimeAt(es, t) == PhaseTime(m[IdAt(es, t).id]))
    && (forall t, u :: 0 <= t < u < |es| / 2 ==> IdAt(es, t) != IdAt(es, u))
    && (forall k :: k in m ==> exists t :: 0 <= t < |es| / 2 && IdAt(es, t) == PhaseId(k))
  }

  /** Util.phaseListTimeValue. The pairs are in the unspecified order of the
      HashMap's key iterator. */
  method PhaseListTimeValue(strVal: Option<string>, strip: ZeroStrip, parseDouble: DoubleParser)
    returns (r: Outcome<array<PhaseEntry>>)
    ensures var p := PhaseTimeListOf(strVal, strip, parseDouble);
            && (r.Null? <==> p.Null?)
            && (r.Thrown? <==> p.Thrown?)
            && (r.Ok? ==> fresh(r.value) && Laid(r.value[..], p.value))
  {
    if strVal.None? {
      return Thrown;
    }
    var tokens := SplitOn(strVal.value, IsComma);
    var phases := CollectTimes(tokens, strip, parseDouble, TokenTime);
    if !phases.Ok? {
      return if phases.Null? then Null else Thrown;
    }
    if |phases.value| == 0 {
      return Null;
    }
    PhaseTimesKeys(TokenTime, tokens, |tokens|, strip, parseDouble);
    r := ConvertTimes(phases.value, strip, IntegerOf);
  }

  /** The loop of phaseListTimeValue over the tokens. */
  method CollectTimes(tokens: seq<string>, strip: ZeroStrip, parseDouble: DoubleParser, ghost timeOf: TimeReader)
    returns (r: Outcome<map<string, Word64>>)
    requires ReadsTimes(timeOf)
    ensures r == PhaseTimes(timeOf, tokens, |tokens|, strip, parseDouble)
  {
    var phases: map<string, Word64> := map[];
    for i := 0 to |tokens|
      invariant PhaseTimes(timeOf, tokens, i, strip, parseDouble) == Ok(phases)
    {
      var entry := ReadPhaseTime(tokens[i], strip, parseDouble, timeOf);
      if !entry.Ok? {
        PhaseTimesStop(timeOf, tokens, i + 1, |tokens|, strip, parseDouble);
        return if entry.Null? then Null else Thrown;
      }
      phases := phases[entry.value.0 := entry.value.1];
    }
    return Ok(phases);
  }

  /** One token of phaseListTimeValue: its form checked, the zeros after
      the 'p' skipped up to the '=', then its time converted. */
  method ReadPhaseTime(tok: string, strip: ZeroStrip, parseDouble: DoubleParser, ghost timeOf: TimeReader)
    returns (r: Outcome<(string, Word64)>)
    requires ReadsTimes(timeOf)
    ensures r == timeOf(tok, strip, parseDouble)
  {
    assert timeOf(tok, strip, parseDouble) == TokenTime(tok, strip, parseDouble);
    if !TimeToken(tok) {
      return Null;
    }
    var idx2 := IndexFrom(tok, '=', 0);
    var idx1 := SkipPhaseZeros(tok, idx2);
    if idx1 == idx2 && strip == KeepDigit {
      idx1 := idx2 - 1;
    }
    var time := parseDouble(tok[idx2 + 1..]);
    if time.None? {
      return Thrown;
    }
    return Ok((tok[idx1..idx2], time.value));
  }

  /** The last loop of phaseListTimeValue: for each id of the map, in the
      order of its key iterator, the id converted by new Integer and then
      its time. */
  method ConvertTimes(phases: map<string, Word64>, strip: ZeroStrip, ghost toInt: IntReader)
    returns (r: Outcome<array<PhaseEntry>>)
    requires ReadsIntegers(toInt) && forall s :: s in phases ==> TimeKey(s, strip)
    ensures var p := NumberedTimes(toInt, phases, strip);
            && !r.Null?
            && (r.Thrown? <==> p.Thrown?)
            && (r.Ok? ==> fresh(r.value) && Laid(r.value[..], p.value))
  {
    var keys := Iterate(phases.Keys);
    var ret := LayTimes(keys, phases, toInt);
    if ret.None? {
      return Thrown;
    }
    ConvertedTimes(phases, strip, toInt, keys, ret.value[..]);
    return Ok(ret.value);
  }

  /** The loop of ConvertTimes over the keys in iteration order: `ret` gets
      the id of each key, converted by new Integer, and then its time,
      until a key does not convert. */
  method LayTimes(keys: seq<string>, phases: map<string, Word64>, ghost toInt: IntReader)
    returns (r: Option<array<PhaseEntry>>)
    requires ReadsIntegers(toInt) && forall t :: 0 <= t < |keys| ==> keys[t] in phases
    ensures r.None? <==> exists t :: 0 <= t < |keys| && toInt(keys[t]).None?
    ensures r.Some? ==>
              && fresh(r.value) && r.value.Length == 2 * |keys|
              && forall t :: 0 <= t < |keys| ==>
                   && toInt(keys[t]).Some?
                   && r.value[2 * t] == PhaseId(toInt(keys[t]).value)
                   && r.value[2 * t + 1] == PhaseTime(phases[keys[t]])
  {
    var ret := new PhaseEntry[|keys| * 2](_ => PhaseId(0));
    var i := 0;
    for t := 0 to |keys|
      invariant i == 2 * t
      invariant forall u :: 0 <= u < t ==>
                  && toInt(keys[u]).Some?
                  && ret[2 * u] == PhaseId(toInt(keys[u]).value)
                  && ret[2 * u + 1] == PhaseTime(phases[keys[u]])
    {
      var phaseId := keys[t];
      var v := ReadInteger(phaseId, toInt);
      if v.None? {
        return None;
      }
      i := StorePair(ret, i, PhaseId(v.value), PhaseTime(phases[phaseId]));
    }
    return Some(ret);
  }

  /** The order in which an iterator over `s` visits its elements: each of
      them once. */
  method Iterate<T>(s: set<T>) returns (order: seq<T>)
    ensures Distinct(order) && |order| == |s|
    ensures forall t :: 0 <= t < |order| ==> order[t] in s
    ensures forall x :: x in s ==> x in order
  {
    var rest := s;
    order := [];
    while rest != {}
      invariant rest <= s && |order| + |rest| == |s|
      invariant forall x :: x in s ==> (x in rest <==> x !in order)
      invariant forall t :: 0 <= t < |order| ==> order[t] in s
      invariant Distinct(order)
      decreases |rest|
    {
      var x :| x in rest;
      order := order + [x];
      rest := rest - {x};
    }
  }

  /** `retValue[i++] = id; retValue[i++] = time;` */
  method StorePair(ret: array<PhaseEntry>, i: nat, id: PhaseEntry, time: PhaseEntry) returns (next: nat)
    requires i % 2 == 0 && i + 1 < ret.Length
    modifies ret
    ensures next == i + 2 && ret[i] == id && ret[i + 1] == time
    ensures forall u :: 0 <= u < i / 2 ==> ret[2 * u] == old(ret[2 * u]) && ret[2 * u + 1] == old(ret[2 * u + 1])
  {
    next := i;
    ret[next] := id;
    next := next + 1;
    ret[next] := time;
    next := next + 1;
  }

  /** The facts ConvertTimes ends with, for the ids in the order converted. */
  lemma ConvertedTimes(phases: map<string, Word64>, strip: ZeroStrip, toInt: IntReader,
                       order: seq<string>, es: seq<PhaseEntry>)
    requires ReadsIntegers(toInt) && forall s :: s in phases ==> TimeKey(s, strip)
    requires |es| == 2 * |order| && Distinct(order)
    requires forall s :: s in phases <==> s in order
    requires forall t :: 0 <= t < |order| ==>
               && toInt(order[t]).Some?
               && es[2 * t] == PhaseId(toInt(order[t]).value)
               && es[2 * t + 1] == PhaseTime(phases[order[t]])
    ensures NumberedTimes(toInt, phases, strip).Ok?
    ensures Laid(es, NumberedTimes(toInt, phases, strip).value)
  {
    NumberedInjective(toInt, phases, strip);
    forall s | s in phases
      ensures toInt(s).Some?
    {
      var t :| 0 <= t < |order| && order[t] == s;
    }
    var m := NumberedTimes(toInt, phases, strip).value;
    forall t | 0 <= t < |es| / 2
      ensures IdAt(es, t).PhaseId? && IdAt(es, t).id in m && TimeAt(es, t) == PhaseTime(m[IdAt(es, t).id])
    {
      assert order[t] in phases;
    }
    forall t, u | 0 <= t < u < |es| / 2
      ensures IdAt(es, t) != IdAt(es, u)
    {
      assert order[t] in phases && order[u] in phases;
    }
    forall k | k in m
      ensures exists t :: 0 <= t < |es| / 2 && IdAt(es, t) == PhaseId(k)
    {
      var s :| s in phases && toInt(s).value == k;
      var t :| 0 <= t < |order| && order[t] == s;
      assert IdAt(es, t) == PhaseId(k);
    }
  }

  /** The entry the `i`-th token puts in the map. */
  function EntryAt(timeOf: TimeReader, tokens: seq<string>, i: nat, strip: ZeroStrip, pd: DoubleParser)
    : (string, Word64)
    requires i < |tokens| && timeOf(tokens[i], strip, pd).Ok?
  {
    timeOf(tokens[i], strip, pd).value
  }

  /** Every one of the first `n` tokens has an entry. */
  predicate AllEntries(timeOf: TimeReader, tokens: seq<string>, n: nat, strip: ZeroStrip, pd: DoubleParser)
    requires n <= |tokens|
  {
    forall i :: 0 <= i < n ==> timeOf(tokens[i], strip, pd).Ok?
  }

  /** No token after the `i`-th, before the `n`-th, has the same id. */
  predicate LastEntry(timeOf: TimeReader, tokens: seq<string>, i: nat, n: nat, strip: ZeroStrip, pd: DoubleParser)
    requires i < n <= |tokens| && AllEntries(timeOf, tokens, n, strip, pd)
  {
    forall j :: i < j < n ==> EntryAt(timeOf, tokens, j, strip, pd).0 != EntryAt(timeOf, tokens, i, strip, pd).0
  }

  /** When every token has an entry, the map holds the ids of the tokens
      and no other. */
  lemma {:induction false} PhaseTimesIds(timeOf: TimeReader, tokens: seq<string>, n: nat, strip: ZeroStrip,
                                         pd: DoubleParser)
    requires n <= |tokens| && AllEntries(timeOf, tokens, n, strip, pd)
    ensures var r := PhaseTimes(timeOf, tokens, n, strip, pd);
            && r.Ok?
            && forall s :: s in r.value <==> exists i :: 0 <= i < n && EntryAt(timeOf, tokens, i, strip, pd).0 == s
  {
    if n > 0 {
      PhaseTimesIds(timeOf, tokens, n - 1, strip, pd);
      var m := PhaseTimes(timeOf, tokens, n, strip, pd).value;
      var last := EntryAt(timeOf, tokens, n - 1, strip, pd);
      forall s | s in m
        ensures exists i :: 0 <= i < n && EntryAt(timeOf, tokens, i, strip, pd).0 == s
      {
        if s != last.0 {
          var i :| 0 <= i < n - 1 && EntryAt(timeOf, tokens, i, strip, pd).0 == s;
        }
      }
    }
  }

  /** A later time for an id replaces an earlier one: the time of an id is
      that of the last token with that id. */
  lemma {:induction false} PhaseTimesLast(timeOf: TimeReader, tokens: seq<string>, n: nat, strip: ZeroStrip,
                                          pd: DoubleParser)
    requires n <= |tokens| && AllEntries(timeOf, tokens, n, strip, pd)
    ensures var r := PhaseTimes(timeOf, tokens, n, strip, pd);
            && r.Ok?
            && forall i :: 0 <= i < n && LastEntry(timeOf, tokens, i, n, strip, pd) ==>
                 && EntryAt(timeOf, tokens, i, strip, pd).0 in r.value
                 && r.value[EntryAt(timeOf, tokens, i, strip, pd).0] == EntryAt(timeOf, tokens, i, strip, pd).1
  {
    if n > 0 {
      PhaseTimesLast(timeOf, tokens, n - 1, strip, pd);
      var last := EntryAt(timeOf, tokens, n - 1, strip, pd);
      forall i | 0 <= i < n - 1 && LastEntry(timeOf, tokens, i, n, strip, pd)
        ensures LastEntry(timeOf, tokens, i, n - 1, strip, pd)
        ensures EntryAt(timeOf, tokens, i, strip, pd).0 != last.0
      {
      }
    }
  }

  /** The ids of the map, converted, are the keys of the result, each with
      its time. */
  lemma NumberedTimesOf(toInt: IntReader, m: map<string, Word64>, strip: ZeroStrip)
    requires ReadsIntegers(toInt) && forall s :: s in m ==> TimeKey(s, strip)
    requires forall s :: s in m ==> toInt(s).Some?
    ensures NumberedTimes(toInt, m, strip).Ok?
    ensures forall s :: s in m ==> toInt(s).value in NumberedTimes(toInt, m, strip).value
    ensures forall s :: s in m ==> NumberedTimes(toInt, m, strip).value[toInt(s).value] == m[s]
    ensures forall k :: k in NumberedTimes(toInt, m, strip).value ==> exists s :: s in m && toInt(s).value == k
  {
    NumberedInjective(toInt, m, strip);
  }

  /** The time of a time token, the text after its '='. */
  function TimeTextOf(tok: string): string
    requires TimeToken(tok)
  {
    tok[IndexFrom(tok, '=', 0) + 1..]
  }

  /** A time token whose number fits and whose time converts gives an
      entry of an id that converts to its number, with that time. */
  lemma {:induction false} TokenTimeConverts(tok: string, strip: ZeroStrip, pd: DoubleParser)
    requires TimeToken(tok) && TimeNumber(tok) <= Int32Max && pd(TimeTextOf(tok)).Some?
    requires strip == AsWritten ==> TimeNumber(tok) != 0
    ensures var r := TokenTime(tok, strip, pd);
            && r.Ok? && r.value.1 == pd(TimeTextOf(tok)).value
            && IntegerOf(r.value.0) == Some(TimeNumber(tok) as Int32)
  {
    var e := IndexFrom(tok, '=', 0);
    var k := SkipZeros(tok, 1, e);
    if k < e {
      ZerosKeepNumber(tok, k, e);
      IntegerOfDigits(tok[k..e]);
    } else {
      ZerosKeepNumber(tok, e - 1, e);
      var ds := Numbers.Codes(tok[e - 1..e]);
      assert ds == [Numbers.Zero] && ds[..0] == [];
      IntegerOfDigits(tok[e - 1..e]);
    }
  }

  /** No number after the `i`-th is the same. */
  predicate LastNumber(nums: seq<Int32>, i: nat)
    requires i < |nums|
  {
    forall j :: i < j < |nums| ==> nums[j] != nums[i]
  }

  /** When every token has an entry whose id converts, each to its number
      in `nums`, with its time in `times`, the result maps exactly those
      numbers, each to the time of its last token. */
  lemma PhaseTimesNumbered(timeOf: TimeReader, toInt: IntReader, tokens: seq<string>, strip: ZeroStrip,
                           pd: DoubleParser, nums: seq<Int32>, times: seq<Word64>)
    requires ReadsTimes(timeOf) && ReadsIntegers(toInt)
    requires |nums| == |tokens| && |times| == |tokens| && AllEntries(timeOf, tokens, |tokens|, strip, pd)
    requires forall i :: 0 <= i < |tokens| ==>
               && toInt(EntryAt(timeOf, tokens, i, strip, pd).0) == Some(nums[i])
               && EntryAt(timeOf, tokens, i, strip, pd).1 == times[i]
    ensures var r := PhaseTimes(timeOf, tokens, |tokens|, strip, pd);
            && r.Ok?
            && (forall s :: s in r.value ==> TimeKey(s, strip) && toInt(s).Some?)
            && var m := NumberedTimes(toInt, r.value, strip);
               && m.Ok?
               && (forall k :: k in m.value <==> k in nums)
               && (forall i :: 0 <= i < |tokens| && LastNumber(nums, i) ==> m.value[nums[i]] == times[i])
  {
    PhaseTimesKeys(timeOf, tokens, |tokens|, strip, pd);
    PhaseTimesIds(timeOf, tokens, |tokens|, strip, pd);
    PhaseTimesLast(timeOf, tokens, |tokens|, strip, pd);
    var r := PhaseTimes(timeOf, tokens, |tokens|, strip, pd).value;
    forall s | s in r
      ensures toInt(s).Some?
    {
      var i :| 0 <= i < |tokens| && EntryAt(timeOf, tokens, i, strip, pd).0 == s;
    }
    NumberedTimesOf(toInt, r, strip);
    var m := NumberedTimes(toInt, r, strip).value;
    forall k
      ensures k in m <==> k in nums
    {
      if k in m {
        var s :| s in r && toInt(s).value == k;
        var i :| 0 <= i < |tokens| && EntryAt(timeOf, tokens, i, strip, pd).0 == s;
        assert nums[i] == k;
      }
      if k in nums {
        var i :| 0 <= i < |nums| && nums[i] == k;
        assert EntryAt(timeOf, tokens, i, strip, pd).0 in r;
      }
    }
    forall i | 0 <= i < |tokens| && LastNumber(nums, i)
      ensures m[nums[i]] == times[i]
    {
      assert LastEntry(timeOf, tokens, i, |tokens|, strip, pd);
    }
  }

  /** Every token is a time token whose number fits in an `int` and whose
      time converts, and, as written, no number is 0. */
  predicate TimeTokens(tokens: seq<string>, strip: ZeroStrip, pd: DoubleParser) {
    forall i :: 0 <= i < |tokens| ==>
      && TimeToken(tokens[i]) && TimeNumber(tokens[i]) <= Int32Max && pd(TimeTextOf(tokens[i])).Some?
      && (strip == AsWritten ==> TimeNumber(tokens[i]) != 0)
  }

  /** The numbers of time tokens, in order. */
  function TimeNumberSeq(tokens: seq<string>, strip: ZeroStrip, pd: DoubleParser): (nums: seq<Int32>)
    requires TimeTokens(tokens, strip, pd)
    ensures |nums| == |tokens| && forall i :: 0 <= i < |tokens| ==> nums[i] == TimeNumber(tokens[i])
  {
    seq(|tokens|, i requires 0 <= i < |tokens| => TimeNumber(tokens[i]) as Int32)
  }

  /** The times of time tokens, in order. */
  function TimeSeq(tokens: seq<string>, strip: ZeroStrip, pd: DoubleParser): (times: seq<Word64>)
    requires TimeTokens(tokens, strip, pd)
    ensures |times| == |tokens| && forall i :: 0 <= i < |tokens| ==> times[i] == pd(TimeTextOf(tokens[i])).value
  {
    seq(|tokens|, i requires 0 <= i < |tokens| => pd(TimeTextOf(tokens[i])).value)
  }

  /** The entry of the `i`-th of such tokens: its number and its time. */
  lemma EntryConverts(tokens: seq<string>, i: nat, strip: ZeroStrip, pd: DoubleParser)
    requires TimeTokens(tokens, strip, pd) && i < |tokens|
    ensures TokenTime(tokens[i], strip, pd).Ok?
    ensures IntegerOf(EntryAt(TokenTime, tokens, i, strip, pd).0) == Some(TimeNumberSeq(tokens, strip, pd)[i])
    ensures EntryAt(TokenTime, tokens, i, strip, pd).1 == TimeSeq(tokens, strip, pd)[i]
  {
    TokenTimeConverts(tokens[i], strip, pd);
  }

  /** Time tokens joined with commas read as the map from their numbers to
      their times, the last time of a number winning. */
  lemma {:induction false} PhaseTimeListJoined(tokens: seq<string>, strip: ZeroStrip, pd: DoubleParser)
    requires |tokens| > 0 && TimeTokens(tokens, strip, pd)
    ensures var r := PhaseTimeListOf(Some(JoinWith(tokens, ',')), strip, pd);
            var nums := TimeNumberSeq(tokens, strip, pd);
            && r.Ok?
            && (forall k :: k in r.value <==> k in nums)
            && (forall i :: 0 <= i < |tokens| && LastNumber(nums, i) ==> r.value[nums[i]] == TimeSeq(tokens, strip, pd)[i])
  {
    TimeTokensSplit(tokens, strip, pd);
    forall i | 0 <= i < |tokens|
      ensures TokenTime(tokens[i], strip, pd).Ok?
      ensures IntegerOf(EntryAt(TokenTime, tokens, i, strip, pd).0) == Some(TimeNumberSeq(tokens, strip, pd)[i])
      ensures EntryAt(TokenTime, tokens, i, strip, pd).1 == TimeSeq(tokens, strip, pd)[i]
    {
      EntryConverts(tokens, i, strip, pd);
    }
    PhaseTimesNumbered(TokenTime, IntegerOf, tokens, strip, pd, TimeNumberSeq(tokens, strip, pd), TimeSeq(tokens, strip, pd));
    PhaseTimesIds(TokenTime, tokens, |tokens|, strip, pd);
    var m := PhaseTimes(TokenTime, tokens, |tokens|, strip, pd).value;
    assert EntryAt(TokenTime, tokens, 0, strip, pd).0 in m;
    assert PhaseTimeListOf(Some(JoinWith(tokens, ',')), strip, pd) == NumberedTimes(IntegerOf, m, strip);
  }

  /** Time tokens joined with commas split back into the same tokens. */
  lemma TimeTokensSplit(tokens: seq<string>, strip: ZeroStrip, pd: DoubleParser)
    requires |tokens| > 0 && TimeTokens(tokens, strip, pd)
    ensures SplitOn(JoinWith(tokens, ','), IsComma) == tokens
  {
    forall i | 0 <= i < |tokens|
      ensures ',' !in tokens[i]
    {
      TimeNoComma(tokens[i]);
    }
    SplitOnJoined(tokens, ',', IsComma);
  }

  lemma TimeNoComma(tok: string)
    requires TimeToken(tok)
    ensures ',' !in tok
  {
    var e := IndexFrom(tok, '=', 0);
    forall j | 0 <= j < |tok|
      ensures tok[j] != ','
    {
      if 1 <= j < e {
        assert tok[j] == tok[1..e][j - 1];
      } else if j > e {
        assert tok[j] == tok[e + 1..][j - e - 1];
      }
    }
  }

  /** "p0=1" is the time token of phase 0 with the time "1". */
  lemma ZeroTimeToken()
    ensures IndexFrom("p0=1", '=', 0) == 2
    ensures TimeToken("p0=1") && TimeNumber("p0=1") == 0 && TimeTextOf("p0=1") == "1"
  {
    var tok := "p0=1";
    assert IndexFrom(tok, '=', 2) == 2;
    assert IndexFrom(tok, '=', 1) == 2;
    assert tok[1..2] == "0" && tok[3..] == "1";
  }

  /** The token "p0=1": as written its id is empty, which fails to
      convert; keeping the last digit gives phase 0. */
  lemma ZeroPhaseTime(pd: DoubleParser)
    requires pd("1").Some?
    ensures PhaseTimeListOf(Some("p0=1"), AsWritten, pd) == Thrown
    ensures PhaseTimeListOf(Some("p0=1"), KeepDigit, pd) == Ok(map[0 := pd("1").value])
  {
    ZeroPhaseTimeAsWritten(pd);
    ZeroPhaseTimeKept(pd);
  }

  lemma ZeroPhaseTimeAsWritten(pd: DoubleParser)
    requires pd("1").Some?
    ensures PhaseTimeListOf(Some("p0=1"), AsWritten, pd) == Thrown
  {
    var tokens := ["p0=1"];
    ZeroTimeToken();
    assert JoinWith(tokens, ',') == "p0=1";
    TimeTokensSplit(tokens, KeepDigit, pd);
    assert SkipZeros("p0=1", 2, 2) == 2;
    assert TokenTime("p0=1", AsWritten, pd) == Ok(("", pd("1").value));
    assert PhaseTimes(TokenTime, tokens, 1, AsWritten, pd) == Ok(map["" := pd("1").value]);
    assert IntegerOf("").None?;
  }

  lemma ZeroPhaseTimeKept(pd: DoubleParser)
    requires pd("1").Some?
    ensures PhaseTimeListOf(Some("p0=1"), KeepDigit, pd) == Ok(map[0 := pd("1").value])
  {
    ZeroTimeEntries(pd);
    ZeroId();
    SingleTimeList("p0=1", "p0=1", KeepDigit, pd, "0", pd("1").value);
  }

  /** The id "0" is the number 0. */
  lemma ZeroId()
    ensures IntegerOf("0") == Some(0)
  {
    var cs := Numbers.Codes("0");
    assert cs == [Numbers.Zero];
    assert cs[..0] == [];
    assert Numbers.DigitsValue(cs) == 0;
  }

  /** A string of one token whose entry is `key` and `v` maps the number of
      `key` to `v`. */
  lemma SingleTimeList(s: string, tok: string, strip: ZeroStrip, pd: DoubleParser, key: string, v: Word64)
    requires SplitOn(s, IsComma) == [tok]
    requires PhaseTimes(TokenTime, [tok], 1, strip, pd) == Ok(map[key := v])
    requires IntegerOf(key).Some?
    ensures PhaseTimeListOf(Some(s), strip, pd) == Ok(map[IntegerOf(key).value := v])
  {
    PhaseTimesKeys(TokenTime, [tok], 1, strip, pd);
    assert key in map[key := v];
    NumberedSingle(IntegerOf, key, v, strip);
  }

  /** Kept to one digit, "p0=1" puts the id "0" in the map. */
  lemma ZeroTimeEntries(pd: DoubleParser)
    requires pd("1").Some?
    ensures SplitOn("p0=1", IsComma) == ["p0=1"]
    ensures PhaseTimes(TokenTime, ["p0=1"], 1, KeepDigit, pd) == Ok(map["0" := pd("1").value])
  {
    var tokens := ["p0=1"];
    ZeroTimeToken();
    assert JoinWith(tokens, ',') == "p0=1";
    TimeTokensSplit(tokens, KeepDigit, pd);
    assert SkipZeros("p0=1", 2, 2) == 2 && SkipZeros("p0=1", 1, 2) == 2;
    assert IdStart("p0=1", 2, KeepDigit) == Some(1);
    assert "p0=1"[1..2] == "0" && "p0=1"[3..] == "1";
    assert TokenTime("p0=1", KeepDigit, pd) == Ok(("0", pd("1").value));
  }

  /** A map of one id numbers as the map of its number. */
  lemma NumberedSingle(toInt: IntReader, s: string, v: Word64, strip: ZeroStrip)
    requires ReadsIntegers(toInt) && TimeKey(s, strip) && toInt(s).Some?
    ensures NumberedTimes(toInt, map[s := v], strip) == Ok(map[toInt(s).value := v])
  {
    NumberedTimesOf(toInt, map[s := v], strip);
    var single := map[s := v];
    assert s in single && single[s] == v;
    var m := NumberedTimes(toInt, single, strip).value;
    assert m[toInt(s).value] == v;
    assert forall k :: k in m <==> k == toInt(s).value;
    assert m == map[toInt(s).value := v];
  }
}
