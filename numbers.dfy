/** Decimal integer parsing as done by `new Integer(s)` and `new Long(s)`
    (Util.toInteger and Util.toLong), over character codes so that both Java
    strings and their bytes can be parsed. */
module Numbers {
  import opened Wrappers
  import opened Bytes

  const Plus := '+' as int
  const Minus := '-' as int
  const Zero := '0' as int

  predicate IsDigit(c: int) {
    Zero <= c <= Zero + 9
  }

  predicate AllDigits(cs: seq<int>) {
    forall i :: 0 <= i < |cs| ==> IsDigit(cs[i])
  }

  /** The character codes of a Java string. */
  function Codes(s: string): (cs: seq<int>)
    ensures |cs| == |s| && forall i :: 0 <= i < |s| ==> cs[i] == s[i] as int
  {
    seq(|s|, i requires 0 <= i < |s| => s[i] as int)
  }

  /** The value of a run of decimal digits, leading zeros included. */
  function DigitsValue(ds: seq<int>): nat
    requires AllDigits(ds)
  {
    if ds == [] then 0 else DigitsValue(ds[..|ds| - 1]) * 10 + (ds[|ds| - 1] - Zero)
  }

  /** The integer written in `cs`: an optional sign followed by one or more
      digits, without any range check. */
  function ParseDecimal(cs: seq<int>): (r: Option<int>)
    ensures r.Some? <==> |cs| > 0 && (
                           if cs[0] == Plus || cs[0] == Minus then |cs| > 1 && AllDigits(cs[1..])
                           else AllDigits(cs))
  {
    if |cs| == 0 then None
    else if cs[0] == Minus || cs[0] == Plus then
      if |cs| > 1 && AllDigits(cs[1..]) then
        Some(if cs[0] == Minus then -(DigitsValue(cs[1..]) as int) else DigitsValue(cs[1..]))
      else None
    else if AllDigits(cs) then Some(DigitsValue(cs))
    else None
  }

  /** `new Integer(s)`: the value, or null when `s` is not a decimal number
      in the 32-bit range (the NumberFormatException is caught). */
  function ParseInt32(cs: seq<int>): (r: Option<Int32>)
    ensures r.Some? <==> ParseDecimal(cs).Some? && Int32Min <= ParseDecimal(cs).value <= Int32Max
    ensures r.Some? ==> r.value == ParseDecimal(cs).value
  {
    match ParseDecimal(cs)
    case Some(v) => if -0x8000_0000 <= v < 0x8000_0000 then Some(v) else None
    case None => None
  }

  /** `new Long(s)`, the same with the 64-bit range. */
  function ParseInt64(cs: seq<int>): (r: Option<Int64>)
    ensures r.Some? <==> ParseDecimal(cs).Some? && -0x8000_0000_0000_0000 <= ParseDecimal(cs).value < 0x8000_0000_0000_0000
    ensures r.Some? ==> r.value == ParseDecimal(cs).value
  {
    match ParseDecimal(cs)
    case Some(v) => if -0x8000_0000_0000_0000 <= v < 0x8000_0000_0000_0000 then Some(v) else None
    case None => None
  }

  /** The decimal digits of `n` without leading zeros (Integer.toString). */
  function DigitsOf(n: nat): (ds: seq<int>)
    ensures |ds| > 0 && AllDigits(ds)
  {
    if n < 10 then [Zero + n] else DigitsOf(n / 10) + [Zero + n % 10]
  }

  /** `Integer.toString(n)` / `Long.toString(n)`. */
  function FormatDecimal(n: int): (cs: seq<int>)
  {
    if n < 0 then [Minus] + DigitsOf(-n) else DigitsOf(n)
  }

  lemma {:induction false} DigitsValueOf(n: nat)
    ensures DigitsValue(DigitsOf(n)) == n
  {
    if n >= 10 {
      var ds := DigitsOf(n);
      assert ds[..|ds| - 1] == DigitsOf(n / 10);
      DigitsValueOf(n / 10);
    }
  }

  /** A leading zero does not change the value of a digit run. */
  lemma {:induction false} LeadingZero(ds: seq<int>)
    requires AllDigits(ds)
    ensures AllDigits([Zero] + ds) && DigitsValue([Zero] + ds) == DigitsValue(ds)
  {
    if ds != [] {
      LeadingZero(ds[..|ds| - 1]);
      assert ([Zero] + ds)[..|ds|] == [Zero] + ds[..|ds| - 1];
    }
  }

  /** A digit run without leading zeros (or the single digit "0") is the
      canonical form of its value. */
  predicate Canonical(ds: seq<int>) {
    |ds| > 0 && AllDigits(ds) && (|ds| > 1 ==> ds[0] != Zero)
  }

  lemma {:induction false} DigitsOfCanonical(n: nat)
    ensures Canonical(DigitsOf(n))
  {
    if n >= 10 {
      DigitsOfCanonical(n / 10);
      assert DigitsOf(n)[0] == DigitsOf(n / 10)[0];
      if n / 10 >= 10 {
        assert |DigitsOf(n / 10)| > 1;
      }
    }
  }

  lemma {:induction false} CanonicalDigits(ds: seq<int>)
    requires Canonical(ds)
    ensures DigitsOf(DigitsValue(ds)) == ds
  {
    var n := DigitsValue(ds);
    if |ds| > 1 {
      var init := ds[..|ds| - 1];
      assert Canonical(init);
      CanonicalDigits(init);
      PositiveAboveTen(init);
      assert n / 10 == DigitsValue(init) && n % 10 == ds[|ds| - 1] - Zero;
      assert ds == init + [ds[|ds| - 1]];
    }
  }

  lemma {:induction false} PositiveAboveTen(ds: seq<int>)
    requires Canonical(ds)
    ensures DigitsValue(ds) >= 1 || |ds| == 1
    ensures |ds| > 1 ==> DigitsValue(ds) >= 10
  {
    if |ds| > 1 {
      var init := ds[..|ds| - 1];
      assert Canonical(init);
      PositiveAboveTen(init);
    }
  }

  /** Two different canonical digit runs denote different numbers. */
  lemma {:induction false} CanonicalInjective(a: seq<int>, b: seq<int>)
    requires Canonical(a) && Canonical(b) && a != b
    ensures DigitsValue(a) != DigitsValue(b)
  {
    CanonicalDigits(a);
    CanonicalDigits(b);
  }

  /** Reading back what Integer.toString wrote gives the number again. */
  lemma {:induction false} ParseFormatInt32(n: Int32)
    ensures ParseInt32(FormatDecimal(n)) == Some(n)
  {
    var cs := FormatDecimal(n);
    if n < 0 {
      assert cs[1..] == DigitsOf(-(n as int));
      DigitsValueOf(-(n as int));
    } else {
      DigitsValueOf(n);
    }
  }

  lemma {:induction false} ParseFormatInt64(n: Int64)
    ensures ParseInt64(FormatDecimal(n)) == Some(n)
  {
    var cs := FormatDecimal(n);
    if n < 0 {
      assert cs[1..] == DigitsOf(-(n as int));
      DigitsValueOf(-(n as int));
    } else {
      DigitsValueOf(n);
    }
  }
}
