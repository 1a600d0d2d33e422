/** Util.duplicate and Util.concatArray: copies of Object arrays and of
    runs of their elements. Lengths are Java `int`s, so a Java array holds
    at most Int32Max elements; the exceptions the source lets escape
    (NegativeArraySizeException, ArrayIndexOutOfBoundsException) are
    `Thrown`. */
module Arrays {
  import opened Wrappers
  import opened Bytes

  /** What duplicate(arr, startIdx, len) returns for elements `a`: null
      when `startIdx` is not before the end; otherwise the `len` elements
      from `startIdx`, cut at the end. `arr.length - startIdx` is computed
      in `int` arithmetic; a negative count throws when the copy is
      allocated, and a negative start throws on the first element copied. */
  function Duplicated<T>(a: seq<T>, startIdx: Int32, len: Int32): (r: Outcome<seq<T>>)
    requires |a| <= Int32Max
  {
    if startIdx >= |a| then Null
    else
      var checkCnt := Wrap32(|a| - startIdx);
      var n := if checkCnt < len then checkCnt else len;
      if n < 0 then Thrown
      else if n == 0 then Ok([])
      else if startIdx < 0 then Thrown
      else Ok(a[startIdx..startIdx + n])
  }

  /** From a start inside the array, duplicate copies the `len` elements
      from there, or those up to the end when fewer are left; a negative
      length throws. */
  lemma {:induction false} DuplicatedInside<T>(a: seq<T>, startIdx: Int32, len: Int32)
    requires |a| <= Int32Max && 0 <= startIdx < |a|
    ensures len < 0 ==> Duplicated(a, startIdx, len) == Thrown
    ensures 0 <= len ==>
              Duplicated(a, startIdx, len) == Ok(a[startIdx..if startIdx + len < |a| then startIdx + len else |a|])
  {
    if len == 0 {
      assert a[startIdx..startIdx] == [];
    }
  }

  /** From a negative start, duplicate succeeds only with an empty copy. */
  lemma {:induction false} DuplicatedBefore<T>(a: seq<T>, startIdx: Int32, len: Int32)
    requires |a| <= Int32Max && startIdx < 0
    ensures Duplicated(a, startIdx, len).Ok? ==> Duplicated(a, startIdx, len).value == []
    ensures Duplicated(a, startIdx, len) != Null
  {
  }

  /** Util.duplicate(arr, startIdx, len). */
  method Duplicate<T(0)>(arr: array?<T>, startIdx: Int32, len: Int32) returns (r: Outcome<array<T>>)
    requires arr != null ==> arr.Length <= Int32Max
    ensures arr == null ==> r.Null?
    ensures arr != null ==>
              var d := Duplicated(arr[..], startIdx, len);
              && (r.Null? <==> d.Null?)
              && (r.Thrown? <==> d.Thrown?)
              && (r.Ok? ==> fresh(r.value) && r.value[..] == d.value)
  {
    if arr == null || startIdx >= arr.Length {
      return Null;
    }
    var checkCnt := Wrap32(arr.Length - startIdx);
    var n := len;
    if checkCnt < n {
      n := checkCnt;
    }
    if n < 0 {
      return Thrown;
    }
    var ret := new T[n];
    var i := 0;
    while i < n
      invariant 0 <= i <= n
      invariant i > 0 ==> 0 <= startIdx && ret[..i] == arr[startIdx..startIdx + i]
    {
      if i + startIdx < 0 {
        return Thrown;
      }
      ret[i] := arr[i + startIdx];
      i := i + 1;
    }
    return Ok(ret);
  }

  /** Util.duplicate(arr): a copy of the whole array; null for null and
      for an empty array. */
  method DuplicateAll<T(0)>(arr: array?<T>) returns (r: Outcome<array<T>>)
    requires arr != null ==> arr.Length <= Int32Max
    ensures !r.Thrown?
    ensures r.Null? <==> arr == null || arr.Length == 0
    ensures r.Ok? ==> fresh(r.value) && r.value[..] == arr[..]
  {
    if arr == null {
      return Null;
    }
    r := Duplicate(arr, 0, arr.Length);
    if arr.Length > 0 {
      DuplicatedInside(arr[..], 0, arr.Length as Int32);
    }
  }

  /** Util.duplicate(arr, startIdx): the elements from `startIdx` to the
      end; null for null and for a start at or after the end, and an
      exception for a negative start. */
  method DuplicateFrom<T(0)>(arr: array?<T>, startIdx: Int32) returns (r: Outcome<array<T>>)
    requires arr != null ==> arr.Length <= Int32Max
    ensures r.Null? <==> arr == null || startIdx >= arr.Length
    ensures r.Thrown? <==> arr != null && startIdx < 0
    ensures r.Ok? ==> fresh(r.value) && 0 <= startIdx && r.value[..] == arr[startIdx..]
  {
    if arr == null {
      return Null;
    }
    var rest := Wrap32(arr.Length - startIdx);
    r := Duplicate(arr, startIdx, rest);
    if 0 <= startIdx < arr.Length {
      DuplicatedInside(arr[..], startIdx, rest);
    } else if startIdx < 0 {
      DuplicatedBefore(arr[..], startIdx, rest);
      assert 0 < arr.Length - startIdx < 0x1_0000_0000;
      assert rest != 0;
    }
  }

  /** What concatArray(arr1, arr2) returns, a null array counting as an
      empty one: null when both are empty; an exception when the total
      length does not fit in an `int`, since it then wraps to a negative
      count; otherwise the elements of `a` followed by those of `b`. */
  function Concatenated<T>(a: seq<T>, b: seq<T>): (r: Outcome<seq<T>>)
    requires |a| <= Int32Max && |b| <= Int32Max
  {
    var cnt := Wrap32(|a| + |b|);
    if cnt == 0 then Null else if cnt < 0 then Thrown else Ok(a + b)
  }

  /** The wrapped total is zero only when both are empty and negative
      exactly when the true total is too large. */
  lemma {:induction false} ConcatenatedCases<T>(a: seq<T>, b: seq<T>)
    requires |a| <= Int32Max && |b| <= Int32Max
    ensures Concatenated(a, b).Null? <==> |a| + |b| == 0
    ensures Concatenated(a, b).Thrown? <==> |a| + |b| > Int32Max
    ensures Concatenated(a, b).Ok? ==> Concatenated(a, b).value == a + b
  {
    if |a| + |b| > Int32Max {
      assert Wrap32(|a| + |b|) == |a| + |b| - 0x1_0000_0000;
    }
  }

  /** Duplicating the two ranges of a concatenation gives back its parts. */
  lemma {:induction false} DuplicateConcatenated<T>(a: seq<T>, b: seq<T>)
    requires |a| > 0 && |b| > 0 && |a| + |b| <= Int32Max
    ensures Concatenated(a, b).Ok?
    ensures Duplicated(Concatenated(a, b).value, 0, |a|) == Ok(a)
    ensures Duplicated(Concatenated(a, b).value, |a|, |b|) == Ok(b)
  {
    var c := a + b;
    ConcatenatedCases(a, b);
    DuplicatedInside(c, 0, |a|);
    DuplicatedInside(c, |a|, |b|);
    assert c[0..|a|] == a && c[|a|..|c|] == b;
  }

  function Elements<T>(arr: array?<T>): seq<T>
    reads arr
  {
    if arr == null then [] else arr[..]
  }

  /** Util.concatArray(arr1, arr2). */
  method ConcatArray<T(0)>(arr1: array?<T>, arr2: array?<T>) returns (r: Outcome<array<T>>)
    requires arr1 != null ==> arr1.Length <= Int32Max
    requires arr2 != null ==> arr2.Length <= Int32Max
    ensures var d := Concatenated(Elements(arr1), Elements(arr2));
            && (r.Null? <==> d.Null?)
            && (r.Thrown? <==> d.Thrown?)
            && (r.Ok? ==> fresh(r.value) && r.value[..] == d.value)
  {
    ghost var a, b := Elements(arr1), Elements(arr2);
    ConcatenatedCases(a, b);
    var cnt: Int32 := 0;
    if arr1 != null {
      cnt := arr1.Length;
    }
    if arr2 != null {
      cnt := Wrap32(cnt + arr2.Length);
    }
    assert cnt == Wrap32(|a| + |b|);
    if cnt == 0 {
      return Null;
    }
    if cnt < 0 {
      return Thrown;
    }
    var ret := new T[cnt];
    var idx := 0;
    if arr1 != null {
      idx := CopyInto(ret, idx, arr1);
    }
    assert ret[..idx] == a;
    if arr2 != null {
      idx := CopyInto(ret, idx, arr2);
    }
    assert ret[..] == ret[..idx] == a + b;
    return Ok(ret);
  }

  /** One loop of concatArray: the elements of `src` copied into `dst`
      from `idx` on; returns the index after the last one copied. */
  method CopyInto<T>(dst: array<T>, idx: nat, src: array<T>) returns (next: nat)
    requires dst != src && idx + src.Length <= dst.Length
    modifies dst
    ensures next == idx + src.Length
    ensures dst[..next] == old(dst[..idx]) + src[..]
  {
    next := idx;
    for i := 0 to src.Length
      invariant next == idx + i
      invariant dst[..next] == old(dst[..idx]) + src[..i]
    {
      dst[next] := src[i];
      next := next + 1;
    }
  }

  /** Util.concatArray(arr1, newValue): `arr1` with one more element. */
  method ConcatValue<T(0)>(arr1: array?<T>, newValue: T) returns (r: Outcome<array<T>>)
    requires arr1 != null ==> arr1.Length <= Int32Max
    ensures !r.Null?
    ensures r.Thrown? <==> arr1 != null && arr1.Length == Int32Max
    ensures r.Ok? ==> fresh(r.value) && r.value[..] == Elements(arr1) + [newValue]
  {
    var arr2 := new T[1];
    arr2[0] := newValue;
    r := ConcatArray(arr1, arr2);
    ConcatenatedCases(Elements(arr1), [newValue]);
  }
}
