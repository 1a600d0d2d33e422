/** Util.cleanWhiteSpace, Util.cleanComment, Util.isNumeric, Util.makeKey
    and Util.genKeyString, with the parts of String.trim, String.split and
    String.replaceAll that they and the list parsers rely on. */
module Strings {
  import opened Wrappers
  import opened Bytes
  import Numbers

  // ---------------------------------------------------------------------
  // Character classes

  /** What String.trim strips from both ends: any character up to U+0020. */
  predicate IsTrimmable(c: char) {
    c <= ' '
  }

  /** `\s` of java.util.regex: space, tab, newline, vertical tab, form feed
      and carriage return. */
  predicate IsSpaceCode(c: int) {
    c == 32 || 9 <= c <= 13
  }

  predicate IsRegexSpace(c: char) {
    IsSpaceCode(c as int)
  }

  predicate IsSpaceByte(b: Byte) {
    IsSpaceCode(b)
  }

  predicate IsComma(c: char) {
    c == ','
  }

  /** A line terminator of java.util.regex, which `.` does not match. */
  predicate IsLineTerminator(c: char) {
    c == '\n' || c == '\r' || c == '\U{0085}' || c == '\U{2028}' || c == '\U{2029}'
  }

  // ---------------------------------------------------------------------
  // String.trim and replaceAll("\\s+", "")

  function TrimStart(s: string): (r: string)
    ensures |r| <= |s| && r == s[|s| - |r|..]
    ensures forall i :: 0 <= i < |s| - |r| ==> IsTrimmable(s[i])
    ensures |r| > 0 ==> !IsTrimmable(r[0])
  {
    if |s| > 0 && IsTrimmable(s[0]) then
      var r := TrimStart(s[1..]);
      assert s[1..][|s| - 1 - |r|..] == s[|s| - |r|..];
      assert forall i :: 1 <= i < |s| - |r| ==> s[i] == s[1..][i - 1];
      r
    else s
  }

  function TrimEnd(s: string): (r: string)
    ensures |r| <= |s| && r == s[..|r|]
    ensures forall i :: |r| <= i < |s| ==> IsTrimmable(s[i])
    ensures |r| > 0 ==> !IsTrimmable(r[|r| - 1])
  {
    if |s| > 0 && IsTrimmable(s[|s| - 1]) then
      var r := TrimEnd(s[..|s| - 1]);
      assert s[..|s| - 1][..|r|] == s[..|r|];
      r
    else s
  }

  /** String.trim: `s` without its leading and trailing characters up to
      U+0020. */
  function Trim(s: string): (r: string)
    ensures |r| > 0 ==> !IsTrimmable(r[0]) && !IsTrimmable(r[|r| - 1])
  {
    TrimEnd(TrimStart(s))
  }

  /** Both ends of a trimmed string are kept. */
  predicate Trimmed(s: string) {
    |s| > 0 ==> !IsTrimmable(s[0]) && !IsTrimmable(s[|s| - 1])
  }

  /** Trim takes off exactly the padding: a string whose ends are not
      trimmable, padded on both sides with trimmable characters, trims back
      to itself. */
  lemma {:induction false} TrimPadded(a: string, b: string, c: string)
    requires forall i :: 0 <= i < |a| ==> IsTrimmable(a[i])
    requires forall i :: 0 <= i < |c| ==> IsTrimmable(c[i])
    requires Trimmed(b)
    ensures Trim(a + b + c) == b
  {
    assert a + b + c == a + (b + c);
    if |b| > 0 {
      assert (b + c)[0] == b[0];
      TrimStartPadded(a, b + c);
      TrimEndPadded(b, c);
    } else {
      assert b + c == c;
      assert |TrimStart(a + c)| == 0;
    }
  }

  lemma {:induction false} TrimStartPadded(a: string, t: string)
    requires forall i :: 0 <= i < |a| ==> IsTrimmable(a[i])
    requires |t| > 0 ==> !IsTrimmable(t[0])
    ensures TrimStart(a + t) == t
  {
    if |a| > 0 {
      assert (a + t)[1..] == a[1..] + t;
      TrimStartPadded(a[1..], t);
    } else {
      assert a + t == t;
    }
  }

  lemma {:induction false} TrimEndPadded(t: string, c: string)
    requires forall i :: 0 <= i < |c| ==> IsTrimmable(c[i])
    requires |t| > 0 ==> !IsTrimmable(t[|t| - 1])
    ensures TrimEnd(t + c) == t
  {
    if |c| > 0 {
      assert (t + c)[..|t + c| - 1] == t + c[..|c| - 1];
      TrimEndPadded(t, c[..|c| - 1]);
    } else {
      assert t + c == t;
    }
  }

  /** s.replaceAll("\\s+", ""): every `\s` character removed. */
  function RemoveSpaces(s: string): (r: string)
    ensures |r| <= |s|
    ensures forall i :: 0 <= i < |r| ==> !IsRegexSpace(r[i])
  {
    if |s| == 0 then "" else (if IsRegexSpace(s[0]) then "" else [s[0]]) + RemoveSpaces(s[1..])
  }

  /** Removing spaces keeps every other character as often as it occurs. */
  lemma {:induction false} RemoveSpacesCounts(s: string)
    ensures forall c :: !IsRegexSpace(c) ==> multiset(RemoveSpaces(s))[c] == multiset(s)[c]
  {
    if |s| > 0 {
      RemoveSpacesCounts(s[1..]);
      var h: string := if IsRegexSpace(s[0]) then "" else [s[0]];
      assert s == [s[0]] + s[1..];
      assert RemoveSpaces(s) == h + RemoveSpaces(s[1..]);
      assert multiset(RemoveSpaces(s)) == multiset(h) + multiset(RemoveSpaces(s[1..]));
    }
  }

  /** Removing spaces works piece by piece, so the characters kept stay in
      their order: the result for `a + b` is the result for `a` followed by
      the result for `b`. */
  lemma {:induction false} RemoveSpacesAppend(a: string, b: string)
    ensures RemoveSpaces(a + b) == RemoveSpaces(a) + RemoveSpaces(b)
  {
    if |a| > 0 {
      assert (a + b)[1..] == a[1..] + b;
      RemoveSpacesAppend(a[1..], b);
    } else {
      assert a + b == b;
    }
  }

  /** A string without spaces is left as it is. */
  lemma {:induction false} RemoveSpacesNone(s: string)
    requires forall i :: 0 <= i < |s| ==> !IsRegexSpace(s[i])
    ensures RemoveSpaces(s) == s
  {
    if |s| > 0 {
      RemoveSpacesNone(s[1..]);
      assert s == [s[0]] + s[1..];
    }
  }

  /** A last character that is not a space stays last. */
  lemma {:induction false} RemoveSpacesLast(s: string)
    requires |s| > 0 && !IsRegexSpace(s[|s| - 1])
    ensures |RemoveSpaces(s)| > 0 && RemoveSpaces(s)[|RemoveSpaces(s)| - 1] == s[|s| - 1]
  {
    if |s| > 1 {
      assert s[1..][|s[1..]| - 1] == s[|s| - 1];
      RemoveSpacesLast(s[1..]);
    }
  }

  /** Util.cleanWhiteSpace(s, all): null for null, otherwise trimmed and,
      when `all` is set, without any `\s` character. */
  function CleanWhiteSpace(s: Option<string>, all: bool): (r: Option<string>)
    ensures r.Some? <==> s.Some?
  {
    match s
    case None => None
    case Some(t) => Some(if all then RemoveSpaces(Trim(t)) else Trim(t))
  }

  /** Util.cleanWhiteSpace(s): every `\s` character removed. */
  function CleanAllWhiteSpace(s: Option<string>): (r: Option<string>)
    ensures r.Some? <==> s.Some?
    ensures r.Some? ==> forall i :: 0 <= i < |r.value| ==> !IsRegexSpace(r.value[i])
  {
    CleanWhiteSpace(s, true)
  }

  /** What cleanWhiteSpace leaves: no trimmable character at either end;
      with `all`, no `\s` character at all, and every other character of the
      trimmed string as often as it occurs there. */
  lemma {:induction false} CleanWhiteSpaceResult(s: string, all: bool)
    ensures Trimmed(CleanWhiteSpace(Some(s), all).value)
    ensures all ==> forall i :: 0 <= i < |CleanWhiteSpace(Some(s), all).value| ==>
                      !IsRegexSpace(CleanWhiteSpace(Some(s), all).value[i])
    ensures all ==> forall c :: !IsRegexSpace(c) ==>
                      multiset(CleanWhiteSpace(Some(s), all).value)[c] == multiset(Trim(s))[c]
  {
    var t := Trim(s);
    RemoveSpacesCounts(t);
    if all && |t| > 0 {
      RemoveSpacesLast(t);
      assert !IsRegexSpace(t[0]);
    }
  }

  /** Cleaning twice is cleaning once. */
  lemma {:induction false} CleanWhiteSpaceIdempotent(s: Option<string>, all: bool)
    ensures CleanWhiteSpace(CleanWhiteSpace(s, all), all) == CleanWhiteSpace(s, all)
  {
    if s.Some? {
      var t := CleanWhiteSpace(s, all).value;
      CleanWhiteSpaceResult(s.value, all);
      TrimPadded("", t, "");
      assert "" + t + "" == t;
      if all {
        RemoveSpacesNone(t);
      }
    }
  }

  // ---------------------------------------------------------------------
  // replaceAll("#.*$", "")

  /** How many characters of line terminator `s` ends with: two for "\r\n",
      one for any other terminator, none otherwise. */
  function FinalTerminator(s: string): (n: nat)
    ensures n <= |s| && n <= 2
  {
    if |s| >= 2 && s[|s| - 2] == '\r' && s[|s| - 1] == '\n' then 2
    else if |s| >= 1 && IsLineTerminator(s[|s| - 1]) then 1
    else 0
  }

  /** Where the last line of `s` starts: just after its last terminator. */
  function LineStart(s: string): (k: nat)
    ensures k <= |s|
    ensures forall i :: k <= i < |s| ==> !IsLineTerminator(s[i])
    ensures k > 0 ==> IsLineTerminator(s[k - 1])
  {
    if |s| == 0 || IsLineTerminator(s[|s| - 1]) then |s| else LineStart(s[..|s| - 1])
  }

  /** s.indexOf(c, from), with |s| for -1: the first `c` of `s` at or
      after `from`. */
  function IndexFrom(s: string, c: char, from: nat): (k: nat)
    requires from <= |s|
    ensures from <= k <= |s|
    ensures forall i :: from <= i < k ==> s[i] != c
    ensures k < |s| ==> s[k] == c
    decreases |s| - from
  {
    if from == |s| || s[from] == c then from else IndexFrom(s, c, from + 1)
  }

  /** `s` less its final line terminator. */
  function Body(s: string): (b: string)
    ensures |b| <= |s| && b == s[..|b|]
  {
    s[..|s| - FinalTerminator(s)]
  }

  /** Where the comment of the last line starts: its first '#', or the end
      of the body when it has none. */
  function CommentStart(s: string): (h: nat)
    ensures h <= |Body(s)|
  {
    IndexFrom(Body(s), '#', LineStart(Body(s)))
  }

  /** s.replaceAll("#.*$", ""). Without MULTILINE, `$` matches only at the
      end of the input or before the line terminator that ends it, and `.`
      does not match a terminator; so the one match is on the last line,
      from its first '#' to the final terminator. */
  function StripComment(s: string): (r: string)
  {
    Cut(s, CommentStart(s), |Body(s)|)
  }

  /** `s` without the characters from `h` to `end`, when there are any. */
  function Cut(s: string, h: nat, end: nat): string
    requires h <= end <= |s|
  {
    if h < end then s[..h] + s[end..] else s
  }

  /** Util.cleanComment: null for null. */
  function CleanComment(s: Option<string>): (r: Option<string>)
    ensures r.Some? <==> s.Some?
  {
    match s
    case None => None
    case Some(t) => Some(StripComment(t))
  }

  /** On a single line, cleanComment keeps what precedes the first '#'. */
  lemma {:induction false} StripCommentLine(a: string, b: string)
    requires forall i :: 0 <= i < |a| ==> a[i] != '#' && !IsLineTerminator(a[i])
    requires forall i :: 0 <= i < |b| ==> !IsLineTerminator(b[i])
    requires |b| > 0 ==> b[0] == '#'
    ensures StripComment(a + b) == a
  {
    var s := a + b;
    assert FinalTerminator(s) == 0 by {
      if |s| > 0 {
        assert !IsLineTerminator(s[|s| - 1]);
      }
    }
    assert Body(s) == s;
    assert LineStart(s) == 0;
    if |b| > 0 {
      assert s[|a|] == '#';
      assert IndexFrom(s, '#', 0) == |a|;
      assert s[..|a|] + s[|s|..] == a;
      assert Cut(s, |a|, |s|) == a;
    } else {
      assert IndexFrom(s, '#', 0) == |s|;
    }
  }

  /** cleanComment leaves every line but the last alone. */
  lemma {:induction false} StripCommentLastLine(a: string, c: char, b: string)
    requires IsLineTerminator(c) && FinalTerminator(b) < |b|
    ensures StripComment(a + [c] + b) == a + [c] + StripComment(b)
  {
    var p := a + [c];
    CommentStartAfter(p, b);
    CutAfter(p, b, CommentStart(b), |Body(b)|);
  }

  lemma {:induction false} CutAfter(p: string, b: string, h: nat, end: nat)
    requires h <= end <= |b|
    ensures Cut(p + b, |p| + h, |p| + end) == p + Cut(b, h, end)
  {
    if h < end {
      var s := p + b;
      assert s[..|p| + h] == p + b[..h];
      assert s[|p| + end..] == b[end..];
      assert p + b[..h] + b[end..] == p + (b[..h] + b[end..]);
    }
  }

  lemma {:induction false} CommentStartAfter(p: string, b: string)
    requires |p| > 0 && IsLineTerminator(p[|p| - 1]) && FinalTerminator(b) < |b|
    ensures |Body(p + b)| == |p| + |Body(b)|
    ensures CommentStart(p + b) == |p| + CommentStart(b)
  {
    FinalTerminatorAfter(p, b);
    var body := Body(b);
    assert Body(p + b) == p + body;
    LineStartAfter(p, body);
    IndexFromAfter(p, body, '#', LineStart(body));
  }

  lemma {:induction false} FinalTerminatorAfter(p: string, b: string)
    requires FinalTerminator(b) < |b|
    ensures FinalTerminator(p + b) == FinalTerminator(b)
  {
    var s := p + b;
    assert s[|s| - 1] == b[|b| - 1];
    if |b| >= 2 {
      assert s[|s| - 2] == b[|b| - 2];
    }
  }

  lemma {:induction false} LineStartAfter(p: string, body: string)
    requires |p| > 0 && IsLineTerminator(p[|p| - 1])
    ensures LineStart(p + body) == |p| + LineStart(body)
  {
    if |body| > 0 && !IsLineTerminator(body[|body| - 1]) {
      assert (p + body)[..|p + body| - 1] == p + body[..|body| - 1];
      LineStartAfter(p, body[..|body| - 1]);
    } else if |body| == 0 {
      assert p + body == p;
    }
  }

  lemma {:induction false} IndexFromAfter(p: string, body: string, c: char, from: nat)
    requires from <= |body|
    ensures IndexFrom(p + body, c, |p| + from) == |p| + IndexFrom(body, c, from)
    decreases |body| - from
  {
    if from < |body| && body[from] != c {
      IndexFromAfter(p, body, c, from + 1);
    }
  }

  // ---------------------------------------------------------------------
  // Util.isNumeric

  /** The test isNumeric applies at index `i`: '-' only at the start, '.'
      and the ASCII digits anywhere. */
  predicate NumericAt(c: char, i: nat) {
    (i == 0 && c == '-') || c == '.' || ('0' <= c <= '9')
  }

  predicate Numeric(s: string) {
    |s| > 0 && forall i :: 0 <= i < |s| ==> NumericAt(s[i], i)
  }

  /** Util.isNumeric: false for null and the empty string. */
  method IsNumeric(s: Option<string>) returns (r: bool)
    ensures r <==> s.Some? && Numeric(s.value)
  {
    if s.None? || |s.value| == 0 {
      return false;
    }
    var t := s.value;
    var i := 0;
    while i < |t|
      invariant 0 <= i <= |t|
      invariant forall j :: 0 <= j < i ==> NumericAt(t[j], j)
    {
      var c := t[i];
      if (i == 0 && c == '-') || c == '.' || ('0' <= c <= '9') {
        i := i + 1;
      } else {
        return false;
      }
    }
    return true;
  }

  /** On strings without '.', isNumeric accepts exactly the decimal numbers
      new Integer and new Long parse, less those written with '+'. */
  lemma {:induction false} NumericIsDecimal(s: string)
    requires forall i :: 0 <= i < |s| ==> s[i] != '.'
    ensures Numeric(s) && s != "-" <==> Numbers.ParseDecimal(Numbers.Codes(s)).Some? && s[0] != '+'
  {
    var cs := Numbers.Codes(s);
    if |s| > 0 {
      if s[0] == '-' || s[0] == '+' {
        assert Numbers.AllDigits(cs[1..]) <==> forall i :: 1 <= i < |s| ==> '0' <= s[i] <= '9' by {
          if Numbers.AllDigits(cs[1..]) {
            forall i | 1 <= i < |s| ensures '0' <= s[i] <= '9' {
              assert cs[1..][i - 1] == s[i] as int;
            }
          }
        }
        if s == "-" {
          assert |cs| == 1;
        }
      } else {
        assert Numbers.AllDigits(cs) <==> forall i :: 0 <= i < |s| ==> '0' <= s[i] <= '9';
      }
    }
  }

  // ---------------------------------------------------------------------
  // Util.makeKey and Util.genKeyString

  /** String.valueOf(obj) of an element: "null" for null. */
  function Shown(o: Option<string>): string {
    if o.None? then "null" else o.value
  }

  /** Util.makeKey: the source's text between two underscores. */
  function MakeKey(src: Option<string>): (r: string)
    ensures |r| == |Shown(src)| + 2
    ensures r[0] == '_' && r[|r| - 1] == '_' && r[1..|r| - 1] == Shown(src)
  {
    "_" + Shown(src) + "_"
  }

  /** Different texts give different keys. */
  lemma {:induction false} MakeKeyInjective(a: Option<string>, b: Option<string>)
    requires MakeKey(a) == MakeKey(b)
    ensures Shown(a) == Shown(b)
  {
    assert Shown(a) == MakeKey(a)[1..|MakeKey(a)| - 1];
  }

  /** The key of a run of elements: "_", then each element followed by
      "_". */
  function KeyOf(parts: seq<Option<string>>): (r: string)
    ensures |r| > 0 && r[0] == '_'
  {
    if |parts| == 0 then "_" else KeyOf(parts[..|parts| - 1]) + Shown(parts[|parts| - 1]) + "_"
  }

  /** The key of two runs is the key of the first continued by the key of
      the second without its leading "_". */
  lemma {:induction false} KeyOfAppend(a: seq<Option<string>>, b: seq<Option<string>>)
    ensures KeyOf(a + b) == KeyOf(a) + KeyOf(b)[1..]
  {
    if |b| > 0 {
      var ab := a + b;
      var b' := b[..|b| - 1];
      var x := Shown(b[|b| - 1]);
      assert ab[..|ab| - 1] == a + b';
      assert ab[|ab| - 1] == b[|b| - 1];
      KeyOfAppend(a, b');
      var k := KeyOf(b');
      assert KeyOf(b) == k + x + "_";
      assert KeyOf(b)[1..] == k[1..] + x + "_";
      assert KeyOf(ab) == KeyOf(a) + k[1..] + x + "_";
    } else {
      assert a + b == a;
    }
  }

  /** The key of a single element is its makeKey. */
  lemma {:induction false} KeyOfSingle(x: Option<string>)
    ensures KeyOf([x]) == MakeKey(x)
  {
    assert [x][..0] == [];
  }

  function Min(a: int, b: int): int {
    if a < b then a else b
  }

  /** Util.genKeyString(strs, sidx, cnt): the key of the (at most) `cnt`
      elements from index `sidx`, cut where the array ends; "_" for null or
      for no element asked. The source asserts `sidx` is not negative; with
      Java assertions off (the default), a negative `sidx` indexes the array
      out of bounds as soon as an element is asked for. */
  method GenKeyString(strs: array?<Option<string>>, sidx: Int32, cnt: Int32) returns (r: Outcome<string>)
    ensures strs == null || cnt <= 0 ==> r == Ok("_")
    ensures strs != null && cnt > 0 && sidx < 0 ==> r == Thrown
    ensures strs != null && sidx >= 0 ==>
              r == Ok(KeyOf(strs[Min(sidx, strs.Length)..Min(sidx + (if cnt < 0 then 0 else cnt), strs.Length)]))
  {
    if strs == null {
      return Ok("_");
    }
    var key := "_";
    var i := 0;
    while i < cnt
      invariant 0 <= i && (i <= cnt || i == 0)
      invariant sidx < 0 ==> i == 0
      invariant i == 0 || sidx + i <= strs.Length
      invariant i == 0 ==> key == "_"
      invariant sidx >= 0 ==> key == KeyOf(strs[Min(sidx, strs.Length)..Min(sidx + i, strs.Length)])
    {
      if sidx + i >= strs.Length {
        break;
      }
      if sidx + i < 0 {
        return Thrown;
      }
      assert strs[sidx..sidx + i + 1][..i] == strs[sidx..sidx + i];
      key := key + Shown(strs[sidx + i]) + "_";
      i := i + 1;
    }
    assert cnt <= 0 ==> i == 0;
    return Ok(key);
  }

  // ---------------------------------------------------------------------
  // String.split

  /** The pieces of `s` between the elements where `isSep` holds, empty
      pieces included. */
  function SplitWhere<T>(s: seq<T>, isSep: T -> bool): (parts: seq<seq<T>>)
    ensures |parts| > 0
    ensures forall i :: 0 <= i < |parts| ==> |parts[i]| <= |s|
    ensures forall i, j :: 0 <= i < |parts| && 0 <= j < |parts[i]| ==> !isSep(parts[i][j])
  {
    if |s| == 0 then [[]]
    else
      var rest := SplitWhere(s[1..], isSep);
      if isSep(s[0]) then [[]] + rest else [[s[0]] + rest[0]] + rest[1..]
  }

  /** `parts` joined, with `sep` between neighbours. */
  function JoinWith<T>(parts: seq<seq<T>>, sep: T): seq<T> {
    if |parts| == 0 then [] else if |parts| == 1 then parts[0] else parts[0] + [sep] + JoinWith(parts[1..], sep)
  }

  /** Splitting undoes joining with a separator none of the pieces holds. */
  lemma {:induction false} SplitJoin<T>(parts: seq<seq<T>>, sep: T, isSep: T -> bool)
    requires |parts| > 0 && isSep(sep)
    requires forall i, j :: 0 <= i < |parts| && 0 <= j < |parts[i]| ==> !isSep(parts[i][j])
    ensures SplitWhere(JoinWith(parts, sep), isSep) == parts
  {
    if |parts| == 1 {
      SplitPiece(parts[0], [], isSep);
      assert parts[0] + [] == parts[0];
    } else {
      var rest := JoinWith(parts[1..], sep);
      SplitJoin(parts[1..], sep, isSep);
      var s := [sep] + rest;
      SplitPiece(parts[0], s, isSep);
      assert s[1..] == rest;
      assert JoinWith(parts, sep) == parts[0] + s;
      assert parts[0] + [] == parts[0];
      assert parts == [parts[0]] + parts[1..];
    }
  }

  /** A piece without separators, followed by a tail that is empty or
      starts with a separator, is the first piece of the split. */
  lemma {:induction false} SplitPiece<T>(p: seq<T>, s: seq<T>, isSep: T -> bool)
    requires forall j :: 0 <= j < |p| ==> !isSep(p[j])
    requires |s| > 0 ==> isSep(s[0])
    ensures SplitWhere(p + s, isSep) == [p + SplitWhere(s, isSep)[0]] + SplitWhere(s, isSep)[1..]
    ensures |s| > 0 ==> SplitWhere(s, isSep) == [[]] + SplitWhere(s[1..], isSep)
  {
    if |p| > 0 {
      assert (p + s)[1..] == p[1..] + s;
      SplitPiece(p[1..], s, isSep);
      assert [p[0]] + (p[1..] + SplitWhere(s, isSep)[0]) == p + SplitWhere(s, isSep)[0];
    } else {
      assert p + s == s;
      if |s| > 0 {
        assert [] + SplitWhere(s, isSep)[0] == SplitWhere(s, isSep)[0];
      } else {
        assert SplitWhere(s, isSep) == [[]];
      }
    }
  }

  function DropTrailingEmpty<T>(parts: seq<seq<T>>): (r: seq<seq<T>>)
    ensures |r| <= |parts| && r == parts[..|r|]
    ensures |r| > 0 ==> r[|r| - 1] != []
    ensures forall i :: |r| <= i < |parts| ==> parts[i] == []
  {
    if |parts| > 0 && parts[|parts| - 1] == [] then DropTrailingEmpty(parts[..|parts| - 1]) else parts
  }

  function NonEmpty<T>(parts: seq<seq<T>>): (r: seq<seq<T>>)
    ensures |r| <= |parts|
    ensures forall i :: 0 <= i < |r| ==> r[i] != [] && exists j :: 0 <= j < |parts| && parts[j] == r[i]
  {
    if |parts| == 0 then []
    else
      var rest := NonEmpty(parts[1..]);
      assert forall i :: 0 <= i < |rest| ==> exists j :: 0 <= j < |parts| && parts[j] == rest[i] by {
        forall i | 0 <= i < |rest| ensures exists j :: 0 <= j < |parts| && parts[j] == rest[i] {
          var j :| 0 <= j < |parts[1..]| && parts[1..][j] == rest[i];
          assert parts[j + 1] == rest[i];
        }
      }
      if parts[0] == [] then rest else [parts[0]] + rest
  }

  /** s.split(regex) for a one-character separator: `s` itself when it has
      no separator; otherwise its pieces less the trailing empty ones. */
  function SplitOn<T>(s: seq<T>, isSep: T -> bool): (parts: seq<seq<T>>)
    ensures forall i :: 0 <= i < |parts| ==> |parts[i]| <= |s|
  {
    if forall i :: 0 <= i < |s| ==> !isSep(s[i]) then [s] else DropTrailingEmpty(SplitWhere(s, isSep))
  }

  /** The pieces kept are no longer than the longest piece. */
  lemma NonEmptyWithin<T>(parts: seq<seq<T>>, n: nat)
    requires forall j :: 0 <= j < |parts| ==> |parts[j]| <= n
    ensures forall i :: 0 <= i < |NonEmpty(parts)| ==> |NonEmpty(parts)[i]| <= n
  {
    forall i | 0 <= i < |NonEmpty(parts)|
      ensures |NonEmpty(parts)[i]| <= n
    {
      var j :| 0 <= j < |parts| && parts[j] == NonEmpty(parts)[i];
    }
  }

  /** s.split("\\s+"): a run of separators separates once; a leading run
      gives a leading empty piece, trailing empty pieces are dropped, and a
      string without separators is its own single piece. */
  function SplitOnRuns<T>(s: seq<T>, isSep: T -> bool): (parts: seq<seq<T>>)
    ensures forall i :: 0 <= i < |parts| ==> |parts[i]| <= |s|
  {
    if forall i :: 0 <= i < |s| ==> !isSep(s[i]) then [s]
    else
      var p := SplitWhere(s, isSep);
      var rest := NonEmpty(p[1..]);
      NonEmptyWithin(p[1..], |s|);
      var r := [p[0]] + rest;
      assert forall i :: 1 <= i < |r| ==> r[i] == rest[i - 1];
      DropTrailingEmpty(r)
  }

  /** Pieces joined by a one-character separator that none of them holds
      split back into themselves, when the last one is not empty. */
  lemma {:induction false} SplitOnJoined<T>(parts: seq<seq<T>>, sep: T, isSep: T -> bool)
    requires |parts| > 0 && isSep(sep)
    requires forall i, j :: 0 <= i < |parts| && 0 <= j < |parts[i]| ==> !isSep(parts[i][j])
    requires parts[|parts| - 1] != []
    ensures SplitOn(JoinWith(parts, sep), isSep) == parts
  {
    if |parts| == 1 {
      assert JoinWith(parts, sep) == parts[0];
    } else {
      SplitJoin(parts, sep, isSep);
      JoinHasSep(parts, sep);
      DropNothing(parts);
    }
  }

  /** The same for splitting on runs of separators, when no piece is
      empty. */
  lemma {:induction false} SplitOnRunsJoined<T>(parts: seq<seq<T>>, sep: T, isSep: T -> bool)
    requires |parts| > 0 && isSep(sep)
    requires forall i, j :: 0 <= i < |parts| && 0 <= j < |parts[i]| ==> !isSep(parts[i][j])
    requires forall i :: 0 <= i < |parts| ==> parts[i] != []
    ensures SplitOnRuns(JoinWith(parts, sep), isSep) == parts
  {
    if |parts| == 1 {
      assert JoinWith(parts, sep) == parts[0];
    } else {
      var joined := JoinWith(parts, sep);
      SplitJoin(parts, sep, isSep);
      JoinHasSep(parts, sep);
      assert isSep(joined[|parts[0]|]);
      NonEmptyKeeps(parts[1..]);
      assert [parts[0]] + NonEmpty(parts[1..]) == parts;
      DropNothing(parts);
    }
  }

  lemma {:induction false} JoinHasSep<T>(parts: seq<seq<T>>, sep: T)
    requires |parts| > 1
    ensures |JoinWith(parts, sep)| > |parts[0]| && JoinWith(parts, sep)[|parts[0]|] == sep
  {
  }

  lemma {:induction false} DropNothing<T>(parts: seq<seq<T>>)
    requires |parts| > 0 && parts[|parts| - 1] != []
    ensures DropTrailingEmpty(parts) == parts
  {
  }

  lemma {:induction false} NonEmptyKeeps<T>(parts: seq<seq<T>>)
    requires forall i :: 0 <= i < |parts| ==> parts[i] != []
    ensures NonEmpty(parts) == parts
  {
    if |parts| > 0 {
      NonEmptyKeeps(parts[1..]);
    }
  }
}
