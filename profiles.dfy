/** Util.getMemoryProfileSignature and Util.isValidLevelCount: the record
    signature of a memory profile of a given type and level count. */
module Profiles {
  import opened Wrappers
  import opened Bytes
  import Records

  /** Util.isValidLevelCount: a memory hierarchy has one to three levels. */
  function IsValidLevelCount(lvl: Int32): (ok: bool)
    ensures ok <==> lvl == 1 || lvl == 2 || lvl == 3
  {
    (lvl >= 1) && (lvl <= 3)
  }

  /** The profile types getMemoryProfileSignature knows. */
  predicate KnownProfile(kind: string) {
    kind in {"BWstretchedExp", "ti09", "BWstretchedHit", "BWstretchedEMult", "BWstretchedPen", "BWcyclesDrop", "BWexppenDrop"}
  }

  /** How many `d` fields a profile of type `kind` with `levels` levels
      has; 0 for an unknown type. */
  function DoubleCount(kind: string, levels: int): int {
    if kind == "BWstretchedExp" || kind == "ti09" then levels * 3
    else if kind == "BWstretchedHit" then (levels * 3) + (levels - 1)
    else if kind == "BWstretchedEMult" then (levels * 2) + 1
    else if kind == "BWstretchedPen" then (levels * 3) + 1 + (levels - 1)
    else if kind == "BWcyclesDrop" then levels + 1
    else if kind == "BWexppenDrop" then (levels + 1) * 2 + 4
    else 0
  }

  /** The signature of a profile record: `cnt` doubles, then a string. */
  function ProfileSignature(cnt: nat): (sig: string)
    ensures |sig| == cnt + 1 && sig[cnt] == 's'
    ensures forall i :: 0 <= i < cnt ==> sig[i] == 'd'
  {
    seq(cnt, _ => 'd') + "s"
  }

  /** Util.getMemoryProfileSignature(type, levelCount): null for a missing
      or invalid level count and for an unknown type; a null type throws
      once the level count has been accepted. */
  method GetMemoryProfileSignature(kind: Option<string>, levelCount: Option<Int32>) returns (r: Outcome<string>)
    ensures levelCount.None? || !IsValidLevelCount(levelCount.value) ==> r.Null?
    ensures levelCount.Some? && IsValidLevelCount(levelCount.value) && kind.None? ==> r.Thrown?
    ensures levelCount.Some? && IsValidLevelCount(levelCount.value) && kind.Some? ==>
              var cnt := DoubleCount(kind.value, levelCount.value);
              if cnt == 0 then r.Null? else cnt > 0 && r == Ok(ProfileSignature(cnt))
  {
    if levelCount.None? {
      return Null;
    }
    var lvl := levelCount.value;
    if (lvl < 1) || (lvl > 3) {
      return Null;
    }
    if kind.None? {
      return Thrown;
    }
    var k := kind.value;
    var cnt := 0;
    if k == "BWstretchedExp" || k == "ti09" {
      cnt := lvl * 3;
    } else if k == "BWstretchedHit" {
      cnt := (lvl * 3) + (lvl - 1);
    } else if k == "BWstretchedEMult" {
      cnt := (lvl * 2) + 1;
    } else if k == "BWstretchedPen" {
      cnt := (lvl * 3) + 1 + (lvl - 1);
    } else if k == "BWcyclesDrop" {
      cnt := (lvl + 1);
    } else if k == "BWexppenDrop" {
      cnt := (lvl + 1) * 2 + 4;
    }
    if cnt == 0 {
      return Null;
    }
    var retValue := "";
    for i := 0 to cnt
      invariant retValue == seq(i, _ => 'd')
    {
      retValue := retValue + "d";
    }
    retValue := retValue + "s";
    return Ok(retValue);
  }

  /** With a valid level count, a profile type has fields exactly when it
      is known, and at most twelve of them. */
  lemma {:induction false} DoubleCountKnown(kind: string, levels: Int32)
    requires IsValidLevelCount(levels)
    ensures DoubleCount(kind, levels) > 0 <==> KnownProfile(kind)
    ensures DoubleCount(kind, levels) <= 12
  {
  }

  /** A profile signature is a record signature of known tags only. */
  lemma {:induction false} ProfileSignatureIsRecord(cnt: nat)
    ensures forall i :: 0 <= i < |ProfileSignature(cnt)| ==> Records.KnownTag(ProfileSignature(cnt)[i])
  {
  }
}
