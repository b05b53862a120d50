/** Shared vocabulary: an optional value, the C++ fixed-width unsigned types, and substring search. */
module Basics {

  /** A value that may be absent: a null pointer, a missing map key, a failed search. */
  datatype Option<+T> = None | Some(value: T)

  const TWO_TO_32: int := 0x1_0000_0000
  const UINT32_MAX: int := 0xFFFF_FFFF

  /** uint16_t and uint32_t values. */
  type u16 = x: int | 0 <= x < 0x1_0000
  type u32 = x: int | 0 <= x < 0x1_0000_0000

  /** `pat` occurs in `s` starting at position `i`. */
  predicate OccursAt(s: string, pat: string, i: nat)
  {
    i + |pat| <= |s| && s[i..i + |pat|] == pat
  }

  /** `pat` occurs somewhere in `s` (std::string::find does not return npos). */
  predicate Contains(s: string, pat: string)
  {
    exists i: nat :: i + |pat| <= |s| && OccursAt(s, pat, i)
  }

  /**
   * std::string::find: the first position at which `pat` occurs in `s`, or None.
   */
  method Find(s: string, pat: string) returns (pos: Option<nat>)
    ensures pos.None? <==> !Contains(s, pat)
    ensures pos.Some? ==> OccursAt(s, pat, pos.value)
    ensures pos.Some? ==> forall j: nat :: j < pos.value ==> !OccursAt(s, pat, j)
  {
    if |pat| > |s| {
      return None;
    }
    var i: nat := 0;
    while i + |pat| <= |s|
      invariant i <= |s| - |pat| + 1
      invariant forall j: nat :: j < i ==> !OccursAt(s, pat, j)
    {
      if s[i..i + |pat|] == pat {
        assert OccursAt(s, pat, i);
        return Some(i);
      }
      i := i + 1;
    }
    return None;
  }
}
