/** Substring search on strings, as JavaScript's `String.prototype.includes`
    performs it: a pattern is included when it occurs at some index, found by
    trying every start position from left to right. */
module TextSearch {
  import opened Wrappers

  /** `pat` occurs in `s` starting at index `i`, character by character. */
  ghost predicate OccursAt(s: string, pat: string, i: int)
  {
    && 0 <= i
    && i + |pat| <= |s|
    && forall k :: 0 <= k < |pat| ==> s[i + k] == pat[k]
  }

  /** The least index at or after `from` where `pat` occurs in `s`, or None
      when it occurs nowhere from `from` on. */
  function IndexOfFrom(s: string, pat: string, from: nat): (r: Option<nat>)
    ensures r.Some? ==> from <= r.value && OccursAt(s, pat, r.value)
    ensures r.Some? ==> forall j :: from <= j < r.value ==> !OccursAt(s, pat, j)
    ensures r.None? ==> forall j :: from <= j ==> !OccursAt(s, pat, j)
    decreases |s| - from
  {
    if from + |pat| > |s| then
      None
    else
      OccursAtSlice(s, pat, from);
      if s[from..from + |pat|] == pat then Some(from) else IndexOfFrom(s, pat, from + 1)
  }

  /** Within bounds, an occurrence is the same as the slice being equal. */
  lemma OccursAtSlice(s: string, pat: string, i: nat)
    requires i + |pat| <= |s|
    ensures OccursAt(s, pat, i) <==> s[i..i + |pat|] == pat
  {
    if s[i..i + |pat|] == pat {
      forall k | 0 <= k < |pat|
        ensures s[i + k] == pat[k]
      {
        assert s[i..i + |pat|][k] == s[i + k];
      }
    }
  }

  /** `s.includes(pat)`: true exactly when `pat` occurs somewhere in `s`. */
  function Includes(s: string, pat: string): (r: bool)
    ensures r <==> exists i :: OccursAt(s, pat, i)
  {
    IndexOfFrom(s, pat, 0).Some?
  }
}
