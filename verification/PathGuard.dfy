/**
 The traversal guard of the request handler: `path.match(/\.\./)`, a literal
 search for two consecutive dots with no decoding or normalisation.
 */
module PathGuard {
  import opened Wrappers

  /** Two dots start at index `k` of `s`. */
  predicate DotDotAt(s: string, k: int)
  {
    0 <= k && k + 1 < |s| && s[k] == '.' && s[k + 1] == '.'
  }

  /** `t` occurs in `s` starting at index `i`. */
  predicate OccursAt(s: string, t: string, i: int)
  {
    0 <= i && i + |t| <= |s| && s[i..i + |t|] == t
  }

  /** Reference definition: `t` occurs in `s` as a contiguous substring. */
  ghost predicate ContainsSubstring(s: string, t: string)
  {
    exists i :: OccursAt(s, t, i)
  }

  /** The regular-expression search from index `from`: the leftmost index at or
      after `from` where `..` starts, or `None` for a `null` match. */
  function MatchFrom(s: string, from: nat): (r: Option<nat>)
    requires from <= |s|
    ensures r.Some? ==> from <= r.value && DotDotAt(s, r.value)
    ensures r.Some? ==> forall k :: from <= k < r.value ==> !DotDotAt(s, k)
    ensures r.None? ==> forall k :: from <= k ==> !DotDotAt(s, k)
    decreases |s| - from
  {
    if from + 1 >= |s| then None
    else if s[from] == '.' && s[from + 1] == '.' then Some(from)
    else MatchFrom(s, from + 1)
  }

  /** The two descriptions of "`..` starts at `i`" agree. */
  lemma OccursAtDotDot(s: string, i: int)
    ensures OccursAt(s, "..", i) <==> DotDotAt(s, i)
  {
  }

  /** `path.match(/\.\./)`: the index of the leftmost occurrence of `..` in the
      whole path, or `None` for the `null` of a path without one. */
  function MatchDotDot(path: string): (r: Option<nat>)
    ensures r.Some? ==> DotDotAt(path, r.value)
    ensures r.Some? ==> forall j :: 0 <= j < r.value ==> !DotDotAt(path, j)
    ensures r.None? ==> forall j :: !DotDotAt(path, j)
  {
    MatchFrom(path, 0)
  }

  /** The guard fires exactly when the path contains the literal substring `..`. */
  lemma MatchDotDotIff(path: string)
    ensures MatchDotDot(path).Some? <==> ContainsSubstring(path, "..")
  {
    var r := MatchDotDot(path);
    if r.Some? {
      OccursAtDotDot(path, r.value);
    } else {
      forall i | 0 <= i
        ensures !OccursAt(path, "..", i)
      {
        OccursAtDotDot(path, i);
      }
    }
  }
}
