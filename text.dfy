/** Leftmost substring search and Rust's `str::split_once`, over `string`. */
module Text {
  import opened Wrappers

  /** `pat` occurs in `s` starting at index `i`. */
  predicate OccursAt(s: string, pat: string, i: nat) {
    i + |pat| <= |s| && s[i..i + |pat|] == pat
  }

  /** `pat` occurs nowhere in `s`. */
  ghost predicate Lacks(s: string, pat: string) {
    forall i: nat :: !OccursAt(s, pat, i)
  }

  /** An occurrence stays one when text is appended. */
  lemma OccursInPrefix(s: string, t: string, pat: string, i: nat)
    ensures OccursAt(s, pat, i) ==> OccursAt(s + t, pat, i)
  {
    if i + |pat| <= |s| {
      assert (s + t)[i..i + |pat|] == s[i..i + |pat|];
    }
  }

  /** The least index `>= from` at which `pat` occurs in `s`, if any. */
  function IndexOfFrom(s: string, pat: string, from: nat): (r: Option<nat>)
    decreases |s| - from
    ensures r.Some? ==> from <= r.value && OccursAt(s, pat, r.value)
    ensures r.Some? ==> forall j: nat :: from <= j < r.value ==> !OccursAt(s, pat, j)
    ensures r.None? ==> forall j: nat :: from <= j ==> !OccursAt(s, pat, j)
  {
    if from + |pat| > |s| then None
    else if OccursAt(s, pat, from) then Some(from)
    else IndexOfFrom(s, pat, from + 1)
  }

  /** A search that reports the leftmost occurrence is determined by that occurrence. */
  lemma IndexOfIsLeftmost(s: string, pat: string, i: nat)
    requires OccursAt(s, pat, i)
    requires forall j: nat :: j < i ==> !OccursAt(s, pat, j)
    ensures IndexOfFrom(s, pat, 0) == Some(i)
  {
  }

  /**
   * `s.split_once(pat)`: the text before the leftmost occurrence of `pat`
   * and the text after it, or None when `pat` does not occur.
   */
  function SplitOnce(s: string, pat: string): (r: Option<(string, string)>)
    ensures r.Some? ==> s == r.value.0 + pat + r.value.1
    ensures r.Some? ==> forall j: nat :: j < |r.value.0| ==> !OccursAt(s, pat, j)
    ensures r.None? <==> Lacks(s, pat)
  {
    match IndexOfFrom(s, pat, 0)
    case Some(i) =>
      assert s == s[..i] + pat + s[i + |pat|..] by {
        assert s[i..i + |pat|] == pat;
        assert s == s[..i] + s[i..i + |pat|] + s[i + |pat|..];
      }
      Some((s[..i], s[i + |pat|..]))
    case None => None
  }
}
