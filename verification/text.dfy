/**
 * The operations on Python strings that the wiki's views rely on:
 * lower-casing, the substring test `needle in hay` and `replace`. `FindFrom`
 * (Python's `find`) is the helper `replace` is defined with, and `CountChar`
 * is used to state what a replacement keeps. Strings are sequences of
 * characters.
 */
module Text {
  import opened Wrappers

  /** Lower-cases one character; only the ASCII letters A-Z are mapped. */
  function LowerChar(c: char): (r: char)
    ensures !('A' <= r <= 'Z')
    ensures !('A' <= c <= 'Z') ==> r == c
    ensures 'A' <= c <= 'Z' ==> r as int - c as int == 'a' as int - 'A' as int
  {
    if 'A' <= c <= 'Z' then (c as int - 'A' as int + 'a' as int) as char else c
  }

  /** `s.lower()`, over ASCII: same length, no upper-case letter left. */
  function Lower(s: string): (r: string)
    ensures |r| == |s|
    ensures forall i :: 0 <= i < |r| ==> r[i] == LowerChar(s[i]) && !('A' <= r[i] <= 'Z')
  {
    seq(|s|, i requires 0 <= i < |s| => LowerChar(s[i]))
  }

  /**
   * Two names are the same title up to case: `a.lower() == b.lower()`, that
   * is, same length and the same letters position by position, ignoring case.
   */
  predicate EqualIgnoreCase(a: string, b: string)
    ensures EqualIgnoreCase(a, b) <==>
              |a| == |b| && forall i :: 0 <= i < |a| ==> LowerChar(a[i]) == LowerChar(b[i])
  {
    Lower(a) == Lower(b)
  }

  /** `pat` occurs in `s` starting at position `k`. */
  predicate OccursAt(s: string, pat: string, k: int)
  {
    0 <= k && k + |pat| <= |s| && s[k..k + |pat|] == pat
  }

  /**
   * Python's `pat in s`: some position holds an occurrence of `pat`; the same
   * as `s.find(pat) != -1`. The empty string occurs in every string.
   */
  predicate Contains(s: string, pat: string)
    ensures Contains(s, pat) <==> FindFrom(s, pat, 0).Some?
    ensures pat == [] ==> Contains(s, pat)
    ensures Contains(s, pat) ==> |pat| <= |s|
  {
    assert OccursAt(s, [], 0);
    exists k :: 0 <= k <= |s| && OccursAt(s, pat, k)
  }

  /** `s.find(pat, k)`: the first occurrence of `pat` at or after `k`. */
  function FindFrom(s: string, pat: string, k: nat): (r: Option<nat>)
    decreases |s| - k
    ensures r.Some? ==> k <= r.value && OccursAt(s, pat, r.value)
    ensures r.Some? ==> forall j :: k <= j < r.value ==> !OccursAt(s, pat, j)
    ensures r.None? ==> forall j :: k <= j ==> !OccursAt(s, pat, j)
  {
    if |s| < k + |pat| then None
    else if s[k..k + |pat|] == pat then Some(k)
    else FindFrom(s, pat, k + 1)
  }

  /**
   * `s[k:].replace(pat, rep)` for a non-empty `pat`: scan from `k`, replace the
   * first occurrence, resume the scan just after it, so occurrences never overlap.
   */
  function ReplaceFrom(s: string, pat: string, rep: string, k: nat): (r: string)
    requires |pat| > 0 && k <= |s|
    decreases |s| - k
    ensures (forall j :: k <= j ==> !OccursAt(s, pat, j)) ==> r == s[k..]
    ensures |rep| <= |pat| ==> |r| <= |s| - k
    ensures |rep| < |pat| ==> (|r| < |s| - k <==> exists j :: k <= j && OccursAt(s, pat, j))
  {
    match FindFrom(s, pat, k)
    case None => s[k..]
    case Some(i) => s[k..i] + rep + ReplaceFrom(s, pat, rep, i + |pat|)
  }

  /** `s.replace(pat, rep)` for a non-empty `pat`. */
  function Replace(s: string, pat: string, rep: string): (r: string)
    requires |pat| > 0
    ensures !Contains(s, pat) ==> r == s
    ensures |rep| < |pat| ==> (|r| < |s| <==> Contains(s, pat))
    ensures |rep| <= |pat| ==> |r| <= |s|
  {
    ReplaceFrom(s, pat, rep, 0)
  }

  /** `s.count(c)` for a single character. */
  function CountChar(s: string, c: char): (r: nat)
    ensures r <= |s|
    ensures r > 0 <==> c in s
  {
    if s == [] then 0 else (if s[0] == c then 1 else 0) + CountChar(s[1..], c)
  }
}
