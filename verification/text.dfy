/** String search with the semantics of JavaScript's `String.prototype.indexOf`
    and of `String.prototype.replace` called with a plain string pattern. */
module Text {

  /** `pat` occurs in `s` starting at index `k`. */
  predicate OccursAt(s: string, pat: string, k: int) {
    0 <= k && k + |pat| <= |s| && s[k..k + |pat|] == pat
  }

  /** `pat` occurs somewhere in `s`. */
  ghost predicate Occurs(s: string, pat: string) {
    exists k :: OccursAt(s, pat, k)
  }

  /** Index of the first occurrence of `pat` in `s` at or after `from`, or -1. */
  function FindFrom(s: string, pat: string, from: nat): (r: int)
    ensures r == -1 || from <= r
    ensures r == -1 <==> forall k :: from <= k ==> !OccursAt(s, pat, k)
    ensures r != -1 ==> OccursAt(s, pat, r) && forall k :: from <= k < r ==> !OccursAt(s, pat, k)
    decreases |s| - from
  {
    if from + |pat| > |s| then -1
    else if s[from..from + |pat|] == pat then
      assert OccursAt(s, pat, from);
      from
    else FindFrom(s, pat, from + 1)
  }

  /** Index of the first occurrence of `pat` in `s`, or -1. */
  function FindFirst(s: string, pat: string): (r: int)
    ensures r == -1 <==> !Occurs(s, pat)
    ensures r != -1 ==> OccursAt(s, pat, r) && forall k :: 0 <= k < r ==> !OccursAt(s, pat, k)
  {
    FindFrom(s, pat, 0)
  }

  /** `s.replace(pat, '')`: the first occurrence of `pat` is cut out of `s`;
      when `pat` does not occur, `s` is returned unchanged. */
  function RemoveFirst(s: string, pat: string): (r: string)
    ensures !Occurs(s, pat) ==> r == s
    ensures Occurs(s, pat) ==> |r| == |s| - |pat|
    ensures Occurs(s, pat) ==>
              var k := FindFirst(s, pat);
              r[..k] == s[..k] && r[k..] == s[k + |pat|..]
  {
    var k := FindFirst(s, pat);
    if k < 0 then s else s[..k] + s[k + |pat|..]
  }

  /** Putting the removed occurrence back where it was restores the string. */
  lemma RemoveFirstRestore(s: string, pat: string)
    ensures Occurs(s, pat) ==>
            var k := FindFirst(s, pat);
            var r := RemoveFirst(s, pat);
            r[..k] + pat + r[k..] == s
  {
    var k := FindFirst(s, pat);
    var r := RemoveFirst(s, pat);
    if k != -1 {
      assert s == s[..k] + s[k..k + |pat|] + s[k + |pat|..];
    }
  }
}
