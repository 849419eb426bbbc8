/** Sequence helpers with the semantics of JavaScript's `Array.prototype.indexOf`. */
module Seqs {

  /** No element occurs twice. */
  predicate Distinct<T(==)>(s: seq<T>) {
    forall i, j :: 0 <= i < j < |s| ==> s[i] != s[j]
  }

  /** Index of the first occurrence of `x` in `s`, or -1 when there is none. */
  function IndexOf<T(==)>(s: seq<T>, x: T): (r: int)
    ensures -1 <= r < |s|
    ensures r == -1 <==> x !in s
    ensures 0 <= r ==> s[r] == x && x !in s[..r]
  {
    if |s| == 0 then -1
    else if s[0] == x then 0
    else
      var k := IndexOf(s[1..], x);
      if k < 0 then -1
      else
        assert s[..k + 1] == [s[0]] + s[1..][..k];
        k + 1
  }

  /** In a duplicate-free sequence the index of an element is its position. */
  lemma {:induction false} IndexOfDistinct<T>(s: seq<T>, i: int)
    requires Distinct(s)
    requires 0 <= i < |s|
    ensures IndexOf(s, s[i]) == i
  {
    assert s[i] !in s[..i];
    assert s[i] in s[..i + 1];
  }

  /** Writing an element that did not occur into slot `i` makes `i` its index. */
  lemma IndexOfWritten<T>(s: seq<T>, i: int, x: T)
    ensures x !in s && 0 <= i < |s| ==> IndexOf(s[i := x], x) == i
  {
    if x !in s && 0 <= i < |s| {
      var t := s[i := x];
      assert t[..i] == s[..i];
      assert t[..i + 1] == t[..i] + [x];
      assert IndexOf(t[..i + 1], x) == i;
      IndexOfPrefix(t, i + 1, x);
    }
  }

  /** An element found in a prefix is found at the same index in the whole. */
  lemma {:induction false} IndexOfPrefix<T>(s: seq<T>, n: nat, x: T)
    requires n <= |s| && x in s[..n]
    ensures IndexOf(s, x) == IndexOf(s[..n], x)
  {
    var k := IndexOf(s[..n], x);
    assert s[..k] == s[..n][..k];
    assert s[k] == x;
  }
}
