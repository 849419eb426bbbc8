/** Resolution of an attack pattern against a target string. The regular
    expression engine itself is a parameter (`Matcher`); what the game does
    with its result is modelled here: it keeps the longest match. */
module Patterns {
  import Text

  /** `target.match(new RegExp(pattern, "g"))` with a `null` result read as no
      matches: the list of matched substrings, left to right. */
  type Matcher = (string, string) -> seq<string>

  /** The loop of `attack` that scans the matches and keeps the first one that
      is strictly longer than the best so far, starting from `best`. */
  function LongestAfter(best: string, ms: seq<string>): (r: string)
    ensures |best| <= |r|
    ensures r == best || r in ms
    ensures forall i :: 0 <= i < |ms| ==> |ms[i]| <= |r|
    decreases |ms|
  {
    if ms == [] then best
    else LongestAfter(if |ms[0]| > |best| then ms[0] else best, ms[1..])
  }

  /** The longest match, starting the scan from the empty string. */
  function LongestMatch(ms: seq<string>): (r: string)
    ensures r == "" || r in ms
    ensures forall i :: 0 <= i < |ms| ==> |ms[i]| <= |r|
  {
    LongestAfter("", ms)
  }

  /** Damage of an attack: the length of the longest match, 0 when there is
      no match, and otherwise the length of some match. */
  function Damage(ms: seq<string>): (r: nat)
    ensures forall i :: 0 <= i < |ms| ==> |ms[i]| <= r
    ensures r == 0 || exists i :: 0 <= i < |ms| && |ms[i]| == r
    ensures ms == [] ==> r == 0
  {
    |LongestMatch(ms)|
  }

  /** Non-overlapping left-to-right occurrences of a literal, non-empty
      pattern from index `from` on: the behaviour of a global regular
      expression whose pattern has no special characters. */
  function LiteralMatchesFrom(pat: string, s: string, from: nat): (r: seq<string>)
    requires pat != ""
    requires from <= |s|
    ensures forall i :: 0 <= i < |r| ==> r[i] == pat
    ensures r == [] <==> forall k :: from <= k ==> !Text.OccursAt(s, pat, k)
    decreases |s| - from
  {
    var k := Text.FindFrom(s, pat, from);
    if k == -1 then []
    else [pat] + LiteralMatchesFrom(pat, s, k + |pat|)
  }

  /** A literal matcher. An empty pattern matches the empty string at every
      position, as a global regular expression with an empty source does. */
  function LiteralMatches(pat: string, s: string): (r: seq<string>)
    ensures pat == "" ==> |r| == |s| + 1
    ensures forall i :: 0 <= i < |r| ==> r[i] == pat
  {
    if pat == "" then seq(|s| + 1, _ => "")
    else LiteralMatchesFrom(pat, s, 0)
  }

  /** With a literal pattern the damage is the pattern's length when the
      pattern occurs in the target, and 0 when it does not. */
  lemma LiteralDamage(pat: string, s: string)
    ensures Text.Occurs(s, pat) ==> Damage(LiteralMatches(pat, s)) == |pat|
    ensures !Text.Occurs(s, pat) ==> Damage(LiteralMatches(pat, s)) == 0
  {
    var ms := LiteralMatches(pat, s);
    if pat != "" && Text.Occurs(s, pat) {
      var k :| Text.OccursAt(s, pat, k);
      assert ms != [];
      assert |ms[0]| == |pat|;
    }
  }

  /** The pattern "ab" (cards "a" then "b") against the target "xaybzaabw"
      matches once and deals 2. */
  lemma ExampleAttack()
    ensures Damage(LiteralMatches("a" + "b", "xaybzaabw")) == 2
  {
    var target := "xaybzaabw";
    assert "a" + "b" == "ab";
    assert target[6..8] == "ab";
    assert Text.OccursAt(target, "ab", 6);
    LiteralDamage("ab", target);
  }
}
