/**
 * String helpers used by the matching rules of the application: ASCII
 * lower-casing (`toLowerCase`) and substring search (`includes`,
 * `startsWith`, `endsWith`).
 */
module Text {

  /** Lower-cases one ASCII letter; every other character is unchanged. */
  function LowerChar(c: char): (r: char)
    ensures 'A' <= c <= 'Z' ==> r as int == c as int + 32
    ensures !('A' <= c <= 'Z') ==> r == c
  {
    if 'A' <= c <= 'Z' then (c as int + 32) as char else c
  }

  /** Upper-cases one ASCII letter; every other character is unchanged. */
  function UpperChar(c: char): (r: char)
    ensures 'a' <= c <= 'z' ==> r as int == c as int - 32
    ensures !('a' <= c <= 'z') ==> r == c
  {
    if 'a' <= c <= 'z' then (c as int - 32) as char else c
  }

  /** `s.toLowerCase()` restricted to ASCII letters. */
  function Lower(s: string): (r: string)
    ensures |r| == |s|
    ensures forall i :: 0 <= i < |s| ==> r[i] == LowerChar(s[i])
  {
    seq(|s|, i requires 0 <= i < |s| => LowerChar(s[i]))
  }

  /** `s.toUpperCase()` restricted to ASCII letters. */
  function Upper(s: string): (r: string)
    ensures |r| == |s|
    ensures forall i :: 0 <= i < |s| ==> r[i] == UpperChar(s[i])
  {
    seq(|s|, i requires 0 <= i < |s| => UpperChar(s[i]))
  }

  /** Lower-casing forgets whether a string was upper-cased first. */
  lemma LowerOfUpper(s: string)
    ensures Lower(Upper(s)) == Lower(s)
  {
    assert forall i :: 0 <= i < |s| ==> Lower(Upper(s))[i] == Lower(s)[i];
  }

  /** `sub` occurs in `s` starting at position `k`. */
  predicate OccursAt(s: string, sub: string, k: int)
  {
    0 <= k && k + |sub| <= |s| && s[k..k + |sub|] == sub
  }

  /** `s.includes(sub)`. */
  predicate Contains(s: string, sub: string)
  {
    exists k :: 0 <= k <= |s| - |sub| && OccursAt(s, sub, k)
  }

  /** `s.startsWith(p)`. */
  predicate StartsWith(s: string, p: string)
  {
    |p| <= |s| && s[..|p|] == p
  }

  /** `s.endsWith(p)`. */
  predicate EndsWith(s: string, p: string)
  {
    |p| <= |s| && s[|s| - |p|..] == p
  }

  /** An occurrence inside a piece of a concatenation is an occurrence in the whole. */
  lemma ContainsInConcat(a: string, b: string, c: string, sub: string)
    requires Contains(b, sub)
    ensures Contains(a + b + c, sub)
  {
    var k :| 0 <= k <= |b| - |sub| && OccursAt(b, sub, k);
    var s := a + b + c;
    assert s[|a| + k..|a| + k + |sub|] == b[k..k + |sub|];
    assert OccursAt(s, sub, |a| + k);
  }

  /** Containment is transitive: a string containing `mid` contains every substring of `mid`. */
  lemma ContainsTransitive(s: string, mid: string, sub: string)
    requires Contains(s, mid) && Contains(mid, sub)
    ensures Contains(s, sub)
  {
    var k :| 0 <= k <= |s| - |mid| && OccursAt(s, mid, k);
    var j :| 0 <= j <= |mid| - |sub| && OccursAt(mid, sub, j);
    forall i | 0 <= i < |sub|
      ensures s[k + j + i] == sub[i]
    {
      assert s[k + j + i] == s[k..k + |mid|][j + i];
      assert mid[j + i] == mid[j..j + |sub|][i];
    }
    assert s[k + j..k + j + |sub|] == sub;
    assert OccursAt(s, sub, k + j);
  }

  /** Every string contains its own suffix. */
  lemma ContainsSuffix(s: string, n: nat)
    requires n <= |s|
    ensures Contains(s, s[|s| - n..])
  {
    assert OccursAt(s, s[|s| - n..], |s| - n);
  }

  /** The empty string is contained in every string. */
  lemma ContainsEmpty(s: string)
    ensures Contains(s, "")
  {
    assert OccursAt(s, "", 0);
  }
}
