/**
  The two string primitives the classifier relies on: ASCII lower-casing
  (`String.prototype.toLowerCase` restricted to ASCII) and substring
  containment (`String.prototype.includes`).
 */
module Text {

  predicate IsUpper(c: char) {
    'A' <= c <= 'Z'
  }

  /** Lower-cases one ASCII letter; every other character is kept. */
  function LowerChar(c: char): (r: char)
    ensures !IsUpper(r)
    ensures IsUpper(c) ==> r as int == c as int + 32
    ensures !IsUpper(c) ==> r == c
  {
    if IsUpper(c) then (c as int + 32) as char else c
  }

  /** `s.toLowerCase()` on ASCII text. */
  function Lower(s: string): (r: string)
    ensures |r| == |s|
    ensures forall i :: 0 <= i < |s| ==> r[i] == LowerChar(s[i])
  {
    seq(|s|, i requires 0 <= i < |s| => LowerChar(s[i]))
  }

  /** Lower-casing leaves no upper-case ASCII letter behind. */
  lemma LowerHasNoUpper(s: string)
    ensures forall c :: c in Lower(s) ==> !IsUpper(c)
  {
    forall c | c in Lower(s) ensures !IsUpper(c) {
      var i :| 0 <= i < |s| && Lower(s)[i] == c;
    }
  }

  /** Lower-casing twice is lower-casing once. */
  lemma LowerIdempotent(s: string)
    ensures Lower(Lower(s)) == Lower(s)
  {
  }

  /** Lower-casing works character by character, so it distributes over concatenation. */
  lemma LowerAppend(a: string, b: string)
    ensures Lower(a + b) == Lower(a) + Lower(b)
  {
  }

  /** `sub` occurs in `s` starting at index `i`. */
  predicate OccursAt(s: string, sub: string, i: int) {
    0 <= i <= |s| - |sub| && s[i..i + |sub|] == sub
  }

  /** `s.includes(sub)`: `sub` occurs as a contiguous block of `s`. */
  predicate Contains(s: string, sub: string)
    ensures Contains(s, sub) ==> |sub| <= |s|
    ensures sub == [] ==> Contains(s, sub)
  {
    assert sub == [] ==> OccursAt(s, sub, 0);
    exists i :: 0 <= i <= |s| - |sub| && OccursAt(s, sub, i)
  }

  /** An occurrence of `t` in `s` carries every occurrence of `u` in `t` along. */
  lemma ContainsTransitive(s: string, t: string, u: string)
    requires Contains(s, t) && Contains(t, u)
    ensures Contains(s, u)
  {
    var i :| 0 <= i <= |s| - |t| && OccursAt(s, t, i);
    var j :| 0 <= j <= |t| - |u| && OccursAt(t, u, j);
    assert forall k :: 0 <= k < |u| ==> u[k] == t[j + k] == s[i + j + k];
    assert OccursAt(s, u, i + j);
  }

  /** Every string contains each of its prefixes. */
  lemma ContainsPrefix(s: string, n: nat)
    requires n <= |s|
    ensures Contains(s, s[..n])
  {
    assert OccursAt(s, s[..n], 0);
  }

  /** The empty string contains only the empty string. */
  lemma ContainsInEmpty(sub: string)
    ensures Contains("", sub) <==> sub == ""
  {
    if sub == "" {
      assert OccursAt("", sub, 0);
    }
  }
}
