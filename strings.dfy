/** Substring search on strings, the behaviour of JavaScript's
    `String.prototype.includes`. */
module Strings {

  /** `sub` occurs in `s` starting at index `i`. */
  ghost predicate OccursAt(sub: string, s: string, i: int)
  {
    0 <= i && i + |sub| <= |s| && s[i..i + |sub|] == sub
  }

  /** Shifting an occurrence between `s` and its tail. */
  lemma OccursInTail(sub: string, s: string)
    requires s != []
    ensures forall i :: 0 <= i && OccursAt(sub, s[1..], i) ==> OccursAt(sub, s, i + 1)
    ensures forall j :: 1 <= j && OccursAt(sub, s, j) ==> OccursAt(sub, s[1..], j - 1)
  {
    forall i | 0 <= i && OccursAt(sub, s[1..], i)
      ensures OccursAt(sub, s, i + 1)
    {
      assert s[1..][i..i + |sub|] == s[i + 1..i + 1 + |sub|];
    }
    forall j | 1 <= j && OccursAt(sub, s, j)
      ensures OccursAt(sub, s[1..], j - 1)
    {
      assert s[1..][j - 1..j - 1 + |sub|] == s[j..j + |sub|];
    }
  }

  /** `s.includes(sub)`, scanning the start positions from left to right. */
  function Contains(s: string, sub: string): bool
    decreases |s|
  {
    if sub <= s then true
    else if s == [] then false
    else Contains(s[1..], sub)
  }

  /** `Contains` is exactly "occurs somewhere", so the empty string is
      contained in every string. */
  lemma {:induction false} ContainsIffOccurs(s: string, sub: string)
    ensures Contains(s, sub) <==> exists i :: OccursAt(sub, s, i)
    decreases |s|
  {
    if sub <= s {
      assert OccursAt(sub, s, 0);
    } else if s == [] {
      assert forall i :: !OccursAt(sub, s, i);
    } else {
      OccursInTail(sub, s);
      assert !OccursAt(sub, s, 0);
      ContainsIffOccurs(s[1..], sub);
    }
  }

  /** A non-empty string whose first character does not occur in `s` is not
      contained in `s`. */
  lemma {:induction false} NoContainsWithoutFirstChar(s: string, sub: string)
    requires sub != [] && sub[0] !in s
    ensures !Contains(s, sub)
    decreases |s|
  {
    if s != [] {
      assert s[0] in s;
      NoContainsWithoutFirstChar(s[1..], sub);
    }
  }

  /** A string longer than `s` is not contained in `s`. */
  lemma {:induction false} NoContainsWhenLonger(s: string, sub: string)
    requires |sub| > |s|
    ensures !Contains(s, sub)
    decreases |s|
  {
    if s != [] {
      NoContainsWhenLonger(s[1..], sub);
    }
  }

}
