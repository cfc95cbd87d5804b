/** Python's substring test `sub in s` on strings. */
module Text {

  /** `sub` occurs in `s` starting at index `i`. */
  predicate OccursAt(sub: string, s: string, i: int) {
    0 <= i <= |s| - |sub| && s[i..i + |sub|] == sub
  }

  /** `sub in s`: scans the start positions of `s` from left to right. */
  function Contains(s: string, sub: string): (b: bool)
    ensures b <==> exists i :: OccursAt(sub, s, i)
    decreases |s|
  {
    if |sub| <= |s| && s[..|sub|] == sub then
      assert OccursAt(sub, s, 0);
      true
    else if |s| <= |sub| then
      false
    else
      ShiftOccurrences(sub, s);
      Contains(s[1..], sub)
  }

  /** When `sub` does not start `s`, its occurrences in `s` are those in `s[1..]`, shifted by one. */
  lemma ShiftOccurrences(sub: string, s: string)
    requires |s| > 0 && !OccursAt(sub, s, 0)
    ensures (exists i :: OccursAt(sub, s, i)) <==> (exists i :: OccursAt(sub, s[1..], i))
  {
    if i :| OccursAt(sub, s, i) {
      assert i >= 1;
      assert s[1..][i - 1..i - 1 + |sub|] == s[i..i + |sub|];
      assert OccursAt(sub, s[1..], i - 1);
    }
    if i :| OccursAt(sub, s[1..], i) {
      assert s[1..][i..i + |sub|] == s[i + 1..i + 1 + |sub|];
      assert OccursAt(sub, s, i + 1);
    }
  }
}
