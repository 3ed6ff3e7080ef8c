/**
 Substring search on strings, as Python's `sub in s` test performs it.
 */
module Text {

  /** `sub` occurs in `s` starting at index `i`. */
  ghost predicate OccursAt(sub: string, s: string, i: int) {
    0 <= i && i + |sub| <= |s| && s[i..i + |sub|] == sub
  }

  /** `sub` occurs somewhere in `s` (the empty string occurs in every string). */
  ghost predicate OccursIn(sub: string, s: string) {
    exists i :: OccursAt(sub, s, i)
  }

  /** Python's `sub in s`: compares `sub` with every window of `s`, left to right. */
  function Contains(s: string, sub: string): (found: bool)
    decreases |s|
  {
    if |s| < |sub| then false
    else s[..|sub|] == sub || Contains(s[1..], sub)
  }

  /** Shifting a window of `s[1..]` one place right gives the same window of `s`. */
  lemma WindowOfTail(s: string, i: nat, n: nat)
    requires 1 <= |s| && i + n <= |s| - 1
    ensures s[1..][i..i + n] == s[i + 1..i + 1 + n]
  {
  }

  /** When the scan succeeds, it has found an occurrence, at the index returned. */
  lemma {:induction false} ContainsFindsOccurrence(s: string, sub: string) returns (i: nat)
    requires Contains(s, sub)
    ensures OccursAt(sub, s, i)
    decreases |s|
  {
    if s[..|sub|] == sub {
      i := 0;
    } else {
      var j := ContainsFindsOccurrence(s[1..], sub);
      WindowOfTail(s, j, |sub|);
      i := j + 1;
    }
  }

  /** Every occurrence of `sub` is found by the scan. */
  lemma {:induction false} OccurrenceIsFound(s: string, sub: string, i: nat)
    requires OccursAt(sub, s, i)
    ensures Contains(s, sub)
    decreases i
  {
    if i > 0 {
      WindowOfTail(s, i - 1, |sub|);
      OccurrenceIsFound(s[1..], sub, i - 1);
    }
  }

  /** The window scan finds `sub` exactly when it occurs in `s`. */
  lemma ContainsIsOccurrence(s: string, sub: string)
    ensures Contains(s, sub) <==> OccursIn(sub, s)
  {
    if Contains(s, sub) {
      var i := ContainsFindsOccurrence(s, sub);
    }
    if OccursIn(sub, s) {
      var i :| OccursAt(sub, s, i);
      OccurrenceIsFound(s, sub, i);
    }
  }
}
